# camel_case_to_snake_case, modelled and proved

This project models `camel_case_to_snake_case` from rekt's `rekt/utils.py`. That function turns a
CamelCase identifier into snake_case in three steps:

1. It replaces every match of the compiled pattern `(.)([A-Z][a-z]+)` by `\1_\2`.
2. It does the same with `([a-z0-9])([A-Z])`.
3. It lowercases the result.

The model has four modules:

- `Ascii` (ascii.dfy): the ASCII character classes and ASCII lowercasing.
- `Patterns` (patterns.dfy): the two patterns. It has their languages (`Matches`), the match the regex
  engine finds at the start of a string (`MatchAt`: leftmost, greedy `[a-z]+`, where `.` is anything
  but a newline), and `re.sub` as a left-to-right, non-overlapping scanner (`Sub`).
- `Utils` (utils.dfy): the function itself (`CamelCaseToSnakeCase`) and an independent reference rule
  that it is proved equal to.
- `UtilsExamples` (examples.dfy): worked examples proved from that rule.

The reference rule puts an underscore in front of `name[i]` exactly when all of these hold:

- `i > 0`;
- `name[i]` is an ASCII capital;
- either `name[i-1]` is a small letter or a digit, or `name[i-1]` is not a newline and `name[i+1]`
  is a small letter.

The result is `Lower(name)` with those underscores put in (`InsertUnderscores(Lower(name), Marks(name))`).

The equality is not obvious. The first pass is not local, because one match can swallow the small
letter that the next match needs: "xAbCd" becomes "x_AbCd" after the first pass, and the second
pass then gives "x_Ab_Cd" (`UtilsExamples.OverlapExample`). What is proved is that the two passes
together put in exactly the rule's underscores, from every place where the first pass resumes
scanning (`Utils.TwoPassesFrom`).

The model follows the code where it differs from the natural reading of the first rule, "a
capital-led word after any character". The code's `.` does not match a newline, so "a\nBc" is not
split (`UtilsExamples.NewlineExample`).

## Model

| member | source | states |
|---|---|---|
| Ascii.Lower | rekt/utils.py:24 | `.lower()` on ASCII: same length, each character lowered in place, no capital left, and a string without capitals is unchanged |
| Ascii.LowerChar | rekt/utils.py:24 | `.lower()` on one character: an ASCII capital becomes the small letter at the same place in the alphabet, any other character is unchanged, and the result is never a capital |
| Ascii.LowerAppend | rekt/utils.py:24 | lowercasing distributes over concatenation |
| Patterns.Matches | rekt/utils.py:17-18 | the languages of `(.)([A-Z][a-z]+)` and `([a-z0-9])([A-Z])` group by group; every match has a one-character group 1 and a group 2 that starts with a capital |
| Patterns.LowerRun | rekt/utils.py:17 | the greedy `[a-z]+`: the length of the leading run of small letters; everything before it is small and the next character is not |
| Patterns.MatchAt | rekt/utils.py:17-18 | the engine's match at the start of a string is a match of the pattern and a prefix of the string, and no longer prefix matches; when there is none, no prefix matches |
| Patterns.FirstCapMatchAt | rekt/utils.py:17 | `(.)([A-Z][a-z]+)` matches at the start exactly when a non-newline is followed by a capital and a small letter; the match ends where the run of small letters ends |
| Patterns.Sub | rekt/utils.py:23-24 | `re.sub` with `\1_\2` never shortens its input and leaves a string without capitals unchanged |
| Patterns.FirstCapSubAtMatch | rekt/utils.py:17-23 | where the first pattern matches, the first pass emits the first character, `_` and the capital with its whole run of small letters, and resumes after the run |
| Patterns.AllCapSubAtMatch | rekt/utils.py:18-24 | where `([a-z0-9])([A-Z])` matches, the second pass puts `_` between the two characters |
| Patterns.AllCapSubIsLocal | rekt/utils.py:18-24 | the second pass equals the local rule "underscore before every capital that follows a small letter or digit" |
| Utils.CamelCaseToSnakeCase | rekt/utils.py:19-24 | the output has no ASCII capital, is at least as long as the name, and a name without capitals is returned unchanged |
| Utils.Marks | rekt/utils.py:17-18 | one flag per character, set exactly at the word boundaries of the rule |
| Utils.TwoPassesFrom | rekt/utils.py:17-24 | from every position where the first pass resumes, the two passes together insert exactly the rule's underscores |
| Utils.LowerInsertUnderscores | rekt/utils.py:24 | lowercasing before or after the underscores are put in gives the same string |
| Utils.CamelCaseToSnakeCaseFollowsRule | rekt/utils.py:17-24 | the function equals the lowercased name with an underscore in front of each boundary and nothing else changed |
| Utils.InsertUnderscoresLength | rekt/utils.py:23-24 | putting in the underscores adds one character per flag |
| Utils.CamelCaseToSnakeCaseLength | rekt/utils.py:23-24 | the output is longer than the name by exactly the number of boundaries |
| Utils.BoundariesAreBeforeCapitals | rekt/utils.py:17-24 | every inserted underscore has a character before it and a capital after it, which becomes a small letter in the output |
| Utils.CamelCaseToSnakeCaseIdempotent | rekt/utils.py:17-24 | converting twice is the same as converting once |
| Utils.InsertUnderscoresAppend | rekt/utils.py:23-24 | putting in the underscores works piece by piece over a concatenation |
| UtilsExamples.HelloWorldExample | rekt/utils.py:20-22 | "HelloWorld" becomes "hello_world", as the docstring says |
| UtilsExamples.ParseHttpExample | rekt/utils.py:17-24 | "parseHTTPResponse" becomes "parse_http_response" |
| UtilsExamples.AbcExample | rekt/utils.py:17-24 | "ABCDef" becomes "abc_def" |
| UtilsExamples.Ipv4Example | rekt/utils.py:18-24 | "Ipv4Addr" becomes "ipv4_addr": a digit ends a word as a small letter does |
| UtilsExamples.OverlapExample | rekt/utils.py:17-24 | the first pass turns "xAbCd" into "x_AbCd", missing the second underscore; the second pass turns that into "x_Ab_Cd"; the result is "x_ab_cd" |
| UtilsExamples.NewlineExample | rekt/utils.py:17-23 | "a\nBc" becomes "a\nbc": `.` does not match the newline |
| UtilsExamples.SnakeCaseExamples | rekt/utils.py:17-24 | "" and "already_snake" come back unchanged |

## Left out

- `load_config` (rekt/utils.py:30-40): reading a file, UTF-8 decoding and `yaml.load` are I/O and
  foreign library calls.
- `load_builtin_config` (rekt/utils.py:26-28): it resolves a resource path through `pkg_resources`
  and the `specs` package, which are outside this model.
- `read_only_dict` (rekt/utils.py:14-15): a wrapper around Python's `types.MappingProxyType` with no
  logic of its own.
- `_NULL_OBJECT` (rekt/utils.py:12): a sentinel object that the code never uses.
- Unicode: the character classes and lowercasing are ASCII only. Python's `str.lower` maps non-ASCII
  capitals too, and those are not modelled.
- UtilsExamples.ParseHttpExample: states the final result only. It does not state the intermediate
  strings after each pass ("parseHTTP_Response", then "parse_HTTP_Response"). Evaluating the scanner
  on a literal that long is beyond what the verifier does cheaply. The rule theorem covers the
  composition.
- Regex compilation and caching: the two patterns appear as a datatype, not as compiled objects.
