/**
 * `camel_case_to_snake_case` of rekt/utils.py: the FirstCap substitution, then
 * the AllCap substitution, then lowercasing.
 *
 * Beside it stands the rule the two substitutions implement, stated on the
 * input alone: an underscore goes in front of a capital that either follows a
 * small letter or digit, or follows any character but a newline and is itself
 * followed by a small letter. The main theorem says the two-pass scanner
 * gives exactly that. It is not obvious: a FirstCap match can swallow the
 * small letter that a following FirstCap match would need (in "xAbCd" the
 * first pass leaves "x_AbCd"), and it is the AllCap pass that puts the missing
 * underscore in.
 */
module Utils {
  import opened Ascii
  import opened Patterns

  /** `camel_case_to_snake_case(name)`. */
  function CamelCaseToSnakeCase(name: string): (r: string)
    ensures NoUpper(r)
    ensures |r| >= |name|
    ensures NoUpper(name) ==> r == name
  {
    Lower(Sub(AllCap, Sub(FirstCap, name)))
  }

  /** s[i] starts a new word: it is a capital after a small letter or digit, or
      a capital after any non-newline character and before a small letter. */
  predicate Boundary(s: string, i: nat)
    requires i < |s|
  {
    && 0 < i && IsUpper(s[i])
    && (IsLowerOrDigit(s[i - 1]) || (s[i - 1] != '\n' && i + 1 < |s| && IsLower(s[i + 1])))
  }

  /** The word boundaries of s, one flag per character. */
  function Marks(s: string): (k: seq<bool>)
    ensures |k| == |s|
    ensures forall i :: 0 <= i < |s| ==> k[i] == Boundary(s, i)
  {
    seq(|s|, i requires 0 <= i < |s| => Boundary(s, i))
  }

  /** s with an underscore put in front of each s[i] whose flag k[i] is set. */
  function InsertUnderscores(s: string, k: seq<bool>): (r: string)
    requires |k| == |s|
    ensures |r| >= |s|
    decreases |s|
  {
    if s == [] then ""
    else (if k[0] then "_" else "") + [s[0]] + InsertUnderscores(s[1..], k[1..])
  }

  /** InsertUnderscores takes one character at a time. */
  lemma InsertUnderscoresAt(s: string, k: seq<bool>, i: nat)
    requires |k| == |s| && i < |s|
    ensures InsertUnderscores(s[i..], k[i..]) == (if k[i] then "_" else "") + [s[i]] + InsertUnderscores(s[i + 1..], k[i + 1..])
  {
    assert s[i..][0] == s[i] && s[i..][1..] == s[i + 1..] && k[i..][0] == k[i] && k[i..][1..] == k[i + 1..];
  }

  /** The number of flags set in k. */
  function CountFlags(k: seq<bool>): (n: nat)
    ensures n <= |k|
  {
    if k == [] then 0 else (if k[0] then 1 else 0) + CountFlags(k[1..])
  }

  /** InsertUnderscores adds one character per flag. */
  lemma {:induction false} InsertUnderscoresLength(s: string, k: seq<bool>)
    requires |k| == |s|
    ensures |InsertUnderscores(s, k)| == |s| + CountFlags(k)
    decreases |s|
  {
    if s != [] {
      InsertUnderscoresLength(s[1..], k[1..]);
    }
  }

  /** Where no flag is set, InsertUnderscores copies the characters unchanged. */
  lemma {:induction false} InsertUnderscoresUnmarked(s: string, k: seq<bool>, j: nat, e: nat)
    requires |k| == |s| && j <= e <= |s|
    requires forall t :: j <= t < e ==> !k[t]
    ensures InsertUnderscores(s[j..], k[j..]) == s[j..e] + InsertUnderscores(s[e..], k[e..])
    decreases e - j
  {
    if j < e {
      InsertUnderscoresUnmarked(s, k, j + 1, e);
      assert s[j..][1..] == s[j + 1..] && k[j..][1..] == k[j + 1..];
      assert s[j..e] == [s[j]] + s[j + 1..e];
    }
  }

  /** A run of small letters passes through the local AllCap rule unchanged,
      and what follows it comes after a small letter. */
  lemma {:induction false} SplitLowerRun(f: bool, run: string, rest: string)
    requires run != [] && forall j :: 0 <= j < |run| ==> IsLower(run[j])
    ensures SplitAfterAlnum(f, run + rest) == run + SplitAfterAlnum(true, rest)
    decreases |run|
  {
    assert (run + rest)[0] == run[0] && (run + rest)[1..] == run[1..] + rest;
    if |run| > 1 {
      SplitLowerRun(true, run[1..], rest);
    } else {
      assert run[1..] + rest == rest;
    }
  }

  /** A capital followed by small letters, after a character that is neither a
      small letter nor a digit, passes through the local AllCap rule unchanged. */
  lemma SplitCapitalWord(m: string, rest: string)
    requires |m| >= 2 && IsUpper(m[0]) && forall j :: 1 <= j < |m| ==> IsLower(m[j])
    ensures SplitAfterAlnum(false, m + rest) == m + SplitAfterAlnum(true, rest)
  {
    SplitAt(false, m + rest);
    assert (m + rest)[0] == m[0] && (m + rest)[1..] == m[1..] + rest;
    SplitLowerRun(false, m[1..], rest);
    var tail := SplitAfterAlnum(true, rest);
    assert SplitAfterAlnum(false, m + rest) == [m[0]] + (m[1..] + tail);
    ConcatAssoc([m[0]], m[1..], tail);
    assert [m[0]] + m[1..] == m;
  }

  /** The local AllCap rule on the text the first pass emits for one FirstCap
      match, a character a followed by `_` and the capital-led word m: only a
      may get an underscore in front. */
  lemma SplitFirstCapMatch(f: bool, a: char, m: string, rest: string)
    requires |m| >= 2 && IsUpper(m[0]) && forall j :: 1 <= j < |m| ==> IsLower(m[j])
    ensures SplitAfterAlnum(f, [a] + "_" + m + rest)
            == (if f && IsUpper(a) then "_" else "") + [a] + ("_" + (m + SplitAfterAlnum(true, rest)))
  {
    var y := "_" + (m + rest);
    assert [a] + "_" + m + rest == [a] + y;
    SplitAt(f, [a] + y);
    assert ([a] + y)[0] == a && ([a] + y)[1..] == y;
    SplitAt(IsLowerOrDigit(a), y);
    assert y[0] == '_' && y[1..] == m + rest;
    SplitCapitalWord(m, rest);
  }

  /** The rule on a FirstCap match s[i - 1..e]: the capital s[i] is a boundary
      and its run of small letters holds none. */
  lemma InsertUnderscoresFirstCapMatch(s: string, i: nat, e: nat)
    requires 0 < i && i + 1 < e <= |s|
    requires s[i - 1] != '\n' && IsUpper(s[i])
    requires forall j :: i < j < e ==> IsLower(s[j])
    ensures InsertUnderscores(s[i..], Marks(s)[i..]) == "_" + (s[i..e] + InsertUnderscores(s[e..], Marks(s)[e..]))
  {
    var k := Marks(s);
    assert k[i] by { assert Boundary(s, i); }
    assert forall j :: i + 1 <= j < e ==> !k[j];
    InsertUnderscoresUnmarked(s, k, i + 1, e);
    InsertUnderscoresAt(s, k, i);
    assert s[i..e] == [s[i]] + s[i + 1..e];
  }

  /** One step of TwoPassesFrom where a FirstCap match starts at i: it ends at
      e, just after a small letter, and the claim at i follows from the claim
      at e. */
  lemma TwoPassesAtMatch(s: string, i: nat, f: bool) returns (e: nat)
    requires i + 2 < |s| && s[i] != '\n' && IsUpper(s[i + 1]) && IsLower(s[i + 2])
    requires Boundary(s, i) == (f && IsUpper(s[i]))
    ensures i + 2 < e <= |s| && IsLower(s[e - 1])
    ensures SplitAfterAlnum(true, Sub(FirstCap, s[e..])) == InsertUnderscores(s[e..], Marks(s)[e..]) ==>
              SplitAfterAlnum(f, Sub(FirstCap, s[i..])) == InsertUnderscores(s[i..], Marks(s)[i..])
  {
    var t := s[i..];
    assert t[0] == s[i] && t[1] == s[i + 1] && t[2] == s[i + 2];
    var n := FirstCapSubAtMatch(t);
    e := i + n;
    assert t[1..n] == s[i + 1..e] && t[n..] == s[e..];
    assert forall j :: i + 2 <= j < e ==> IsLower(s[j]) by {
      forall j | i + 2 <= j < e ensures IsLower(s[j]) { assert t[j - i] == s[j]; }
    }
    var rest := Sub(FirstCap, s[e..]);
    if SplitAfterAlnum(true, rest) == InsertUnderscores(s[e..], Marks(s)[e..]) {
      TwoPassesAtMatchWith(s, i, e, f, Sub(FirstCap, t), rest);
    }
  }

  /** The string side of TwoPassesAtMatch: x is what the first pass emits from
      i on and rest what it emits from e on. */
  lemma TwoPassesAtMatchWith(s: string, i: nat, e: nat, f: bool, x: string, rest: string)
    requires i + 2 < e <= |s|
    requires s[i] != '\n' && IsUpper(s[i + 1]) && forall j :: i + 2 <= j < e ==> IsLower(s[j])
    requires Boundary(s, i) == (f && IsUpper(s[i]))
    requires x == [s[i]] + "_" + s[i + 1..e] + rest
    requires SplitAfterAlnum(true, rest) == InsertUnderscores(s[e..], Marks(s)[e..])
    ensures SplitAfterAlnum(f, x) == InsertUnderscores(s[i..], Marks(s)[i..])
  {
    var m := s[i + 1..e];
    assert forall j :: 1 <= j < |m| ==> IsLower(m[j]) by {
      forall j | 1 <= j < |m| ensures IsLower(m[j]) { assert m[j] == s[i + 1 + j]; }
    }
    SplitFirstCapMatch(f, s[i], m, rest);
    InsertUnderscoresFirstCapMatch(s, i + 1, e);
    InsertUnderscoresAt(s, Marks(s), i);
  }

  /** One step of TwoPassesFrom where FirstCap does not match at i: x is what
      the first pass emits from i on and rest what it emits from i + 1 on. */
  lemma TwoPassesAtNoMatch(s: string, i: nat, f: bool, x: string, rest: string)
    requires i < |s|
    requires Boundary(s, i) == (f && IsUpper(s[i]))
    requires x == [s[i]] + rest
    requires SplitAfterAlnum(IsLowerOrDigit(s[i]), rest) == InsertUnderscores(s[i + 1..], Marks(s)[i + 1..])
    ensures SplitAfterAlnum(f, x) == InsertUnderscores(s[i..], Marks(s)[i..])
  {
    var k := Marks(s);
    assert x[0] == s[i] && x[1..] == rest;
    assert s[i..][0] == s[i] && s[i..][1..] == s[i + 1..] && k[i..][1..] == k[i + 1..];
  }

  /** Both passes on the suffix s[i..], where the first pass starts scanning at
      i. The precondition holds at every place the first pass resumes: a
      FirstCap match that would start at i - 1 was either not possible or was
      blocked because s[i - 1] ended an earlier match, and then it is a small
      letter, so the second pass splits there. */
  lemma {:induction false} TwoPassesFrom(s: string, i: nat)
    requires i <= |s|
    requires 0 < i && !IsLowerOrDigit(s[i - 1]) && s[i - 1] != '\n' ==>
               !(i + 1 < |s| && IsUpper(s[i]) && IsLower(s[i + 1]))
    ensures SplitAfterAlnum(0 < i && IsLowerOrDigit(s[i - 1]), Sub(FirstCap, s[i..]))
            == InsertUnderscores(s[i..], Marks(s)[i..])
    decreases |s| - i
  {
    if i < |s| {
      var f := 0 < i && IsLowerOrDigit(s[i - 1]);
      if i + 2 < |s| && s[i] != '\n' && IsUpper(s[i + 1]) && IsLower(s[i + 2]) {
        var e := TwoPassesAtMatch(s, i, f);
        TwoPassesFrom(s, e);
      } else {
        var t := s[i..];
        assert t[0] == s[i] && t[1..] == s[i + 1..];
        assert MatchAt(FirstCap, t) == None by { FirstCapMatchAt(t); }
        SubAtNoMatch(FirstCap, t);
        TwoPassesFrom(s, i + 1);
        TwoPassesAtNoMatch(s, i, f, Sub(FirstCap, t), Sub(FirstCap, s[i + 1..]));
      }
    }
  }

  /** Lowercasing leaves the inserted underscores alone, so it can be done
      before the underscores are put in as well as after. */
  lemma {:induction false} LowerInsertUnderscores(s: string, k: seq<bool>)
    requires |k| == |s|
    ensures Lower(InsertUnderscores(s, k)) == InsertUnderscores(Lower(s), k)
    decreases |s|
  {
    if s != [] {
      LowerInsertUnderscores(s[1..], k[1..]);
      var head := (if k[0] then "_" else "") + [s[0]];
      LowerAppend(head, InsertUnderscores(s[1..], k[1..]));
      assert Lower(head) == (if k[0] then "_" else "") + [LowerChar(s[0])];
      assert Lower(s)[0] == LowerChar(s[0]) && Lower(s)[1..] == Lower(s[1..]);
    }
  }

  /** The two substitutions and the lowercasing together are the word-boundary
      rule: the result is the lowercased name with one underscore put in front
      of each boundary and nothing else changed. */
  lemma CamelCaseToSnakeCaseFollowsRule(name: string)
    ensures CamelCaseToSnakeCase(name) == InsertUnderscores(Lower(name), Marks(name))
  {
    TwoPassesFrom(name, 0);
    assert name[0..] == name && Marks(name)[0..] == Marks(name);
    AllCapSubIsLocal(Sub(FirstCap, name));
    LowerInsertUnderscores(name, Marks(name));
  }

  /** The output is longer than the name by exactly the number of boundaries. */
  lemma CamelCaseToSnakeCaseLength(name: string)
    ensures |CamelCaseToSnakeCase(name)| == |name| + CountFlags(Marks(name))
  {
    CamelCaseToSnakeCaseFollowsRule(name);
    InsertUnderscoresLength(Lower(name), Marks(name));
  }

  /** Every inserted underscore has a character before it and a capital after
      it, which the lowercasing turns into a small letter. */
  lemma BoundariesAreBeforeCapitals(name: string)
    ensures forall i :: 0 <= i < |name| && Marks(name)[i] ==>
              0 < i && IsUpper(name[i]) && IsLower(Lower(name)[i])
  {
  }

  /** Running the conversion on its own output changes nothing. */
  lemma CamelCaseToSnakeCaseIdempotent(name: string)
    ensures CamelCaseToSnakeCase(CamelCaseToSnakeCase(name)) == CamelCaseToSnakeCase(name)
  {
  }

  /** InsertUnderscores works piece by piece: flagging the characters of a + b is
      flagging those of a and those of b. */
  lemma {:induction false} InsertUnderscoresAppend(a: string, ka: seq<bool>, b: string, kb: seq<bool>)
    requires |ka| == |a| && |kb| == |b|
    ensures InsertUnderscores(a + b, ka + kb) == InsertUnderscores(a, ka) + InsertUnderscores(b, kb)
    decreases |a|
  {
    if a == [] {
      assert a + b == b && ka + kb == kb;
    } else {
      InsertUnderscoresAppend(a[1..], ka[1..], b, kb);
      assert (a + b)[0] == a[0] && (ka + kb)[0] == ka[0];
      assert (a + b)[1..] == a[1..] + b && (ka + kb)[1..] == ka[1..] + kb;
      assert InsertUnderscores(a + b, ka + kb)
          == (if ka[0] then "_" else "") + [a[0]] + InsertUnderscores(a[1..] + b, ka[1..] + kb);
    }
  }
}
