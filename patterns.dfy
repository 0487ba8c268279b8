/**
 * The two compiled patterns of rekt/utils.py and Python's `re.sub` with the
 * replacement `\1_\2`, written as a left-to-right scanner over the string.
 *
 *   FirstCap   `(.)([A-Z][a-z]+)`
 *   AllCap     `([a-z0-9])([A-Z])`
 *
 * Both patterns begin with a one-character group, so a match found at the
 * start of a string is fixed by its length; the greedy `[a-z]+` takes the
 * whole run of small letters.
 */
module Patterns {
  import opened Ascii

  datatype Option<T> = None | Some(value: T)

  datatype Pattern =
    | FirstCap   // (.)([A-Z][a-z]+)
    | AllCap     // ([a-z0-9])([A-Z])

  /** The two capture groups of a match; the matched text is their concatenation. */
  datatype Match = Match(group1: string, group2: string) {
    function Text(): string {
      group1 + group2
    }
  }

  /** The groups m form a match of p: the language of each pattern, group by group.
      `.` is any character but a newline. */
  predicate Matches(p: Pattern, m: Match)
    ensures Matches(p, m) ==> |m.group1| == 1 && |m.group2| >= 1 && IsUpper(m.group2[0])
  {
    match p
    case FirstCap =>
      && |m.group1| == 1 && m.group1[0] != '\n'
      && |m.group2| >= 2 && IsUpper(m.group2[0])
      && forall j :: 1 <= j < |m.group2| ==> IsLower(m.group2[j])
    case AllCap =>
      && |m.group1| == 1 && IsLowerOrDigit(m.group1[0])
      && |m.group2| == 1 && IsUpper(m.group2[0])
  }

  /** The length of the run of small letters at the front of s. */
  function LowerRun(s: string): (n: nat)
    ensures n <= |s|
    ensures forall j :: 0 <= j < n ==> IsLower(s[j])
    ensures n == |s| || !IsLower(s[n])
  {
    if s != [] && IsLower(s[0]) then 1 + LowerRun(s[1..]) else 0
  }

  /** A FirstCap match can be no longer than the run of small letters allows. */
  lemma FirstCapNoLonger(s: string, n: nat)
    requires |s| >= 3 && IsLower(s[2])
    requires 3 + LowerRun(s[3..]) < n <= |s|
    ensures !Matches(FirstCap, Match(s[..1], s[1..n]))
  {
    var e := 3 + LowerRun(s[3..]);
    assert s[1..n][e - 1] == s[e];
  }

  /** The match of p that the regex engine finds at the very start of s, if any:
      it is a match, it is a prefix of s, and no longer prefix of s matches
      (the greedy `+`); when there is none, no prefix of s matches at all. */
  function MatchAt(p: Pattern, s: string): (r: Option<Match>)
    ensures r.Some? ==> Matches(p, r.value) && r.value.Text() <= s
    ensures r.Some? ==> forall i, n :: 0 <= i <= n <= |s| && |r.value.Text()| < n ==>
                          !Matches(p, Match(s[..i], s[i..n]))
    ensures r.None? ==> forall i, n :: 0 <= i <= n <= |s| ==> !Matches(p, Match(s[..i], s[i..n]))
  {
    match p
    case FirstCap =>
      if |s| >= 3 && s[0] != '\n' && IsUpper(s[1]) && IsLower(s[2]) then
        var e := 3 + LowerRun(s[3..]);
        assert forall n :: e < n <= |s| ==> !Matches(FirstCap, Match(s[..1], s[1..n])) by {
          forall n | e < n <= |s| ensures !Matches(FirstCap, Match(s[..1], s[1..n])) {
            FirstCapNoLonger(s, n);
          }
        }
        assert s[..1] + s[1..e] == s[..e];
        Some(Match(s[..1], s[1..e]))
      else
        assert forall n :: 1 <= n <= |s| ==> !Matches(FirstCap, Match(s[..1], s[1..n])) by {
          forall n | 1 <= n <= |s| ensures !Matches(FirstCap, Match(s[..1], s[1..n])) {
            if n >= 3 {
              assert s[1..n][0] == s[1] && s[1..n][1] == s[2];
            }
          }
        }
        None
    case AllCap =>
      if |s| >= 2 && IsLowerOrDigit(s[0]) && IsUpper(s[1]) then
        assert s[..1] + s[1..2] == s[..2];
        Some(Match(s[..1], s[1..2]))
      else
        None
  }

  /** `re.sub(p, r'\1_\2', s)`: scan from the left; where a match starts, emit
      its first group, `_` and its second group and resume just past the match;
      elsewhere copy one character and move on. Every match adds one character,
      and without a capital there is nothing to match. */
  function Sub(p: Pattern, s: string): (r: string)
    ensures |r| >= |s|
    ensures NoUpper(s) ==> r == s
    decreases |s|
  {
    if s == [] then ""
    else
      match MatchAt(p, s)
      case None => [s[0]] + Sub(p, s[1..])
      case Some(m) =>
        assert m.Text()[1] == s[1];
        m.group1 + "_" + m.group2 + Sub(p, s[|m.Text()|..])
  }

  /** The match MatchAt finds for FirstCap, spelled out: it starts with a
      non-newline followed by a capital and a small letter, and runs to the
      end of the run of small letters. */
  lemma FirstCapMatchAt(s: string)
    ensures MatchAt(FirstCap, s).Some? <==>
              |s| >= 3 && s[0] != '\n' && IsUpper(s[1]) && IsLower(s[2])
    ensures MatchAt(FirstCap, s).Some? ==>
              var e := |MatchAt(FirstCap, s).value.Text()|;
              && 3 <= e <= |s|
              && MatchAt(FirstCap, s).value == Match(s[..1], s[1..e])
              && (forall j :: 2 <= j < e ==> IsLower(s[j]))
              && (e == |s| || !IsLower(s[e]))
  {
    if |s| >= 3 && s[0] != '\n' && IsUpper(s[1]) && IsLower(s[2]) {
      var e := 3 + LowerRun(s[3..]);
      assert MatchAt(FirstCap, s) == Some(Match(s[..1], s[1..e]));
      assert forall j :: 2 <= j < e ==> IsLower(s[j]) by {
        forall j | 2 <= j < e ensures IsLower(s[j]) {
          if j >= 3 { assert s[3..][j - 3] == s[j]; }
        }
      }
      assert e < |s| ==> s[3..][e - 3] == s[e];
    }
  }

  /** Where FirstCap matches, Sub emits the first character, `_` and the
      capital with its run of small letters, and resumes after the run. */
  lemma FirstCapSubAtMatch(s: string) returns (e: nat)
    requires |s| >= 3 && s[0] != '\n' && IsUpper(s[1]) && IsLower(s[2])
    ensures e == |MatchAt(FirstCap, s).value.Text()|
    ensures 3 <= e <= |s|
    ensures forall j :: 2 <= j < e ==> IsLower(s[j])
    ensures e == |s| || !IsLower(s[e])
    ensures Sub(FirstCap, s) == [s[0]] + "_" + s[1..e] + Sub(FirstCap, s[e..])
  {
    e := |MatchAt(FirstCap, s).value.Text()|;
    FirstCapMatchAt(s);
    var m := MatchAt(FirstCap, s).value;
    SubAtMatch(FirstCap, s);
    assert m.group1 == [s[0]];
  }

  /** Pass 2 in local form: an underscore goes in front of every capital that
      follows a small letter or a digit; afterAlnum says whether the character
      just before t is one. */
  function SplitAfterAlnum(afterAlnum: bool, t: string): (r: string)
    ensures |r| >= |t|
    decreases |t|
  {
    if t == [] then ""
    else
      (if afterAlnum && IsUpper(t[0]) then "_" else "") + [t[0]]
      + SplitAfterAlnum(IsLowerOrDigit(t[0]), t[1..])
  }

  /** SplitAfterAlnum takes one character at a time. */
  lemma SplitAt(f: bool, t: string)
    requires t != []
    ensures SplitAfterAlnum(f, t)
            == (if f && IsUpper(t[0]) then "_" else "") + [t[0]] + SplitAfterAlnum(IsLowerOrDigit(t[0]), t[1..])
  {
  }

  /** AllCap matches never overlap a possible next match, because a match ends
      in a capital and the next one would have to start with a small letter or
      digit; so its `re.sub` is the local rule SplitAfterAlnum. */
  lemma {:induction false} AllCapSubIsLocal(t: string)
    ensures Sub(AllCap, t) == SplitAfterAlnum(false, t)
    decreases |t|
  {
    if t == [] {
    } else if |t| >= 2 && IsLowerOrDigit(t[0]) && IsUpper(t[1]) {
      AllCapSubIsLocal(t[2..]);
      AllCapSubAtMatch(t);
      SplitAtAllCapMatch(t);
    } else {
      AllCapSubIsLocal(t[1..]);
      assert MatchAt(AllCap, t) == None;
      SubAtNoMatch(AllCap, t);
      SplitAtAllCapNoMatch(t);
    }
  }

  /** The local rule where AllCap matches: the underscore goes between the two characters. */
  lemma SplitAtAllCapMatch(t: string)
    requires |t| >= 2 && IsLowerOrDigit(t[0]) && IsUpper(t[1])
    ensures SplitAfterAlnum(false, t) == [t[0]] + "_" + [t[1]] + SplitAfterAlnum(false, t[2..])
  {
    SplitAt(false, t);
    SplitAt(true, t[1..]);
    assert t[1..][0] == t[1] && t[1..][1..] == t[2..];
  }

  /** The local rule where AllCap does not match: the first character is copied. */
  lemma SplitAtAllCapNoMatch(t: string)
    requires t != [] && !(|t| >= 2 && IsLowerOrDigit(t[0]) && IsUpper(t[1]))
    ensures SplitAfterAlnum(false, t) == [t[0]] + SplitAfterAlnum(false, t[1..])
  {
    SplitAt(false, t);
    assert SplitAfterAlnum(false, t) == [t[0]] + SplitAfterAlnum(IsLowerOrDigit(t[0]), t[1..]);
    if IsLowerOrDigit(t[0]) && |t| > 1 {
      assert t[1..][0] == t[1] && !IsUpper(t[1]);
      SplitAt(true, t[1..]);
      SplitAt(false, t[1..]);
    }
  }

  /** Where p does not match, Sub copies one character. */
  lemma SubAtNoMatch(p: Pattern, s: string)
    requires s != [] && MatchAt(p, s).None?
    ensures Sub(p, s) == [s[0]] + Sub(p, s[1..])
  {
  }

  /** Where p matches, Sub emits the groups with `_` between them and resumes after the match. */
  lemma SubAtMatch(p: Pattern, s: string)
    requires s != [] && MatchAt(p, s).Some?
    ensures var m := MatchAt(p, s).value;
            Sub(p, s) == m.group1 + "_" + m.group2 + Sub(p, s[|m.Text()|..])
  {
  }

  /** Where AllCap matches, Sub emits the two characters with `_` between them. */
  lemma AllCapSubAtMatch(t: string)
    requires |t| >= 2 && IsLowerOrDigit(t[0]) && IsUpper(t[1])
    ensures Sub(AllCap, t) == [t[0]] + "_" + [t[1]] + Sub(AllCap, t[2..])
  {
    assert t[..1] == [t[0]] && t[1..2] == [t[1]];
    assert MatchAt(AllCap, t) == Some(Match([t[0]], [t[1]]));
  }
}
