/**
 * Worked examples of `camel_case_to_snake_case`. Each is obtained from the
 * word-boundary rule (CamelCaseToSnakeCaseFollowsRule): the lowercased name
 * and its boundary flags are computed, and the underscores are put in word by
 * word (InsertUnderscoresAppend), which keeps every step small for the verifier.
 */
module UtilsExamples {
  import opened Ascii
  import opened Patterns
  import opened Utils

  /** Putting underscores into a name cut into two pieces. */
  lemma InsertUnderscoresTwoPieces(a: string, ka: seq<bool>, b: string, kb: seq<bool>, s: string, k: seq<bool>)
    requires |ka| == |a| && |kb| == |b|
    requires s == a + b && k == ka + kb
    ensures |k| == |s| && InsertUnderscores(s, k) == InsertUnderscores(a, ka) + InsertUnderscores(b, kb)
  {
    InsertUnderscoresAppend(a, ka, b, kb);
  }

  /** Putting underscores into a name cut into three pieces. */
  lemma InsertUnderscoresPieces(a: string, ka: seq<bool>, b: string, kb: seq<bool>, c: string, kc: seq<bool>,
                     s: string, k: seq<bool>)
    requires |ka| == |a| && |kb| == |b| && |kc| == |c|
    requires s == a + (b + c) && k == ka + (kb + kc)
    ensures |k| == |s| && InsertUnderscores(s, k) == InsertUnderscores(a, ka) + (InsertUnderscores(b, kb) + InsertUnderscores(c, kc))
  {
    InsertUnderscoresAppend(b, kb, c, kc);
    InsertUnderscoresTwoPieces(a, ka, b + c, kb + kc, s, k);
  }

  /** Putting underscores into a name cut into four pieces. */
  lemma InsertUnderscoresFourPieces(a: string, ka: seq<bool>, b: string, kb: seq<bool>, c: string, kc: seq<bool>,
                         d: string, kd: seq<bool>, s: string, k: seq<bool>)
    requires |ka| == |a| && |kb| == |b| && |kc| == |c| && |kd| == |d|
    requires s == a + (b + (c + d)) && k == ka + (kb + (kc + kd))
    ensures |k| == |s|
    ensures InsertUnderscores(s, k) == InsertUnderscores(a, ka) + (InsertUnderscores(b, kb) + (InsertUnderscores(c, kc) + InsertUnderscores(d, kd)))
  {
    InsertUnderscoresPieces(b, kb, c, kc, d, kd, b + (c + d), kb + (kc + kd));
    InsertUnderscoresTwoPieces(a, ka, b + (c + d), kb + (kc + kd), s, k);
  }

  /** A piece with no flag set is copied. */
  lemma InsertUnderscoresPlain(w: string, k: seq<bool>)
    requires |k| == |w| && forall j :: 0 <= j < |k| ==> !k[j]
    ensures InsertUnderscores(w, k) == w
  {
    InsertUnderscoresUnmarked(w, k, 0, |w|);
    assert w[0..] == w && k[0..] == k && w[..|w|] == w;
  }

  /** A piece flagged at its first character only gets one underscore in front. */
  lemma InsertUnderscoresWord(w: string, k: seq<bool>)
    requires |k| == |w| && |w| > 0 && k[0] && forall j :: 1 <= j < |k| ==> !k[j]
    ensures InsertUnderscores(w, k) == "_" + w
  {
    InsertUnderscoresPlain(w[1..], k[1..]);
    assert w == [w[0]] + w[1..];
  }

  lemma NewlineLower()
    ensures Lower("a\nBc") == "a\nbc"
  {}

  lemma NewlineMarks()
    ensures Marks("a\nBc") == [false, false, false, false]
  {}

  lemma NewlinePiece()
    ensures InsertUnderscores("a\nbc", [false, false, false, false]) == "a\nbc"
  {
    InsertUnderscoresPlain("a\nbc", [false, false, false, false]);
  }

  /** `.` does not match a newline, so a capital right after one is not a boundary. */
  lemma NewlineExample()
    ensures CamelCaseToSnakeCase("a\nBc") == "a\nbc"
  {
    var name := "a\nBc";
    CamelCaseToSnakeCaseFollowsRule(name);
    NewlineLower(); NewlineMarks(); NewlinePiece();
  }

  /** Names in snake case come back as they are. */
  lemma SnakeCaseExamples()
    ensures CamelCaseToSnakeCase("") == ""
    ensures CamelCaseToSnakeCase("already_snake") == "already_snake"
  {
    assert NoUpper("already_snake");
  }

  // "HelloWorld": its lowercase form, its boundaries, both cut into words,
  // each word with its underscore, and the words joined.

  lemma HelloWorldLower()
    ensures Lower("HelloWorld") == "helloworld"
  {}

  lemma HelloWorldMarks()
    ensures Marks("HelloWorld") == [false, false, false, false, false, true, false, false, false, false]
  {}

  lemma HelloWorldCut()
    ensures "helloworld" == "hello" + "world"
    ensures [false, false, false, false, false, true, false, false, false, false] == [false, false, false, false, false] + [true, false, false, false, false]
  {}

  lemma HelloWorldPiece0()
    ensures InsertUnderscores("hello", [false, false, false, false, false]) == "hello"
  {
    InsertUnderscoresPlain("hello", [false, false, false, false, false]);
  }

  lemma HelloWorldPiece1()
    ensures InsertUnderscores("world", [true, false, false, false, false]) == "_world"
  {
    InsertUnderscoresWord("world", [true, false, false, false, false]);
  }

  lemma HelloWorldJoin()
    ensures "hello" + "_world" == "hello_world"
  {}

  /** The docstring's example. */
  lemma HelloWorldExample()
    ensures CamelCaseToSnakeCase("HelloWorld") == "hello_world"
  {
    var name := "HelloWorld";
    CamelCaseToSnakeCaseFollowsRule(name);
    HelloWorldLower(); HelloWorldMarks(); HelloWorldCut(); HelloWorldPiece0(); HelloWorldPiece1(); HelloWorldJoin();
    InsertUnderscoresTwoPieces("hello", [false, false, false, false, false], "world", [true, false, false, false, false],
      Lower(name), Marks(name));
  }

  // "parseHTTPResponse": its lowercase form, its boundaries, both cut into words,
  // each word with its underscore, and the words joined.

  lemma ParseHttpLower()
    ensures Lower("parseHTTPResponse") == "parsehttpresponse"
  {}

  lemma ParseHttpMarks()
    ensures Marks("parseHTTPResponse") == [false, false, false, false, false, true, false, false, false, true, false, false, false, false, false, false, false]
  {}

  lemma ParseHttpCut()
    ensures "parsehttpresponse" == "parse" + ("http" + ("resp" + "onse"))
    ensures [false, false, false, false, false, true, false, false, false, true, false, false, false, false, false, false, false] == [false, false, false, false, false] + ([true, false, false, false] + ([true, false, false, false] + [false, false, false, false]))
  {}

  lemma ParseHttpPiece0()
    ensures InsertUnderscores("parse", [false, false, false, false, false]) == "parse"
  {
    InsertUnderscoresPlain("parse", [false, false, false, false, false]);
  }

  lemma ParseHttpPiece1()
    ensures InsertUnderscores("http", [true, false, false, false]) == "_http"
  {
    InsertUnderscoresWord("http", [true, false, false, false]);
  }

  lemma ParseHttpPiece2()
    ensures InsertUnderscores("resp", [true, false, false, false]) == "_resp"
  {
    InsertUnderscoresWord("resp", [true, false, false, false]);
  }

  lemma ParseHttpPiece3()
    ensures InsertUnderscores("onse", [false, false, false, false]) == "onse"
  {
    InsertUnderscoresPlain("onse", [false, false, false, false]);
  }

  lemma ParseHttpJoin()
    ensures "parse" + ("_http" + ("_resp" + "onse")) == "parse_http_response"
  {}

  /** A run of capitals: the first pass splits "Response" off, the second splits "parse" from "HTTP". */
  lemma ParseHttpExample()
    ensures CamelCaseToSnakeCase("parseHTTPResponse") == "parse_http_response"
  {
    var name := "parseHTTPResponse";
    CamelCaseToSnakeCaseFollowsRule(name);
    ParseHttpLower(); ParseHttpMarks(); ParseHttpCut(); ParseHttpPiece0(); ParseHttpPiece1(); ParseHttpPiece2(); ParseHttpPiece3(); ParseHttpJoin();
    InsertUnderscoresFourPieces("parse", [false, false, false, false, false], "http", [true, false, false, false], "resp", [true, false, false, false], "onse", [false, false, false, false],
      Lower(name), Marks(name));
  }

  // "ABCDef": its lowercase form, its boundaries, both cut into words,
  // each word with its underscore, and the words joined.

  lemma AbcLower()
    ensures Lower("ABCDef") == "abcdef"
  {}

  lemma AbcMarks()
    ensures Marks("ABCDef") == [false, false, false, true, false, false]
  {}

  lemma AbcCut()
    ensures "abcdef" == "abc" + "def"
    ensures [false, false, false, true, false, false] == [false, false, false] + [true, false, false]
  {}

  lemma AbcPiece0()
    ensures InsertUnderscores("abc", [false, false, false]) == "abc"
  {
    InsertUnderscoresPlain("abc", [false, false, false]);
  }

  lemma AbcPiece1()
    ensures InsertUnderscores("def", [true, false, false]) == "_def"
  {
    InsertUnderscoresWord("def", [true, false, false]);
  }

  lemma AbcJoin()
    ensures "abc" + "_def" == "abc_def"
  {}

  /** Leading capitals: only the start of "Def" is a boundary. */
  lemma AbcExample()
    ensures CamelCaseToSnakeCase("ABCDef") == "abc_def"
  {
    var name := "ABCDef";
    CamelCaseToSnakeCaseFollowsRule(name);
    AbcLower(); AbcMarks(); AbcCut(); AbcPiece0(); AbcPiece1(); AbcJoin();
    InsertUnderscoresTwoPieces("abc", [false, false, false], "def", [true, false, false],
      Lower(name), Marks(name));
  }

  // "Ipv4Addr": its lowercase form, its boundaries, both cut into words,
  // each word with its underscore, and the words joined.

  lemma Ipv4Lower()
    ensures Lower("Ipv4Addr") == "ipv4addr"
  {}

  lemma Ipv4Marks()
    ensures Marks("Ipv4Addr") == [false, false, false, false, true, false, false, false]
  {}

  lemma Ipv4Cut()
    ensures "ipv4addr" == "ipv4" + "addr"
    ensures [false, false, false, false, true, false, false, false] == [false, false, false, false] + [true, false, false, false]
  {}

  lemma Ipv4Piece0()
    ensures InsertUnderscores("ipv4", [false, false, false, false]) == "ipv4"
  {
    InsertUnderscoresPlain("ipv4", [false, false, false, false]);
  }

  lemma Ipv4Piece1()
    ensures InsertUnderscores("addr", [true, false, false, false]) == "_addr"
  {
    InsertUnderscoresWord("addr", [true, false, false, false]);
  }

  lemma Ipv4Join()
    ensures "ipv4" + "_addr" == "ipv4_addr"
  {}

  /** A digit ends a word too: the capital after it is a boundary. */
  lemma Ipv4Example()
    ensures CamelCaseToSnakeCase("Ipv4Addr") == "ipv4_addr"
  {
    var name := "Ipv4Addr";
    CamelCaseToSnakeCaseFollowsRule(name);
    Ipv4Lower(); Ipv4Marks(); Ipv4Cut(); Ipv4Piece0(); Ipv4Piece1(); Ipv4Join();
    InsertUnderscoresTwoPieces("ipv4", [false, false, false, false], "addr", [true, false, false, false],
      Lower(name), Marks(name));
  }

  // "xAbCd": its lowercase form, its boundaries, both cut into words,
  // each word with its underscore, and the words joined.

  lemma OverlapLower()
    ensures Lower("xAbCd") == "xabcd"
  {}

  lemma OverlapMarks()
    ensures Marks("xAbCd") == [false, true, false, true, false]
  {}

  lemma OverlapCut()
    ensures "xabcd" == "x" + ("ab" + "cd")
    ensures [false, true, false, true, false] == [false] + ([true, false] + [true, false])
  {}

  lemma OverlapPiece0()
    ensures InsertUnderscores("x", [false]) == "x"
  {
    InsertUnderscoresPlain("x", [false]);
  }

  lemma OverlapPiece1()
    ensures InsertUnderscores("ab", [true, false]) == "_ab"
  {
    InsertUnderscoresWord("ab", [true, false]);
  }

  lemma OverlapPiece2()
    ensures InsertUnderscores("cd", [true, false]) == "_cd"
  {
    InsertUnderscoresWord("cd", [true, false]);
  }

  lemma OverlapJoin()
    ensures "x" + ("_ab" + "_cd") == "x_ab_cd"
  {}

  /** "xAbCd" against the rule. */
  lemma OverlapResult()
    ensures CamelCaseToSnakeCase("xAbCd") == "x_ab_cd"
  {
    var name := "xAbCd";
    CamelCaseToSnakeCaseFollowsRule(name);
    OverlapLower(); OverlapMarks(); OverlapCut(); OverlapPiece0(); OverlapPiece1(); OverlapPiece2(); OverlapJoin();
    InsertUnderscoresPieces("x", [false], "ab", [true, false], "cd", [true, false],
      Lower(name), Marks(name));
  }

  /** The first pass on "xAbCd": one match "xAb", then "C" and "d" are copied. */
  lemma OverlapFirstPassHead()
    ensures Sub(FirstCap, "xAbCd") == "x_Ab" + Sub(FirstCap, "Cd")
  {
    var e := FirstCapSubAtMatch("xAbCd");
    assert e == 3;
  }

  lemma OverlapFirstPassTail()
    ensures Sub(FirstCap, "Cd") == "Cd"
  {
    FirstCapMatchAt("Cd");
    SubAtNoMatch(FirstCap, "Cd");
    assert "Cd"[1..] == "d";
  }

  /** The second pass on "x_AbCd" in its local form, "x_" first, then "AbCd". */
  lemma OverlapSecondPassLocal()
    ensures SplitAfterAlnum(false, "x_AbCd") == "x_Ab_Cd"
  {
    OverlapSecondPassHead();
    OverlapSecondPassTail();
  }

  lemma OverlapSecondPassHead()
    ensures SplitAfterAlnum(false, "x_AbCd") == "x_" + SplitAfterAlnum(false, "AbCd")
  {
  }

  lemma OverlapSecondPassTail()
    ensures SplitAfterAlnum(false, "AbCd") == "Ab_Cd"
  {
  }

  /** The FirstCap match "xAb" swallows the "b" that a match "bCd" would
      need, so the first pass leaves "Cd" joined to "Ab"; the second pass puts
      that underscore in, and lowercasing gives the rule's result. */
  lemma OverlapExample()
    ensures Sub(FirstCap, "xAbCd") == "x_AbCd"
    ensures Sub(AllCap, "x_AbCd") == "x_Ab_Cd"
    ensures CamelCaseToSnakeCase("xAbCd") == "x_ab_cd"
  {
    OverlapFirstPassHead();
    OverlapFirstPassTail();
    AllCapSubIsLocal("x_AbCd");
    OverlapSecondPassLocal();
    OverlapResult();
  }

}
