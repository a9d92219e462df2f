/** FileUtilities.java: the text transformations applied to every file the system reads or
    writes, and the label and armor-block lookups. Reading and writing files is not modelled:
    file contents are passed in and returned. */
module FileUtilities {
  import opened Wrappers
  import opened Text
  import opened Utilities
  import Bytes

  // ---------------------------------------------------------------------------------------------
  // Escaping of the characters the file formats reserve

  const TAB_TOKEN: string := "@TAB"
  const NEWLINE_TOKEN: string := "@NEWLINE"
  const RETURN_TOKEN: string := "@RETURN"
  const ASTERISK_TOKEN: string := "@ASTERISK"
  const OPENBRACE_TOKEN: string := "@OPENBRACE"
  const CLOSEBRACE_TOKEN: string := "@CLOSEBRACE"

  /** replaceSpecialFileCharacters: tab, newline, carriage return, '*', '{' and '}' become tokens,
      one replacement after the other. */
  function ReplaceSpecialFileCharacters(original: string): string {
    var s1 := Replace(original, "\t", TAB_TOKEN);
    var s2 := Replace(s1, "\n", NEWLINE_TOKEN);
    var s3 := Replace(s2, "\r", RETURN_TOKEN);
    var s4 := Replace(s3, "*", ASTERISK_TOKEN);
    var s5 := Replace(s4, "{", OPENBRACE_TOKEN);
    Replace(s5, "}", CLOSEBRACE_TOKEN)
  }

  /** restoreSpecialFileCharacters: each token back to its character, in the same order. */
  function RestoreSpecialFileCharacters(fromFile: string): string {
    var s1 := Replace(fromFile, TAB_TOKEN, "\t");
    var s2 := Replace(s1, NEWLINE_TOKEN, "\n");
    var s3 := Replace(s2, RETURN_TOKEN, "\r");
    var s4 := Replace(s3, ASTERISK_TOKEN, "*");
    var s5 := Replace(s4, OPENBRACE_TOKEN, "{");
    Replace(s5, CLOSEBRACE_TOKEN, "}")
  }

  predicate Special(c: char) {
    c == '\t' || c == '\n' || c == '\r' || c == '*' || c == '{' || c == '}'
  }

  /** The reserved characters and their tokens, in the order the source replaces them. */
  function SpecialAt(k: nat): char
    requires k < 6
  {
    ['\t', '\n', '\r', '*', '{', '}'][k]
  }

  function TokenAt(k: nat): string
    requires k < 6
  {
    [TAB_TOKEN, NEWLINE_TOKEN, RETURN_TOKEN, ASTERISK_TOKEN, OPENBRACE_TOKEN, CLOSEBRACE_TOKEN][k]
  }

  /** The position of c among the reserved characters, or -1. */
  function SpecialIndex(c: char): (j: int)
    ensures -1 <= j < 6
    ensures j >= 0 ==> SpecialAt(j) == c
    ensures j == -1 <==> !Special(c)
    ensures forall k :: 0 <= k < 6 && SpecialAt(k) == c ==> k == j
  {
    if c == '\t' then 0
    else if c == '\n' then 1
    else if c == '\r' then 2
    else if c == '*' then 3
    else if c == '{' then 4
    else if c == '}' then 5
    else -1
  }

  /** The reference meaning of escaping: every character on its own. */
  function EscapeChar(c: char): string {
    var j := SpecialIndex(c);
    if j < 0 then [c] else TokenAt(j)
  }

  function EscapeUnits(s: string): seq<string> {
    seq(|s|, i requires 0 <= i < |s| => EscapeChar(s[i]))
  }

  function Singletons(s: string): seq<string> {
    seq(|s|, i requires 0 <= i < |s| => [s[i]])
  }

  /** Every unit equal to from becomes to. */
  function MapUnits(units: seq<string>, from: string, to: string): seq<string> {
    seq(|units|, i requires 0 <= i < |units| => if units[i] == from then to else units[i])
  }

  /** A character after the first k escaping replacements. */
  function EscapedUpTo(c: char, k: nat): string {
    var j := SpecialIndex(c);
    if 0 <= j < k then TokenAt(j) else [c]
  }

  /** A character escaped, after the first k restoring replacements. */
  function RestoredUpTo(c: char, k: nat): string {
    var j := SpecialIndex(c);
    if 0 <= j < k then [c] else EscapeChar(c)
  }

  function EscapeStage(s: string, k: nat): seq<string> {
    seq(|s|, i requires 0 <= i < |s| => EscapedUpTo(s[i], k))
  }

  function RestoreStage(s: string, k: nat): seq<string> {
    seq(|s|, i requires 0 <= i < |s| => RestoredUpTo(s[i], k))
  }

  /** Every token is '@' followed by capital letters, and the second letters tell them apart. */
  lemma TokenShape(j: nat)
    requires j < 6
    ensures |TokenAt(j)| >= 2 && TokenAt(j)[0] == '@'
    ensures forall i :: 1 <= i < |TokenAt(j)| ==> 'A' <= TokenAt(j)[i] <= 'Z'
    ensures TokenAt(j)[1] == "TNRAOC"[j]
  {
  }

  lemma TokenAvoids(j: nat, c: char)
    requires j < 6 && (Special(c) || c == '@')
    ensures c !in TokenAt(j)[1..]
    ensures Special(c) ==> c !in TokenAt(j)
  {
    TokenShape(j);
  }

  lemma {:induction false} FlattenSingletons(s: string)
    ensures Flatten(Singletons(s)) == s
  {
    if s != [] {
      assert Singletons(s)[1..] == Singletons(s[1..]);
      FlattenSingletons(s[1..]);
    }
  }

  lemma {:induction false} FlattenAvoids(units: seq<string>, c: char)
    requires forall i :: 0 <= i < |units| ==> c !in units[i]
    ensures c !in Flatten(units)
  {
    if units != [] {
      FlattenAvoids(units[1..], c);
    }
  }

  /** Replacing a character that is either a whole unit or absent from a unit acts unit by unit. */
  lemma ReplaceCharUnits(units: seq<string>, c: char, r: string)
    requires forall i :: 0 <= i < |units| ==> units[i] == [c] || c !in units[i]
    ensures Replace(Flatten(units), [c], r) == Flatten(MapUnits(units, [c], r))
  {
    ReplaceOneChar(Flatten(units), c, r);
    ReplaceCharUnitsStep(units, c, r);
  }

  lemma {:induction false} ReplaceCharUnitsStep(units: seq<string>, c: char, r: string)
    requires forall i :: 0 <= i < |units| ==> units[i] == [c] || c !in units[i]
    ensures ReplaceChar(Flatten(units), c, r) == Flatten(MapUnits(units, [c], r))
  {
    if units != [] {
      ReplaceCharAppend(units[0], Flatten(units[1..]), c, r);
      if units[0] != [c] {
        ReplaceCharAbsent(units[0], c, r);
      } else {
        assert ReplaceChar([c], c, r) == r + ReplaceChar([], c, r);
      }
      assert MapUnits(units, [c], r)[1..] == MapUnits(units[1..], [c], r);
      ReplaceCharUnitsStep(units[1..], c, r);
    }
  }

  /** Text without the pattern's first character is copied through unchanged. */
  lemma {:induction false} ReplacePlain(x: string, rest: string, pat: string, r: string)
    requires |pat| > 0 && pat[0] !in x
    ensures Replace(x + rest, pat, r) == x + Replace(rest, pat, r)
  {
    if x != [] {
      var s := x + rest;
      assert s[1..] == x[1..] + rest;
      ReplacePlain(x[1..], rest, pat, r);
      if |s| >= |pat| {
        assert x[0] in x;
        assert s[..|pat|][0] == x[0];
        assert Replace(s, pat, r) == [x[0]] + (x[1..] + Replace(rest, pat, r));
      }
      assert [x[0]] + x[1..] == x;
    } else {
      assert x + rest == rest;
    }
  }

  lemma ReplaceAtPattern(pat: string, rest: string, r: string)
    requires |pat| > 0
    ensures Replace(pat + rest, pat, r) == r + Replace(rest, pat, r)
  {
    assert (pat + rest)[..|pat|] == pat;
    assert (pat + rest)[|pat|..] == rest;
  }

  /** One unit of an escaped text, relative to a token: the token itself, text free of '@', or
      another token, differing from it in its second character. */
  predicate UnitFor(u: string, pat: string) {
    u == pat || '@' !in u
    || (|u| >= 2 && |pat| >= 2 && u[0] == '@' && '@' !in u[1..] && u[1] != pat[1])
  }

  /** Another token is copied through. */
  lemma ReplaceOtherToken(u: string, rest: string, pat: string, r: string)
    requires |pat| >= 2 && pat[0] == '@'
    requires |u| >= 2 && u[0] == '@' && '@' !in u[1..] && u[1] != pat[1]
    ensures Replace(u + rest, pat, r) == u + Replace(rest, pat, r)
  {
    var s := u + rest;
    var tail := u[1..];
    assert s[1..] == tail + rest;
    ReplacePlain(tail, rest, pat, r);
    if |s| >= |pat| {
      assert s[..|pat|][1] == u[1];
      assert Replace(s, pat, r) == [u[0]] + (tail + Replace(rest, pat, r));
    }
    assert [u[0]] + tail == u;
  }

  /** Replacing a token acts unit by unit. */
  lemma {:induction false} ReplaceUnits(units: seq<string>, pat: string, r: string)
    requires |pat| >= 2 && pat[0] == '@'
    requires forall i :: 0 <= i < |units| ==> UnitFor(units[i], pat)
    ensures Replace(Flatten(units), pat, r) == Flatten(MapUnits(units, pat, r))
  {
    if units != [] {
      var u, rest := units[0], Flatten(units[1..]);
      if u == pat {
        ReplaceAtPattern(pat, rest, r);
      } else if '@' !in u {
        ReplacePlain(u, rest, pat, r);
      } else {
        ReplaceOtherToken(u, rest, pat, r);
      }
      assert MapUnits(units, pat, r)[1..] == MapUnits(units[1..], pat, r);
      ReplaceUnits(units[1..], pat, r);
    }
  }

  /** The k-th escaping replacement, on one character. */
  lemma EscapeUnitStep(c: char, k: nat)
    requires k < 6
    ensures EscapedUpTo(c, k) == [SpecialAt(k)] || SpecialAt(k) !in EscapedUpTo(c, k)
    ensures (if EscapedUpTo(c, k) == [SpecialAt(k)] then TokenAt(k) else EscapedUpTo(c, k))
            == EscapedUpTo(c, k + 1)
  {
    var j := SpecialIndex(c);
    if 0 <= j < k {
      TokenShape(j);
      TokenAvoids(j, SpecialAt(k));
    }
  }

  /** The k-th escaping replacement, on the whole text. */
  lemma EscapeStep(s: string, k: nat)
    requires k < 6
    ensures Replace(Flatten(EscapeStage(s, k)), [SpecialAt(k)], TokenAt(k)) == Flatten(EscapeStage(s, k + 1))
  {
    var units := EscapeStage(s, k);
    forall i | 0 <= i < |units|
      ensures units[i] == [SpecialAt(k)] || SpecialAt(k) !in units[i]
      ensures MapUnits(units, [SpecialAt(k)], TokenAt(k))[i] == EscapeStage(s, k + 1)[i]
    {
      EscapeUnitStep(s[i], k);
    }
    ReplaceCharUnits(units, SpecialAt(k), TokenAt(k));
    assert MapUnits(units, [SpecialAt(k)], TokenAt(k)) == EscapeStage(s, k + 1);
  }

  /** The k-th restoring replacement, on one character. */
  lemma RestoreUnitStep(c: char, k: nat)
    requires k < 6 && c != '@'
    ensures UnitFor(RestoredUpTo(c, k), TokenAt(k))
    ensures (if RestoredUpTo(c, k) == TokenAt(k) then [SpecialAt(k)] else RestoredUpTo(c, k))
            == RestoredUpTo(c, k + 1)
  {
    var j := SpecialIndex(c);
    TokenShape(k);
    if j >= k {
      TokenShape(j);
      TokenAvoids(j, '@');
    }
  }

  /** The k-th restoring replacement, on the whole text. */
  lemma RestoreStep(s: string, k: nat)
    requires k < 6 && '@' !in s
    ensures Replace(Flatten(RestoreStage(s, k)), TokenAt(k), [SpecialAt(k)]) == Flatten(RestoreStage(s, k + 1))
  {
    var units := RestoreStage(s, k);
    forall i | 0 <= i < |units|
      ensures UnitFor(units[i], TokenAt(k))
      ensures MapUnits(units, TokenAt(k), [SpecialAt(k)])[i] == RestoreStage(s, k + 1)[i]
    {
      RestoreUnitStep(s[i], k);
    }
    TokenShape(k);
    ReplaceUnits(units, TokenAt(k), [SpecialAt(k)]);
    assert MapUnits(units, TokenAt(k), [SpecialAt(k)]) == RestoreStage(s, k + 1);
  }

  /** The reserved characters and tokens as the replacement calls write them. */
  lemma Literals()
    ensures [SpecialAt(0)] == "\t" && [SpecialAt(1)] == "\n" && [SpecialAt(2)] == "\r"
    ensures [SpecialAt(3)] == "*" && [SpecialAt(4)] == "{" && [SpecialAt(5)] == "}"
    ensures TokenAt(0) == TAB_TOKEN && TokenAt(1) == NEWLINE_TOKEN && TokenAt(2) == RETURN_TOKEN
    ensures TokenAt(3) == ASTERISK_TOKEN && TokenAt(4) == OPENBRACE_TOKEN && TokenAt(5) == CLOSEBRACE_TOKEN
  {
  }

  /** Escaping, one replacement after the other, is escaping character by character. */
  lemma EscapeByUnits(s: string)
    ensures ReplaceSpecialFileCharacters(s) == Flatten(EscapeUnits(s))
  {
    Literals();
    assert EscapeStage(s, 0) == Singletons(s);
    FlattenSingletons(s);
    var t0 := Flatten(EscapeStage(s, 0));
    var t1 := Flatten(EscapeStage(s, 1));
    var t2 := Flatten(EscapeStage(s, 2));
    var t3 := Flatten(EscapeStage(s, 3));
    var t4 := Flatten(EscapeStage(s, 4));
    var t5 := Flatten(EscapeStage(s, 5));
    var t6 := Flatten(EscapeStage(s, 6));
    EscapeStep(s, 0);
    assert Replace(s, "\t", TAB_TOKEN) == t1;
    EscapeStep(s, 1);
    assert Replace(t1, "\n", NEWLINE_TOKEN) == t2;
    EscapeStep(s, 2);
    assert Replace(t2, "\r", RETURN_TOKEN) == t3;
    EscapeStep(s, 3);
    assert Replace(t3, "*", ASTERISK_TOKEN) == t4;
    EscapeStep(s, 4);
    assert Replace(t4, "{", OPENBRACE_TOKEN) == t5;
    EscapeStep(s, 5);
    assert Replace(t5, "}", CLOSEBRACE_TOKEN) == t6;
    assert EscapeStage(s, 6) == EscapeUnits(s);
  }

  /** Restoring, one replacement after the other, undoes escaping character by character. */
  lemma RestoreByUnits(s: string)
    requires '@' !in s
    ensures RestoreSpecialFileCharacters(Flatten(EscapeUnits(s))) == s
  {
    Literals();
    assert RestoreStage(s, 0) == EscapeUnits(s);
    var t1 := Flatten(RestoreStage(s, 1));
    var t2 := Flatten(RestoreStage(s, 2));
    var t3 := Flatten(RestoreStage(s, 3));
    var t4 := Flatten(RestoreStage(s, 4));
    var t5 := Flatten(RestoreStage(s, 5));
    var t6 := Flatten(RestoreStage(s, 6));
    RestoreStep(s, 0);
    assert Replace(Flatten(EscapeUnits(s)), TAB_TOKEN, "\t") == t1;
    RestoreStep(s, 1);
    assert Replace(t1, NEWLINE_TOKEN, "\n") == t2;
    RestoreStep(s, 2);
    assert Replace(t2, RETURN_TOKEN, "\r") == t3;
    RestoreStep(s, 3);
    assert Replace(t3, ASTERISK_TOKEN, "*") == t4;
    RestoreStep(s, 4);
    assert Replace(t4, OPENBRACE_TOKEN, "{") == t5;
    RestoreStep(s, 5);
    assert Replace(t5, CLOSEBRACE_TOKEN, "}") == t6;
    assert RestoreStage(s, 6) == Singletons(s);
    FlattenSingletons(s);
  }

  /** Round trip: restoring an escaped text gives it back, provided it holds no '@'. */
  lemma RestoreReplaceRoundTrip(s: string)
    requires '@' !in s
    ensures RestoreSpecialFileCharacters(ReplaceSpecialFileCharacters(s)) == s
  {
    EscapeByUnits(s);
    RestoreByUnits(s);
  }

  /** An escaped text holds none of the reserved characters. */
  lemma EscapedHasNoSpecial(s: string, c: char)
    requires Special(c)
    ensures c !in ReplaceSpecialFileCharacters(s)
  {
    EscapeByUnits(s);
    var units := EscapeUnits(s);
    forall i | 0 <= i < |units|
      ensures c !in units[i]
    {
      var j := SpecialIndex(s[i]);
      if j >= 0 {
        TokenAvoids(j, c);
      }
    }
    FlattenAvoids(units, c);
  }

  // ---------------------------------------------------------------------------------------------
  // File names

  /** makePathCompliant: 30 replacements in the source's order. '[' and '{' share a token, and
      '@' itself is escaped only after the earlier tokens have been written. */
  function MakePathCompliant(original: string): string {
    var s1 := Replace(original, ",", "@COMMA");
    var s2 := Replace(s1, ".", "@PERIOD");
    var s3 := Replace(s2, ">", "@GREATER");
    var s4 := Replace(s3, "<", "@LESS");
    var s5 := Replace(s4, "/", "@FORWARDSLASH");
    var s6 := Replace(s5, "?", "@QUESTION");
    var s7 := Replace(s6, "\\", "@BACKSLASH");
    var s8 := Replace(s7, "÷", "@DIVISION");
    var s9 := Replace(s8, "'", "@APOSTROPHE");
    var s10 := Replace(s9, "\"", "@QUOTATION");
    var s11 := Replace(s10, ";", "@SEMICOLON");
    var s12 := Replace(s11, ":", "@COLON");
    var s13 := Replace(s12, "[", "@OPENBRACE");
    var s14 := Replace(s13, "]", "@CLOSEBRACE");
    var s15 := Replace(s14, "^", "@CARET");
    var s16 := Replace(s15, "%", "@PERCENT");
    var s17 := Replace(s16, "#", "@POUND");
    var s18 := Replace(s17, "$", "@DOLLAR");
    var s19 := Replace(s18, "&", "@AMPERSAND");
    var s20 := Replace(s19, "•", "@BULLET");
    var s21 := Replace(s20, "{", "@OPENBRACE");
    var s22 := Replace(s21, "}", "@CLOSEBRACE");
    var s23 := Replace(s22, "@", "@AT");
    var s24 := Replace(s23, "\t", "@TAB");
    var s25 := Replace(s24, "\n", "@NEWLINE");
    var s26 := Replace(s25, "\r", "@RETURN");
    var s27 := Replace(s26, "*", "@ASTERISK");
    var s28 := Replace(s27, " ", "@SPACE");
    var s29 := Replace(s28, "-", "@DASH");
    Replace(s29, "–", "@HYPHEN")
  }

  /** undoPathComplianceReplacements: the tokens back to characters, in the source's order. */
  function UndoPathComplianceReplacements(path: string): string {
    var s1 := Replace(path, "@COMMA", ",");
    var s2 := Replace(s1, "@PERIOD", ".");
    var s3 := Replace(s2, "@GREATER", ">");
    var s4 := Replace(s3, "@LESS", "<");
    var s5 := Replace(s4, "@FORWARDSLASH", "/");
    var s6 := Replace(s5, "@QUESTION", "?");
    var s7 := Replace(s6, "@BACKSLASH", "\\");
    var s8 := Replace(s7, "@DIVISION", "÷");
    var s9 := Replace(s8, "@APOSTROPHE", "'");
    var s10 := Replace(s9, "@QUOTATION", "\"");
    var s11 := Replace(s10, "@SEMICOLON", ";");
    var s12 := Replace(s11, "@COLON", ":");
    var s13 := Replace(s12, "@OPENBRACE", "[");
    var s14 := Replace(s13, "@CLOSEBRACE", "]");
    var s15 := Replace(s14, "@CARET", "^");
    var s16 := Replace(s15, "@PERCENT", "%");
    var s17 := Replace(s16, "@POUND", "#");
    var s18 := Replace(s17, "@DOLLAR", "$");
    var s19 := Replace(s18, "@AMPERSAND", "&");
    var s20 := Replace(s19, "@BULLET", "•");
    var s21 := Replace(s20, "@OPENBRACE", "{");
    var s22 := Replace(s21, "@CLOSEBRACE", "}");
    var s23 := Replace(s22, "@AT", "@");
    var s24 := Replace(s23, "@TAB", "\t");
    var s25 := Replace(s24, "@NEWLINE", "\n");
    var s26 := Replace(s25, "@RETURN", "\r");
    var s27 := Replace(s26, "@ASTERISK", "*");
    var s28 := Replace(s27, "@SPACE", " ");
    var s29 := Replace(s28, "@DASH", "-");
    Replace(s29, "@HYPHEN", "–")
  }

  /** A comma becomes its token, whose '@' is then escaped in turn. */
  lemma MakePathCompliantComma()
    ensures MakePathCompliant(",") == "@ATCOMMA"
  {
    MakePathCompliantCommaSteps1();
    MakePathCompliantCommaSteps2();
    MakePathCompliantCommaSteps3();
    MakePathCompliantCommaSteps4();
    MakePathCompliantCommaSteps5();
    MakePathCompliantCommaSteps6();
    MakePathCompliantCommaSteps7();
    MakePathCompliantCommaSteps8();
    MakePathCompliantCommaSteps9();
    MakePathCompliantCommaSteps10();
    MakePathCompliantCommaSteps11();
    MakePathCompliantCommaSteps12();
    MakePathCompliantCommaSteps13();
    MakePathCompliantCommaSteps14();
    MakePathCompliantCommaSteps15();
    MakePathCompliantCommaSteps16();
    MakePathCompliantCommaSteps17();
    MakePathCompliantCommaSteps18();
    MakePathCompliantCommaSteps19();
  }

  lemma MakePathCompliantCommaSteps1()
    ensures Replace(",", ",", "@COMMA") == "@COMMA"
    ensures Replace("@COMMA", ".", "@PERIOD") == "@COMMA"
  {
    assert "," == "," + "";
    ReplaceLeading(",", ",", "", "@COMMA");
    assert "@COMMA" + "" == "@COMMA";
    ReplaceAbsent("@COMMA", ".", "@PERIOD");
  }

  lemma MakePathCompliantCommaSteps2()
    ensures Replace("@COMMA", ">", "@GREATER") == "@COMMA"
    ensures Replace("@COMMA", "<", "@LESS") == "@COMMA"
  {
    ReplaceAbsent("@COMMA", ">", "@GREATER");
    ReplaceAbsent("@COMMA", "<", "@LESS");
  }

  lemma MakePathCompliantCommaSteps3()
    ensures Replace("@COMMA", "/", "@FORWARDSLASH") == "@COMMA"
    ensures Replace("@COMMA", "?", "@QUESTION") == "@COMMA"
  {
    ReplaceAbsent("@COMMA", "/", "@FORWARDSLASH");
    ReplaceAbsent("@COMMA", "?", "@QUESTION");
  }

  lemma MakePathCompliantCommaSteps4()
    ensures Replace("@COMMA", "\\", "@BACKSLASH") == "@COMMA"
    ensures Replace("@COMMA", "÷", "@DIVISION") == "@COMMA"
  {
    ReplaceAbsent("@COMMA", "\\", "@BACKSLASH");
    ReplaceAbsent("@COMMA", "÷", "@DIVISION");
  }

  lemma MakePathCompliantCommaSteps5()
    ensures Replace("@COMMA", "'", "@APOSTROPHE") == "@COMMA"
    ensures Replace("@COMMA", "\"", "@QUOTATION") == "@COMMA"
  {
    ReplaceAbsent("@COMMA", "'", "@APOSTROPHE");
    ReplaceAbsent("@COMMA", "\"", "@QUOTATION");
  }

  lemma MakePathCompliantCommaSteps6()
    ensures Replace("@COMMA", ";", "@SEMICOLON") == "@COMMA"
    ensures Replace("@COMMA", ":", "@COLON") == "@COMMA"
  {
    ReplaceAbsent("@COMMA", ";", "@SEMICOLON");
    ReplaceAbsent("@COMMA", ":", "@COLON");
  }

  lemma MakePathCompliantCommaSteps7()
    ensures Replace("@COMMA", "[", "@OPENBRACE") == "@COMMA"
    ensures Replace("@COMMA", "]", "@CLOSEBRACE") == "@COMMA"
  {
    ReplaceAbsent("@COMMA", "[", "@OPENBRACE");
    ReplaceAbsent("@COMMA", "]", "@CLOSEBRACE");
  }

  lemma MakePathCompliantCommaSteps8()
    ensures Replace("@COMMA", "^", "@CARET") == "@COMMA"
    ensures Replace("@COMMA", "%", "@PERCENT") == "@COMMA"
  {
    ReplaceAbsent("@COMMA", "^", "@CARET");
    ReplaceAbsent("@COMMA", "%", "@PERCENT");
  }

  lemma MakePathCompliantCommaSteps9()
    ensures Replace("@COMMA", "#", "@POUND") == "@COMMA"
    ensures Replace("@COMMA", "$", "@DOLLAR") == "@COMMA"
  {
    ReplaceAbsent("@COMMA", "#", "@POUND");
    ReplaceAbsent("@COMMA", "$", "@DOLLAR");
  }

  lemma MakePathCompliantCommaSteps10()
    ensures Replace("@COMMA", "&", "@AMPERSAND") == "@COMMA"
    ensures Replace("@COMMA", "•", "@BULLET") == "@COMMA"
  {
    ReplaceAbsent("@COMMA", "&", "@AMPERSAND");
    ReplaceAbsent("@COMMA", "•", "@BULLET");
  }

  lemma MakePathCompliantCommaSteps11()
    ensures Replace("@COMMA", "{", "@OPENBRACE") == "@COMMA"
    ensures Replace("@COMMA", "}", "@CLOSEBRACE") == "@COMMA"
  {
    ReplaceAbsent("@COMMA", "{", "@OPENBRACE");
    ReplaceAbsent("@COMMA", "}", "@CLOSEBRACE");
  }

  lemma MakePathCompliantCommaSteps12()
    ensures Replace("@COMMA", "@", "@AT") == "@ATCOMMA"
  {
    assert "@COMMA" == "@" + "COMMA";
    ReplaceLeading("@COMMA", "@", "COMMA", "@AT");
    assert "@AT" + "COMMA" == "@ATCOMMA";
  }

  lemma MakePathCompliantCommaSteps13()
    ensures Replace("@ATCOMMA", "\t", "@TAB") == "@ATCOMMA"
  {
    ReplaceAbsent("@ATCOMMA", "\t", "@TAB");
  }

  lemma MakePathCompliantCommaSteps14()
    ensures Replace("@ATCOMMA", "\n", "@NEWLINE") == "@ATCOMMA"
  {
    ReplaceAbsent("@ATCOMMA", "\n", "@NEWLINE");
  }

  lemma MakePathCompliantCommaSteps15()
    ensures Replace("@ATCOMMA", "\r", "@RETURN") == "@ATCOMMA"
  {
    ReplaceAbsent("@ATCOMMA", "\r", "@RETURN");
  }

  lemma MakePathCompliantCommaSteps16()
    ensures Replace("@ATCOMMA", "*", "@ASTERISK") == "@ATCOMMA"
  {
    ReplaceAbsent("@ATCOMMA", "*", "@ASTERISK");
  }

  lemma MakePathCompliantCommaSteps17()
    ensures Replace("@ATCOMMA", " ", "@SPACE") == "@ATCOMMA"
  {
    ReplaceAbsent("@ATCOMMA", " ", "@SPACE");
  }

  lemma MakePathCompliantCommaSteps18()
    ensures Replace("@ATCOMMA", "-", "@DASH") == "@ATCOMMA"
  {
    ReplaceAbsent("@ATCOMMA", "-", "@DASH");
  }

  lemma MakePathCompliantCommaSteps19()
    ensures Replace("@ATCOMMA", "–", "@HYPHEN") == "@ATCOMMA"
  {
    ReplaceAbsent("@ATCOMMA", "–", "@HYPHEN");
  }

  /** Undoing looks for the comma token before the '@' escape has been undone. */
  lemma UndoPathComplianceAtComma()
    ensures UndoPathComplianceReplacements("@ATCOMMA") == "@COMMA"
  {
    UndoPathComplianceAtCommaSteps1();
    UndoPathComplianceAtCommaSteps2();
    UndoPathComplianceAtCommaSteps3();
    UndoPathComplianceAtCommaSteps4();
    UndoPathComplianceAtCommaSteps5();
    UndoPathComplianceAtCommaSteps6();
    UndoPathComplianceAtCommaSteps7();
    UndoPathComplianceAtCommaSteps8();
    UndoPathComplianceAtCommaSteps9();
    UndoPathComplianceAtCommaSteps10();
    UndoPathComplianceAtCommaSteps11();
    UndoPathComplianceAtCommaSteps12();
    UndoPathComplianceAtCommaSteps13();
    UndoPathComplianceAtCommaSteps14();
    UndoPathComplianceAtCommaSteps15();
    UndoPathComplianceAtCommaSteps16();
    UndoPathComplianceAtCommaSteps17();
    UndoPathComplianceAtCommaSteps18();
    UndoPathComplianceAtCommaSteps19();
    UndoPathComplianceAtCommaSteps20();
    UndoPathComplianceAtCommaSteps21();
    UndoPathComplianceAtCommaSteps22();
    UndoPathComplianceAtCommaSteps23();
    UndoPathComplianceAtCommaSteps24();
    UndoPathComplianceAtCommaSteps25();
    UndoPathComplianceAtCommaSteps26();
    UndoPathComplianceAtCommaSteps27();
  }

  lemma UndoPathComplianceAtCommaSteps1()
    ensures Replace("@ATCOMMA", "@COMMA", ",") == "@ATCOMMA"
  {
    ReplaceMismatch("@ATCOMMA", "@COMMA", ",");
  }

  lemma UndoPathComplianceAtCommaSteps2()
    ensures Replace("@ATCOMMA", "@PERIOD", ".") == "@ATCOMMA"
  {
    ReplaceMismatch("@ATCOMMA", "@PERIOD", ".");
  }

  lemma UndoPathComplianceAtCommaSteps3()
    ensures Replace("@ATCOMMA", "@GREATER", ">") == "@ATCOMMA"
  {
    ReplaceMismatch("@ATCOMMA", "@GREATER", ">");
  }

  lemma UndoPathComplianceAtCommaSteps4()
    ensures Replace("@ATCOMMA", "@LESS", "<") == "@ATCOMMA"
  {
    ReplaceMismatch("@ATCOMMA", "@LESS", "<");
  }

  lemma UndoPathComplianceAtCommaSteps5()
    ensures Replace("@ATCOMMA", "@FORWARDSLASH", "/") == "@ATCOMMA"
  {
    ReplaceMismatch("@ATCOMMA", "@FORWARDSLASH", "/");
  }

  lemma UndoPathComplianceAtCommaSteps6()
    ensures Replace("@ATCOMMA", "@QUESTION", "?") == "@ATCOMMA"
  {
    ReplaceMismatch("@ATCOMMA", "@QUESTION", "?");
  }

  lemma UndoPathComplianceAtCommaSteps7()
    ensures Replace("@ATCOMMA", "@BACKSLASH", "\\") == "@ATCOMMA"
  {
    ReplaceMismatch("@ATCOMMA", "@BACKSLASH", "\\");
  }

  lemma UndoPathComplianceAtCommaSteps8()
    ensures Replace("@ATCOMMA", "@DIVISION", "÷") == "@ATCOMMA"
  {
    ReplaceMismatch("@ATCOMMA", "@DIVISION", "÷");
  }

  lemma UndoPathComplianceAtCommaSteps9()
    ensures Replace("@ATCOMMA", "@APOSTROPHE", "'") == "@ATCOMMA"
  {

  }

  lemma UndoPathComplianceAtCommaSteps10()
    ensures Replace("@ATCOMMA", "@QUOTATION", "\"") == "@ATCOMMA"
  {
    ReplaceMismatch("@ATCOMMA", "@QUOTATION", "\"");
  }

  lemma UndoPathComplianceAtCommaSteps11()
    ensures Replace("@ATCOMMA", "@SEMICOLON", ";") == "@ATCOMMA"
  {
    ReplaceMismatch("@ATCOMMA", "@SEMICOLON", ";");
  }

  lemma UndoPathComplianceAtCommaSteps12()
    ensures Replace("@ATCOMMA", "@COLON", ":") == "@ATCOMMA"
  {
    ReplaceMismatch("@ATCOMMA", "@COLON", ":");
  }

  lemma UndoPathComplianceAtCommaSteps13()
    ensures Replace("@ATCOMMA", "@OPENBRACE", "[") == "@ATCOMMA"
  {
    ReplaceMismatch("@ATCOMMA", "@OPENBRACE", "[");
  }

  lemma UndoPathComplianceAtCommaSteps14()
    ensures Replace("@ATCOMMA", "@CLOSEBRACE", "]") == "@ATCOMMA"
  {
    ReplaceMismatch("@ATCOMMA", "@CLOSEBRACE", "]");
  }

  lemma UndoPathComplianceAtCommaSteps15()
    ensures Replace("@ATCOMMA", "@CARET", "^") == "@ATCOMMA"
  {
    ReplaceMismatch("@ATCOMMA", "@CARET", "^");
  }

  lemma UndoPathComplianceAtCommaSteps16()
    ensures Replace("@ATCOMMA", "@PERCENT", "%") == "@ATCOMMA"
  {
    ReplaceMismatch("@ATCOMMA", "@PERCENT", "%");
  }

  lemma UndoPathComplianceAtCommaSteps17()
    ensures Replace("@ATCOMMA", "@POUND", "#") == "@ATCOMMA"
  {
    ReplaceMismatch("@ATCOMMA", "@POUND", "#");
  }

  lemma UndoPathComplianceAtCommaSteps18()
    ensures Replace("@ATCOMMA", "@DOLLAR", "$") == "@ATCOMMA"
  {
    ReplaceMismatch("@ATCOMMA", "@DOLLAR", "$");
  }

  lemma UndoPathComplianceAtCommaSteps19()
    ensures Replace("@ATCOMMA", "@AMPERSAND", "&") == "@ATCOMMA"
  {

  }

  lemma UndoPathComplianceAtCommaSteps20()
    ensures Replace("@ATCOMMA", "@BULLET", "•") == "@ATCOMMA"
  {
    ReplaceMismatch("@ATCOMMA", "@BULLET", "•");
  }

  lemma UndoPathComplianceAtCommaSteps21()
    ensures Replace("@ATCOMMA", "@OPENBRACE", "{") == "@ATCOMMA"
  {
    ReplaceMismatch("@ATCOMMA", "@OPENBRACE", "{");
  }

  lemma UndoPathComplianceAtCommaSteps22()
    ensures Replace("@ATCOMMA", "@CLOSEBRACE", "}") == "@ATCOMMA"
  {
    ReplaceMismatch("@ATCOMMA", "@CLOSEBRACE", "}");
  }

  lemma UndoPathComplianceAtCommaSteps23()
    ensures Replace("@ATCOMMA", "@AT", "@") == "@COMMA"
  {
    assert "@ATCOMMA" == "@AT" + "COMMA";
    ReplaceLeading("@ATCOMMA", "@AT", "COMMA", "@");
    assert "@" + "COMMA" == "@COMMA";
  }

  lemma UndoPathComplianceAtCommaSteps24()
    ensures Replace("@COMMA", "@TAB", "\t") == "@COMMA"
    ensures Replace("@COMMA", "@NEWLINE", "\n") == "@COMMA"
  {
    ReplaceMismatch("@COMMA", "@TAB", "\t");
    ReplaceMismatch("@COMMA", "@NEWLINE", "\n");
  }

  lemma UndoPathComplianceAtCommaSteps25()
    ensures Replace("@COMMA", "@RETURN", "\r") == "@COMMA"
    ensures Replace("@COMMA", "@ASTERISK", "*") == "@COMMA"
  {
    ReplaceMismatch("@COMMA", "@RETURN", "\r");
    ReplaceMismatch("@COMMA", "@ASTERISK", "*");
  }

  lemma UndoPathComplianceAtCommaSteps26()
    ensures Replace("@COMMA", "@SPACE", " ") == "@COMMA"
    ensures Replace("@COMMA", "@DASH", "-") == "@COMMA"
  {
    ReplaceMismatch("@COMMA", "@SPACE", " ");
    ReplaceMismatch("@COMMA", "@DASH", "-");
  }

  lemma UndoPathComplianceAtCommaSteps27()
    ensures Replace("@COMMA", "@HYPHEN", "–") == "@COMMA"
  {
    ReplaceMismatch("@COMMA", "@HYPHEN", "–");
  }

  /** '[' and '{' are written alike: after the first 21 replacements both are "@OPENBRACE", and the
      remaining replacements act on that same text. */
  lemma MakePathCompliantCollides()
    ensures MakePathCompliant("[") == MakePathCompliant("{")
  {
    OpenBracketSteps1();
    OpenBracketSteps2();
    OpenBracketSteps3();
    OpenBracketSteps4();
    OpenBracketSteps5();
    OpenBracketSteps6();
    OpenBracketSteps7();
    OpenBracketSteps8();
    OpenBracketSteps9();
    OpenBraceSteps1();
    OpenBraceSteps2();
  }

  lemma OpenBracketSteps1()
    ensures Replace("[", ",", "@COMMA") == "["
    ensures Replace("[", ".", "@PERIOD") == "["
    ensures Replace("[", ">", "@GREATER") == "["
    ensures Replace("[", "<", "@LESS") == "["
    ensures Replace("[", "/", "@FORWARDSLASH") == "["
    ensures Replace("[", "?", "@QUESTION") == "["
    ensures Replace("[", "\\", "@BACKSLASH") == "["
    ensures Replace("[", "÷", "@DIVISION") == "["
    ensures Replace("[", "'", "@APOSTROPHE") == "["
    ensures Replace("[", "\"", "@QUOTATION") == "["
    ensures Replace("[", ";", "@SEMICOLON") == "["
    ensures Replace("[", ":", "@COLON") == "["
  {
    ReplaceAbsent("[", ",", "@COMMA");
    ReplaceAbsent("[", ".", "@PERIOD");
    ReplaceAbsent("[", ">", "@GREATER");
    ReplaceAbsent("[", "<", "@LESS");
    ReplaceAbsent("[", "/", "@FORWARDSLASH");
    ReplaceAbsent("[", "?", "@QUESTION");
    ReplaceAbsent("[", "\\", "@BACKSLASH");
    ReplaceAbsent("[", "÷", "@DIVISION");
    ReplaceAbsent("[", "'", "@APOSTROPHE");
    ReplaceAbsent("[", "\"", "@QUOTATION");
    ReplaceAbsent("[", ";", "@SEMICOLON");
    ReplaceAbsent("[", ":", "@COLON");
  }

  lemma OpenBracketSteps2()
    ensures Replace("[", "[", "@OPENBRACE") == "@OPENBRACE"
    ensures Replace("@OPENBRACE", "]", "@CLOSEBRACE") == "@OPENBRACE"
  {
    assert "[" == "[" + "";
    ReplaceLeading("[", "[", "", "@OPENBRACE");
    assert "@OPENBRACE" + "" == "@OPENBRACE";
    ReplaceAbsent("@OPENBRACE", "]", "@CLOSEBRACE");
  }

  lemma OpenBracketSteps3()
    ensures Replace("@OPENBRACE", "^", "@CARET") == "@OPENBRACE"
  {
    ReplaceAbsent("@OPENBRACE", "^", "@CARET");
  }

  lemma OpenBracketSteps4()
    ensures Replace("@OPENBRACE", "%", "@PERCENT") == "@OPENBRACE"
  {
    ReplaceAbsent("@OPENBRACE", "%", "@PERCENT");
  }

  lemma OpenBracketSteps5()
    ensures Replace("@OPENBRACE", "#", "@POUND") == "@OPENBRACE"
  {
    ReplaceAbsent("@OPENBRACE", "#", "@POUND");
  }

  lemma OpenBracketSteps6()
    ensures Replace("@OPENBRACE", "$", "@DOLLAR") == "@OPENBRACE"
  {
    ReplaceAbsent("@OPENBRACE", "$", "@DOLLAR");
  }

  lemma OpenBracketSteps7()
    ensures Replace("@OPENBRACE", "&", "@AMPERSAND") == "@OPENBRACE"
  {
    ReplaceAbsent("@OPENBRACE", "&", "@AMPERSAND");
  }

  lemma OpenBracketSteps8()
    ensures Replace("@OPENBRACE", "•", "@BULLET") == "@OPENBRACE"
  {
    ReplaceAbsent("@OPENBRACE", "•", "@BULLET");
  }

  lemma OpenBracketSteps9()
    ensures Replace("@OPENBRACE", "{", "@OPENBRACE") == "@OPENBRACE"
  {
    ReplaceAbsent("@OPENBRACE", "{", "@OPENBRACE");
  }

  lemma OpenBraceSteps1()
    ensures Replace("{", ",", "@COMMA") == "{"
    ensures Replace("{", ".", "@PERIOD") == "{"
    ensures Replace("{", ">", "@GREATER") == "{"
    ensures Replace("{", "<", "@LESS") == "{"
    ensures Replace("{", "/", "@FORWARDSLASH") == "{"
    ensures Replace("{", "?", "@QUESTION") == "{"
    ensures Replace("{", "\\", "@BACKSLASH") == "{"
    ensures Replace("{", "÷", "@DIVISION") == "{"
    ensures Replace("{", "'", "@APOSTROPHE") == "{"
    ensures Replace("{", "\"", "@QUOTATION") == "{"
    ensures Replace("{", ";", "@SEMICOLON") == "{"
    ensures Replace("{", ":", "@COLON") == "{"
  {
    ReplaceAbsent("{", ",", "@COMMA");
    ReplaceAbsent("{", ".", "@PERIOD");
    ReplaceAbsent("{", ">", "@GREATER");
    ReplaceAbsent("{", "<", "@LESS");
    ReplaceAbsent("{", "/", "@FORWARDSLASH");
    ReplaceAbsent("{", "?", "@QUESTION");
    ReplaceAbsent("{", "\\", "@BACKSLASH");
    ReplaceAbsent("{", "÷", "@DIVISION");
    ReplaceAbsent("{", "'", "@APOSTROPHE");
    ReplaceAbsent("{", "\"", "@QUOTATION");
    ReplaceAbsent("{", ";", "@SEMICOLON");
    ReplaceAbsent("{", ":", "@COLON");
  }

  lemma OpenBraceSteps2()
    ensures Replace("{", "[", "@OPENBRACE") == "{"
    ensures Replace("{", "]", "@CLOSEBRACE") == "{"
    ensures Replace("{", "^", "@CARET") == "{"
    ensures Replace("{", "%", "@PERCENT") == "{"
    ensures Replace("{", "#", "@POUND") == "{"
    ensures Replace("{", "$", "@DOLLAR") == "{"
    ensures Replace("{", "&", "@AMPERSAND") == "{"
    ensures Replace("{", "•", "@BULLET") == "{"
    ensures Replace("{", "{", "@OPENBRACE") == "@OPENBRACE"
  {
    ReplaceAbsent("{", "[", "@OPENBRACE");
    ReplaceAbsent("{", "]", "@CLOSEBRACE");
    ReplaceAbsent("{", "^", "@CARET");
    ReplaceAbsent("{", "%", "@PERCENT");
    ReplaceAbsent("{", "#", "@POUND");
    ReplaceAbsent("{", "$", "@DOLLAR");
    ReplaceAbsent("{", "&", "@AMPERSAND");
    ReplaceAbsent("{", "•", "@BULLET");
    assert "{" == "{" + "";
    ReplaceLeading("{", "{", "", "@OPENBRACE");
    assert "@OPENBRACE" + "" == "@OPENBRACE";
  }

  /** Undoing path compliance does not restore the original: '[' and '{' are written alike,
      and the '@' escape is undone only after the tokens it hid have been looked for. */
  lemma PathComplianceNotInvertible()
    ensures MakePathCompliant("[") == MakePathCompliant("{")
    ensures UndoPathComplianceReplacements(MakePathCompliant(",")) == "@COMMA" != ","
  {
    MakePathCompliantCollides();
    MakePathCompliantComma();
    UndoPathComplianceAtComma();
  }

  // ---------------------------------------------------------------------------------------------
  // Label lookup

  /** findDataFromLabel: the text between the first "key: " and the next EOL, or None (the
      source's null) when either is missing. */
  function FindDataFromLabel(all: string, key: string): (r: Option<string>)
    ensures r.Some? ==> EOL !in r.value
    ensures r.Some? ==> OccursAt(all, key + ": " + r.value + [EOL], Find(all, key + ": ", 0))
    ensures (forall k :: !OccursAt(all, key + ": ", k)) ==> r == None
  {
    var parameter := key + ": ";
    var originalStartIndex := Find(all, parameter, 0);
    var startIndex := originalStartIndex + |parameter|;
    var endIndex := Find(all, [EOL], startIndex);
    if originalStartIndex < 0 || endIndex < 0 then None
    else
      FindCharGap(all, EOL, startIndex, endIndex);
      LabelLine(all, parameter, originalStartIndex, endIndex);
      Some(all[startIndex..endIndex])
  }

  lemma LabelLine(all: string, parameter: string, o: int, e: int)
    requires OccursAt(all, parameter, o) && o + |parameter| <= e < |all| && all[e] == EOL
    ensures OccursAt(all, parameter + all[o + |parameter|..e] + [EOL], o)
  {
    var st := o + |parameter|;
    assert all[o..e + 1] == all[o..st] + all[st..e] + all[e..e + 1];
  }

  /** A configuration line as the system writes it is found again: with no earlier "key: ",
      the value before the next EOL is returned. */
  lemma FindDataFromLabelFound(all: string, key: string, pre: string, value: string, post: string)
    requires all == pre + (key + ": ") + value + [EOL] + post
    requires forall k :: 0 <= k < |pre| ==> !OccursAt(all, key + ": ", k)
    requires EOL !in value
    ensures FindDataFromLabel(all, key) == Some(value)
  {
    var p := key + ": ";
    var st := |pre| + |p|;
    var e := st + |value|;
    assert Find(all, p, 0) == |pre| by {
      assert all[|pre|..st] == p;
      FindIs(all, p, 0, |pre|);
    }
    assert all[st..e] == value && all[e] == EOL;
    assert Find(all, [EOL], st) == e by {
      forall k | st <= k < e
        ensures !OccursAt(all, [EOL], k)
      {
        assert all[k] == value[k - st];
        OccursAtChar(all, EOL, k);
      }
      OccursAtChar(all, EOL, e);
      FindIs(all, [EOL], st, e);
    }
    FindDataFromLabelAt(all, key, |pre|, st, e);
  }

  /** The lookup once both searches are known. */
  lemma FindDataFromLabelAt(all: string, key: string, o: int, st: int, e: int)
    requires Find(all, key + ": ", 0) == o >= 0 && st == o + |key + ": "|
    requires Find(all, [EOL], st) == e >= 0
    ensures st <= e <= |all| && FindDataFromLabel(all, key) == Some(all[st..e])
  {
  }

  /** A label with no EOL after it gives None. */
  lemma FindDataFromLabelUnterminated(all: string, key: string, pre: string, rest: string)
    requires all == pre + (key + ": ") + rest
    requires forall k :: 0 <= k < |pre| ==> !OccursAt(all, key + ": ", k)
    requires EOL !in rest
    ensures FindDataFromLabel(all, key) == None
  {
    var p := key + ": ";
    var st := |pre| + |p|;
    assert all[|pre|..st] == p;
    FindIs(all, p, 0, |pre|);
    var e := Find(all, [EOL], st);
    if e >= 0 {
      OccursAtChar(all, EOL, e);
      assert false;
    }
  }

  // ---------------------------------------------------------------------------------------------
  // ASCII-armored blocks

  function BeginMarker(target: string): string {
    "-----BEGIN " + target + "-----"
  }

  function EndMarker(target: string): string {
    "-----END " + target + "-----"
  }

  /** findEncapsulation: the text from the first BEGIN marker through the end of the first END
      marker; None when either marker is missing. When the END marker comes first, the source's
      substring call throws. */
  function FindEncapsulation(data: string, target: string): (r: Result<Option<string>>)
    ensures r == Ok(None) <==>
      (forall k :: !OccursAt(data, BeginMarker(target), k)) || (forall k :: !OccursAt(data, EndMarker(target), k))
    ensures r.Ok? && r.value.Some? ==>
      var b := r.value.value;
      var start := Find(data, BeginMarker(target), 0);
      OccursAt(data, b, start) && start + |b| == Find(data, EndMarker(target), 0) + |EndMarker(target)|
    ensures r.Err? ==> r.error == IndexOutOfBounds
  {
    var startTarget := BeginMarker(target);
    var endTarget := EndMarker(target);
    var startIndex := Find(data, startTarget, 0);
    var endIndex := Find(data, endTarget, 0);
    FindSkips(data, startTarget, 0);
    FindSkips(data, endTarget, 0);
    if startIndex == -1 || endIndex == -1 then Ok(None)
    else if endIndex + |endTarget| < startIndex then Err(IndexOutOfBounds)
    else Ok(Some(data[startIndex..endIndex + |endTarget|]))
  }

  /** The payload of a block: what lies between the first "-----\n" and the next "\n-----",
      with every newline removed. A missing "-----\n" leaves the source's start index at 5. */
  function Payload(block: string): (r: Result<string>)
    ensures r.Ok? ==> EOL !in r.value
  {
    var startIndex := Find(block, "-----\n", 0) + 6;
    var endIndex := Find(block, "\n-----", startIndex);
    if endIndex < 0 then Err(IndexOutOfBounds)
    else Ok(RemoveChar(block[startIndex..endIndex], EOL))
  }

  /** fromEncapsulation before its Base64 decoding step. */
  function Encapsulated(data: string, header: string): Result<Option<string>> {
    match FindEncapsulation(data, header)
    case Err(e) => Err(e)
    case Ok(None) => Ok(None)
    case Ok(Some(block)) =>
      match Payload(block)
      case Err(e) => Err(e)
      case Ok(p) => Ok(Some(p))
  }

  /** makeEncapsulation, given the Base64 text of the data. */
  function MakeEncapsulation(inner: string, header: string): string {
    BeginMarker(header) + "\n" + inner + "\n" + EndMarker(header) + "\n"
  }

  /** The newline-stripping loop of fromEncapsulation. */
  method StripNewlines(formatted: string) returns (base64: string)
    ensures base64 == RemoveChar(formatted, EOL)
  {
    base64 := "";
    var previous := 0;
    for i := 0 to |formatted|
      invariant previous <= i
      invariant base64 == RemoveChar(formatted[..previous], EOL)
      invariant EOL !in formatted[previous..i]
    {
      if formatted[i] == EOL {
        LineEnded(formatted, previous, i);
        base64 := base64 + formatted[previous..i];
        previous := i + 1;
      } else {
        LineGoesOn(formatted, previous, i);
      }
    }
    LastLine(formatted, previous);
    base64 := base64 + formatted[previous..];
  }

  /** A line of the formatted text, from previous up to the EOL at i: appending it completes the
      newline-free text up to and including i. */
  lemma LineEnded(formatted: string, previous: int, i: int)
    requires 0 <= previous <= i < |formatted| && EOL !in formatted[previous..i] && formatted[i] == EOL
    ensures RemoveChar(formatted[..previous], EOL) + formatted[previous..i] == RemoveChar(formatted[..i + 1], EOL)
  {
    assert formatted[..i + 1] == (formatted[..previous] + formatted[previous..i]) + [EOL];
    RemoveCharAppend(formatted[..previous] + formatted[previous..i], [EOL], EOL);
    LineKept(formatted[..previous], formatted[previous..i]);
  }

  /** The last line, from previous to the end of the text. */
  lemma LastLine(formatted: string, previous: int)
    requires 0 <= previous <= |formatted| && EOL !in formatted[previous..]
    ensures RemoveChar(formatted[..previous], EOL) + formatted[previous..] == RemoveChar(formatted, EOL)
  {
    assert formatted == formatted[..previous] + formatted[previous..];
    LineKept(formatted[..previous], formatted[previous..]);
  }

  /** A line without EOL is kept whole. */
  lemma LineKept(front: string, line: string)
    requires EOL !in line
    ensures RemoveChar(front + line, EOL) == RemoveChar(front, EOL) + line
  {
    RemoveCharAbsent(line, EOL);
    RemoveCharAppend(front, line, EOL);
  }

  /** A character other than EOL continues the current line. */
  lemma LineGoesOn(formatted: string, previous: int, i: int)
    requires 0 <= previous <= i < |formatted| && EOL !in formatted[previous..i] && formatted[i] != EOL
    ensures EOL !in formatted[previous..i + 1]
  {
    assert formatted[previous..i + 1] == formatted[previous..i] + [formatted[i]];
  }

  /** fromEncapsulation, returning the Base64 text it would decode. */
  method FromEncapsulation(encapsulated: string, header: string) returns (r: Result<Option<string>>)
    ensures r == Encapsulated(encapsulated, header)
  {
    var found := FindEncapsulation(encapsulated, header);
    if found.Err? {
      return Err(found.error);
    }
    if found.value.None? {
      return Ok(None);
    }
    var block := found.value.value;
    var startIndex := Find(block, "-----\n", 0) + 6;
    var endIndex := Find(block, "\n-----", startIndex);
    if endIndex < 0 {
      return Err(IndexOutOfBounds);
    }
    var base64 := StripNewlines(block[startIndex..endIndex]);
    return Ok(Some(base64));
  }

  /** A window containing a position where the text and the pattern differ is no occurrence. */
  lemma MismatchAt(s: string, pat: string, k: int, m: int)
    requires 0 <= k <= m < |s| && m < k + |pat| && s[m] != pat[m - k]
    ensures !OccursAt(s, pat, k)
  {
    if k + |pat| <= |s| {
      assert s[k..k + |pat|][m - k] == s[m];
    }
  }

  /** The positions of a made block. */
  lemma MadeLayout(data: string, inner: string, header: string)
    requires data == MakeEncapsulation(inner, header)
    ensures var b, q := |BeginMarker(header)|, |BeginMarker(header)| + 1 + |inner|;
      |data| == q + 1 + |EndMarker(header)| + 1
      && data[..b] == BeginMarker(header) && data[b] == EOL
      && data[b + 1..q] == inner && data[q] == EOL
      && data[q + 1..q + 1 + |EndMarker(header)|] == EndMarker(header)
  {
  }

  /** In a made block the first END marker is the real one. */
  lemma MadeEndMarker(data: string, inner: string, header: string)
    requires data == MakeEncapsulation(inner, header) && EOL !in header && '-' !in inner
    ensures Find(data, EndMarker(header), 0) == |BeginMarker(header)| + 1 + |inner| + 1
  {
    MadeLayout(data, inner, header);
    var q := |BeginMarker(header)| + 1 + |inner|;
    assert data[q + 1..q + 1 + |EndMarker(header)|] == EndMarker(header);
    forall k | 0 <= k < q + 1
      ensures !OccursAt(data, EndMarker(header), k)
    {
      NoEarlyEndMarker(data, inner, header, k);
    }
    FindIs(data, EndMarker(header), 0, q + 1);
  }

  lemma NoEarlyEndMarker(data: string, inner: string, header: string, k: int)
    requires data == MakeEncapsulation(inner, header) && EOL !in header && '-' !in inner
    requires 0 <= k < |BeginMarker(header)| + 1 + |inner| + 1
    ensures !OccursAt(data, EndMarker(header), k)
  {
    var b, q := |BeginMarker(header)|, |BeginMarker(header)| + 1 + |inner|;
    if k <= 2 {
      EndMarkerNotInBegin(data, inner, header, k);
    } else if k <= b {
      EndMarkerNotBeforeEol(data, inner, header, k, b);
    } else {
      EndMarkerNotInInner(data, inner, header, k, b, q);
    }
  }

  /** The END marker does not start in the first three characters: its "E" would meet the "B" of
      BEGIN. */
  lemma EndMarkerNotInBegin(data: string, inner: string, header: string, k: int)
    requires data == MakeEncapsulation(inner, header) && 0 <= k <= 2
    ensures !OccursAt(data, EndMarker(header), k)
  {
    assert data[5] == 'B';
    assert EndMarker(header)[5 - k] != 'B' by { assert EndMarker(header)[..6] == "-----E"; }
    MismatchAt(data, EndMarker(header), k, 5);
  }

  /** Nor later within the BEGIN line: the EOL that ends it would fall inside the marker. */
  lemma EndMarkerNotBeforeEol(data: string, inner: string, header: string, k: int, b: int)
    requires data == MakeEncapsulation(inner, header) && EOL !in header
    requires b == |BeginMarker(header)| && 2 < k <= b
    ensures !OccursAt(data, EndMarker(header), k)
  {
    assert data[b] == EOL;
    assert EndMarker(header)[b - k] != EOL by { assert b - k < |EndMarker(header)|; }
    MismatchAt(data, EndMarker(header), k, b);
  }

  /** Nor in the inner text, which has no '-', or at the EOL after it. */
  lemma EndMarkerNotInInner(data: string, inner: string, header: string, k: int, b: int, q: int)
    requires data == MakeEncapsulation(inner, header) && '-' !in inner
    requires b == |BeginMarker(header)| && q == b + 1 + |inner| && b < k <= q
    ensures !OccursAt(data, EndMarker(header), k)
  {
    MadeLayout(data, inner, header);
    if k < q {
      assert data[k] == data[b + 1..q][k - b - 1];
    }
    MismatchAt(data, EndMarker(header), k, k);
  }

  /** The block found in a made text is the whole text but its final newline. */
  lemma MadeBlock(data: string, inner: string, header: string)
    requires data == MakeEncapsulation(inner, header) && EOL !in header && '-' !in inner
    ensures FindEncapsulation(data, header) == Ok(Some(data[..|data| - 1]))
  {
    MadeLayout(data, inner, header);
    FindIs(data, BeginMarker(header), 0, 0);
    MadeEndMarker(data, inner, header);
  }

  /** The payload of a made block is its inner text without newlines. */
  lemma MadePayload(block: string, inner: string, header: string)
    requires block == BeginMarker(header) + "\n" + inner + "\n" + EndMarker(header)
    requires EOL !in header && '-' !in inner
    ensures Payload(block) == Ok(RemoveChar(inner, EOL))
  {
    var b, q := |BeginMarker(header)|, |BeginMarker(header)| + 1 + |inner|;
    MadeStart(block, inner, header, b);
    MadeEnd(block, inner, header, b, q);
    assert block[b + 1..q] == inner;
  }

  /** In a made block the first "-----\n" closes the BEGIN line. */
  lemma MadeStart(block: string, inner: string, header: string, b: int)
    requires block == BeginMarker(header) + "\n" + inner + "\n" + EndMarker(header)
    requires EOL !in header && b == |BeginMarker(header)|
    ensures Find(block, "-----\n", 0) == b - 5
  {
    assert block[..b] == BeginMarker(header) && block[b] == EOL;
    assert block[b - 5..b + 1] == "-----\n";
    forall k | 0 <= k < b - 5
      ensures !OccursAt(block, "-----\n", k)
    {
      assert block[k + 5] == BeginMarker(header)[k + 5] != EOL;
      MismatchAt(block, "-----\n", k, k + 5);
    }
    FindIs(block, "-----\n", 0, b - 5);
  }

  /** In a made block the next "\n-----" after the BEGIN line opens the END line. */
  lemma MadeEnd(block: string, inner: string, header: string, b: int, q: int)
    requires block == BeginMarker(header) + "\n" + inner + "\n" + EndMarker(header)
    requires '-' !in inner && b == |BeginMarker(header)| && q == b + 1 + |inner|
    ensures Find(block, "\n-----", b + 1) == q
  {
    assert block[b + 1..q] == inner && block[q] == EOL;
    assert block[q + 1..] == EndMarker(header);
    assert EndMarker(header)[..5] == "-----";
    assert block[q + 1..q + 6] == EndMarker(header)[..5];
    assert block[q..q + 6] == [block[q]] + block[q + 1..q + 6];
    forall k | b + 1 <= k < q
      ensures !OccursAt(block, "\n-----", k)
    {
      assert block[k + 1] == '-' ==> k + 1 < q && block[b + 1..q][k - b] in inner
        by { if k + 1 == q { assert block[q] == EOL; } }
      MismatchAt(block, "\n-----", k, k + 1);
    }
    FindIs(block, "\n-----", b + 1, q);
  }

  /** Round trip of the armor: a block made from a Base64 text gives that text back, with the
      encoder's line breaks removed. */
  lemma EncapsulationRoundTrip(inner: string, header: string)
    requires EOL !in header && '-' !in inner
    ensures Encapsulated(MakeEncapsulation(inner, header), header) == Ok(Some(RemoveChar(inner, EOL)))
  {
    var data := MakeEncapsulation(inner, header);
    MadeBlock(data, inner, header);
    var block := data[..|data| - 1];
    assert block == BeginMarker(header) + "\n" + inner + "\n" + EndMarker(header);
    MadePayload(block, inner, header);
  }

  // ---------------------------------------------------------------------------------------------
  // Comments and blank lines

  /** removeComments: repeatedly cut the text from the first '#' through the next EOL. The
      source's loop never ends when a '#' has no later EOL (the cut then appends the whole text
      to its own prefix); that case is None here. */
  function StripComments(text: string): (r: Option<string>)
    ensures r.Some? ==> '#' !in r.value
    decreases |text|, 1
  {
    var poundIndex := IndexOf(text, '#');
    if poundIndex < 0 then Some(text)
    else StripFrom(text, poundIndex, Find(text, [EOL], poundIndex))
  }

  /** The rest of removeComments once the first '#' is at poundIndex and the next EOL at eol
      (-1 when there is none). */
  function StripFrom(text: string, poundIndex: int, eol: int): (r: Option<string>)
    requires 0 <= poundIndex < |text| && (eol == -1 || poundIndex <= eol < |text|)
    ensures r.Some? ==> '#' !in r.value
    decreases |text|, 0
  {
    if eol < 0 then None
    else StripComments(text[..poundIndex] + text[eol + 1..])
  }

  /** Every '#' has an EOL somewhere after it. */
  predicate CommentsClosed(text: string) {
    forall i :: 0 <= i < |text| && text[i] == '#' ==> EOL in text[i..]
  }

  /** One cut keeps the property. */
  lemma CutKeepsClosed(text: string, p: int, e: int)
    requires 0 <= p <= e < |text| && '#' !in text[..p] && text[p] == '#' && text[e] == EOL
    ensures CommentsClosed(text[..p] + text[e + 1..]) <==> CommentsClosed(text)
  {
    var t := text[..p] + text[e + 1..];
    if CommentsClosed(t) {
      forall i | 0 <= i < |text| && text[i] == '#'
        ensures EOL in text[i..]
      {
        if p <= i <= e {
          assert text[i..][e - i] == EOL;
        } else if e < i {
          var j := i - (e + 1) + p;
          assert t[j] == text[i];
          assert t[j..] == text[i..];
        }
      }
    }
    if CommentsClosed(text) {
      forall j | 0 <= j < |t| && t[j] == '#'
        ensures EOL in t[j..]
      {
        if p <= j {
          var i := j - p + e + 1;
          assert t[j] == text[i];
          assert t[j..] == text[i..];
        }
      }
    }
  }

  /** removeComments ends exactly when every '#' has a later EOL. */
  lemma {:induction false} StripCommentsTerminates(text: string)
    ensures StripComments(text).Some? <==> CommentsClosed(text)
    decreases |text|
  {
    if '#' in text {
      var p := IndexOf(text, '#');
      var e := Find(text, [EOL], p);
      if e < 0 {
        FindCharNone(text, EOL, p);
      } else {
        FindCharGap(text, EOL, p, e);
        CutKeepsClosed(text, p, e);
        StripCommentsTerminates(text[..p] + text[e + 1..]);
      }
    }
  }

  function Prepend(a: string, r: Option<string>): Option<string> {
    if r.Some? then Some(a + r.value) else None
  }

  /** One step of removeComments, at the first '#' (position p) and the EOL after it (position e). */
  lemma StripCommentsCut(t: string, p: int, e: int, rest: string)
    requires p == IndexOf(t, '#') && p >= 0 && e == Find(t, [EOL], p) && e >= 0
    requires e < |t| && rest == t[..p] + t[e + 1..]
    ensures StripComments(t) == StripComments(rest)
  {
  }

  lemma StripCommentsNone(t: string)
    requires '#' !in t
    ensures StripComments(t) == Some(t)
  {
  }

  lemma StripCommentsUnclosed(t: string, p: int)
    requires p == IndexOf(t, '#') && p >= 0 && Find(t, [EOL], p) < 0
    ensures StripComments(t) == None
  {
  }

  /** Text before the first '#' is kept unchanged. */
  lemma {:induction false} StripCommentsPrefix(a: string, b: string)
    requires '#' !in a
    ensures StripComments(a + b) == Prepend(a, StripComments(b))
    decreases |b|, 2
  {
    if '#' !in b {
      assert '#' !in a + b;
      StripCommentsNone(b);
      StripCommentsNone(a + b);
    } else if Find(b, [EOL], IndexOf(b, '#')) < 0 {
      PrefixCommentUnclosed(a, b, IndexOf(b, '#'), |a| + IndexOf(b, '#'));
    } else {
      StripCommentsPrefixCut(a, b, IndexOf(b, '#'), Find(b, [EOL], IndexOf(b, '#')), |a| + IndexOf(b, '#'),
        |a| + Find(b, [EOL], IndexOf(b, '#')));
    }
  }

  /** The case of StripCommentsPrefix where b has an unclosed comment at pb, which lies at p in a + b. */
  lemma PrefixCommentUnclosed(a: string, b: string, pb: int, p: int)
    requires '#' !in a && pb == IndexOf(b, '#') && pb >= 0 && Find(b, [EOL], pb) < 0 && p == |a| + pb
    ensures StripComments(a + b) == None && StripComments(b) == None
  {
    PrefixFirstComment(a, b, pb, p);
    FindShift(a, b, [EOL], pb, p);
    StripCommentsUnclosed(b, pb);
    StripCommentsUnclosed(a + b, p);
  }

  /** The case of StripCommentsPrefix where b's first comment runs from pb to eb, which lie at p and
      e in a + b. */
  lemma {:induction false} StripCommentsPrefixCut(a: string, b: string, pb: int, eb: int, p: int, e: int)
    requires '#' !in a && pb == IndexOf(b, '#') && pb >= 0 && eb == Find(b, [EOL], pb) && eb >= 0
    requires p == |a| + pb && e == |a| + eb
    ensures StripComments(a + b) == Prepend(a, StripComments(b))
    decreases |b|, 1
  {
    PrefixFirstComment(a, b, pb, p);
    FindShift(a, b, [EOL], pb, p);
    StripCommentsCut(a + b, p, e, (a + b)[..p] + (a + b)[e + 1..]);
    StripCommentsCut(b, pb, eb, b[..pb] + b[eb + 1..]);
    PrefixCut(a, b, pb, eb, p, e);
    StripCommentsPrefix(a, b[..pb] + b[eb + 1..]);
  }

  /** Behind a prefix free of '#', the first '#' of b at pb is the first of a + b, at p. */
  lemma PrefixFirstComment(a: string, b: string, pb: int, p: int)
    requires '#' !in a && pb == IndexOf(b, '#') && pb >= 0 && p == |a| + pb
    ensures IndexOf(a + b, '#') == p
  {
    assert (a + b)[..p] == a + b[..pb];
    IndexOfIs(a + b, '#', p);
  }

  lemma PrefixCut(a: string, b: string, pb: int, eb: int, p: int, e: int)
    requires 0 <= pb <= eb < |b| && p == |a| + pb && e == |a| + eb
    ensures (a + b)[..p] + (a + b)[e + 1..] == a + (b[..pb] + b[eb + 1..])
  {
    assert (a + b)[..p] == a + b[..pb];
    assert (a + b)[e + 1..] == b[eb + 1..];
  }

  /** Searching after a prefix is searching in the rest: from position from of b, which is position
      at of a + b. */
  lemma {:induction false} FindShift(a: string, b: string, pat: string, from: nat, at: nat)
    requires at == |a| + from
    ensures Find(a + b, pat, at) == if Find(b, pat, from) < 0 then -1 else |a| + Find(b, pat, from)
    decreases |b| - from
  {
    if at + |pat| <= |a + b| {
      assert (a + b)[at..at + |pat|] == b[from..from + |pat|];
      if b[from..from + |pat|] != pat {
        FindShift(a, b, pat, from + 1, at + 1);
      }
    }
  }

  /** A comment, from '#' through its EOL, is removed and nothing else is. */
  lemma CommentRemoved(a: string, c: string, b: string)
    requires '#' !in a && EOL !in c
    ensures StripComments(a + "#" + c + [EOL] + b) == Prepend(a, StripComments(b))
  {
    var s := a + "#" + c + [EOL] + b;
    var p, e := |a|, |a| + 1 + |c|;
    assert s[..p] == a;
    IndexOfIs(s, '#', p);
    forall k | p <= k < e
      ensures !OccursAt(s, [EOL], k)
    {
      OccursAtChar(s, EOL, k);
      if k > p {
        assert s[k] == c[k - p - 1];
      }
    }
    OccursAtChar(s, EOL, e);
    FindIs(s, [EOL], p, e);
    assert s[..p] + s[e + 1..] == a + b;
    StripCommentsPrefix(a, b);
  }

  method RemoveComments(text: string) returns (r: Option<string>)
    ensures r == StripComments(text)
  {
    var t := text;
    while '#' in t
      invariant StripComments(t) == StripComments(text)
      decreases |t|
    {
      var poundIndex := IndexOf(t, '#');
      var eol := Find(t, [EOL], poundIndex);
      if eol < 0 {
        return None;
      }
      t := t[..poundIndex] + t[eol + 1..];
    }
    return Some(t);
  }

  /** removeBlankLines: the non-empty lines, each followed by EOL. */
  function BlankLinesRemoved(text: string): string {
    JoinTerminated(Split(text, EOL), EOL)
  }

  /** No line is empty and every line ends with EOL. */
  predicate NoBlankLines(r: string) {
    (forall i :: 0 <= i < |r| && r[i] == EOL ==> 0 < i && r[i - 1] != EOL)
    && (|r| > 0 ==> r[|r| - 1] == EOL)
  }

  lemma {:induction false} TerminatedLinesNotBlank(lines: seq<string>)
    requires ValidPieces(lines, EOL)
    ensures NoBlankLines(JoinTerminated(lines, EOL))
  {
    if lines != [] {
      var rest := JoinTerminated(lines[1..], EOL);
      TerminatedLinesNotBlank(lines[1..]);
      var head := lines[0] + [EOL];
      var r := head + rest;
      assert JoinTerminated(lines, EOL) == r;
      forall i | 0 <= i < |r| && r[i] == EOL
        ensures 0 < i && r[i - 1] != EOL
      {
        if i == |lines[0]| {
          assert r[i - 1] == lines[0][i - 1];
        } else if i > |lines[0]| {
          var j := i - |head|;
          assert r[i] == rest[j];
          assert r[i - 1] == rest[j - 1];
        }
      }
      if |rest| > 0 {
        assert r[|r| - 1] == rest[|rest| - 1];
      }
    }
  }

  lemma {:induction false} RemoveCharJoinTerminated(lines: seq<string>)
    ensures RemoveChar(JoinTerminated(lines, EOL), EOL) == RemoveChar(Flatten(lines), EOL)
  {
    if lines != [] {
      RemoveCharJoinTerminated(lines[1..]);
      RemoveCharAppend(lines[0] + [EOL], JoinTerminated(lines[1..], EOL), EOL);
      RemoveCharAppend(lines[0], [EOL], EOL);
      RemoveCharAppend(lines[0], Flatten(lines[1..]), EOL);
    }
  }

  /** removeBlankLines leaves only non-empty lines, each terminated by EOL, and keeps every
      character other than EOL in order. */
  lemma BlankLinesRemovedShape(text: string)
    ensures NoBlankLines(BlankLinesRemoved(text))
    ensures RemoveChar(BlankLinesRemoved(text), EOL) == RemoveChar(text, EOL)
  {
    SplitValid(text, EOL);
    TerminatedLinesNotBlank(Split(text, EOL));
    RemoveCharJoinTerminated(Split(text, EOL));
    SplitKeepsContent(text, EOL);
    RemoveCharAbsentTwice(RemoveChar(text, EOL));
  }

  lemma RemoveCharAbsentTwice(s: string)
    requires EOL !in s
    ensures RemoveChar(s, EOL) == s
  {
    RemoveCharAbsent(s, EOL);
  }

  /** Removing blank lines twice is removing them once. */
  lemma BlankLinesRemovedIdempotent(text: string)
    ensures BlankLinesRemoved(BlankLinesRemoved(text)) == BlankLinesRemoved(text)
  {
    SplitValid(text, EOL);
    SplitJoinTerminated(Split(text, EOL), EOL);
  }

  method RemoveBlankLines(text: string) returns (withoutBlankLines: string)
    ensures withoutBlankLines == BlankLinesRemoved(text)
  {
    var nonBlankLines := StringSplitChar(text, EOL);
    withoutBlankLines := AppendTerminated(nonBlankLines, EOL);
  }

  /** removeAnnotations: comments, then blank lines. */
  function CleanText(text: string): Option<string> {
    match StripComments(text)
    case None => None
    case Some(t) => Some(BlankLinesRemoved(t))
  }

  method RemoveAnnotations(text: string) returns (r: Option<string>)
    ensures r == CleanText(text)
  {
    var t := RemoveComments(text);
    if t.None? {
      return None;
    }
    var u := RemoveBlankLines(t.value);
    return Some(u);
  }

  /** Cleaning ends exactly when every '#' has a later EOL; cleaned text holds no comment and no
      blank line, and cleaning it again changes nothing. */
  lemma CleanTextProperties(text: string)
    ensures CleanText(text).Some? <==> CommentsClosed(text)
    ensures CleanText(text).Some? ==>
      var r := CleanText(text).value;
      '#' !in r && NoBlankLines(r) && CleanText(r) == Some(r)
  {
    StripCommentsTerminates(text);
    if StripComments(text).Some? {
      var t := StripComments(text).value;
      var r := BlankLinesRemoved(t);
      BlankLinesRemovedShape(t);
      SplitAvoids(t, EOL, '#');
      JoinTerminatedAvoids(Split(t, EOL), EOL, '#');
      BlankLinesRemovedIdempotent(t);
    }
  }

  /** The files the modelled code reads and writes: for each path, the text fromFile returns,
      one character per byte of the file (ByteForm). */
  type Files = map<string, string>

  /** A character fromFile can return: ByteToString widens each byte with its sign, so a byte
      below 0x80 is that character and any other lands in U+FF80..U+FFFF. */
  predicate ByteChar(c: char) {
    c as int < 0x80 || 0xFF80 <= c as int < 0x1_0000
  }

  predicate ByteForm(text: string) {
    forall k :: 0 <= k < |text| ==> ByteChar(text[k])
  }

  /** toFile(text) followed by fromFile: DataOutputStream.writeBytes keeps the low byte of each
      character, and ByteToString widens that byte again with its sign. */
  function Written(text: string): (r: string)
    ensures |r| == |text|
  {
    seq(|text|, k requires 0 <= k < |text| => Bytes.Widened(Bytes.Narrowed(text[k])) as char)
  }

  /** A character comes back from a write exactly when it is one fromFile can return. */
  lemma WrittenChar(c: char)
    ensures ByteChar(Bytes.Widened(Bytes.Narrowed(c)) as char)
    ensures Bytes.Widened(Bytes.Narrowed(c)) as char == c <==> ByteChar(c)
  {
    var low := c as int % 256;
    if ByteChar(c) && c as int >= 0x80 {
      assert low == c as int - 0xFF00;
    }
  }

  /** Text comes back from a write unchanged exactly when it is in the form fromFile returns;
      whatever is written reads back in that form. */
  lemma WrittenKeeps(text: string)
    ensures ByteForm(Written(text))
    ensures Written(text) == text <==> ByteForm(text)
  {
    forall k | 0 <= k < |text|
      ensures ByteChar(Written(text)[k])
      ensures Written(text)[k] == text[k] <==> ByteChar(text[k])
    {
      WrittenChar(text[k]);
    }
    if !ByteForm(text) {
      var k :| 0 <= k < |text| && !ByteChar(text[k]);
      assert Written(text)[k] != text[k];
    }
  }

  lemma WrittenAppend(a: string, b: string)
    ensures Written(a + b) == Written(a) + Written(b)
  {
  }

  /** A character above U+007F does not survive a write: "\u00e9" reads back as U+FFE9. */
  lemma WrittenLosesAccent()
    ensures Written("\U{E9}") == "\U{FFE9}"
  {
    assert Bytes.Narrowed('\U{E9}') == 0xE9 - 256;
  }

  /** fromFileCleaned: reading a file that does not exist raises an exception; a comment that is
      never ended is a removeComments loop that never ends. */
  function FromFileCleaned(files: Files, path: string): (r: Result<string>)
    ensures r.Ok? ==> path in files && CleanText(files[path]) == Some(r.value)
    ensures r.Err? ==> (path !in files && r.error == FileNotFound) || (path in files && r.error == Diverges)
  {
    if path !in files then Err(FileNotFound)
    else match CleanText(files[path])
      case None => Err(Diverges)
      case Some(t) => Ok(t)
  }

  /** appendFile, and toFile(fromFileCleaned(path) + text, path): the file is overwritten with its
      cleaned text followed by the new text, as writeBytes stores them; no other file changes. */
  function AppendFile(files: Files, path: string, text: string): (r: Result<Files>)
    ensures r.Ok? ==> FromFileCleaned(files, path).Ok? && r.value == files[path := Written(FromFileCleaned(files, path).value + text)]
    ensures r.Err? ==> FromFileCleaned(files, path).Err? && r.error == FromFileCleaned(files, path).error
  {
    match FromFileCleaned(files, path)
    case Err(e) => Err(e)
    case Ok(t) => Ok(files[path := Written(t + text)])
  }

  /** Appending to a file in the form fromFile returns keeps its cleaned text and adds the new
      text as it comes back from the write. */
  lemma AppendWritten(files: Files, path: string, text: string)
    requires FromFileCleaned(files, path).Ok? && ByteForm(files[path])
    ensures ByteForm(FromFileCleaned(files, path).value)
    ensures AppendFile(files, path, text) == Ok(files[path := FromFileCleaned(files, path).value + Written(text)])
  {
    var t := FromFileCleaned(files, path).value;
    CleanTextKeepsByteForm(files[path]);
    WrittenAppend(t, text);
    WrittenKeeps(t);
  }

  /** Cleaning only removes characters, so text in the form fromFile returns keeps that form. */
  lemma CleanTextKeepsByteForm(text: string)
    requires ByteForm(text) && CleanText(text).Some?
    ensures ByteForm(CleanText(text).value)
  {
    var r := CleanText(text).value;
    var t := StripComments(text).value;
    forall k | 0 <= k < |r|
      ensures ByteChar(r[k])
    {
      var x := r[k];
      if !ByteChar(x) {
        assert x !in text;
        StripCommentsAvoids(text, x);
        SplitAvoids(t, EOL, x);
        JoinTerminatedAvoids(Split(t, EOL), EOL, x);
        assert false;
      }
    }
  }

  /** A character absent from the text is absent once the comments are cut. */
  lemma {:induction false} StripCommentsAvoids(text: string, x: char)
    requires x !in text && StripComments(text).Some?
    ensures x !in StripComments(text).value
    decreases |text|
  {
    var p := IndexOf(text, '#');
    if p >= 0 {
      var e := Find(text, [EOL], p);
      var cut := text[..p] + text[e + 1..];
      assert x !in text[..p] && x !in text[e + 1..];
      StripCommentsAvoids(cut, x);
    }
  }

  /** Cleaned text followed by one more line that holds no comment is read back unchanged. */
  lemma CleanAppendedLine(t: string, line: string)
    requires CleanText(t) == Some(t)
    requires |line| > 0 && EOL !in line && '#' !in line
    ensures CleanText(t + line + [EOL]) == Some(t + line + [EOL])
  {
    CleanTextProperties(t);
    StripCommentsNone(t);
    assert BlankLinesRemoved(t) == t;
    SplitValid(t, EOL);
    JoinTerminatedOne(line, EOL);
    JoinTerminatedAppend(Split(t, EOL), [line], EOL);
    var lines := Split(t, EOL) + [line];
    assert JoinTerminated(lines, EOL) == t + line + [EOL];
    assert ValidPieces(lines, EOL) by {
      forall i | 0 <= i < |lines|
        ensures |lines[i]| > 0 && EOL !in lines[i]
      {
        if i < |lines| - 1 {
          assert lines[i] == Split(t, EOL)[i];
        }
      }
    }
    SplitJoinTerminated(lines, EOL);
    StripCommentsNone(t + line + [EOL]);
  }

  /** A file that reads back stays readable after appending text that ends its line: every
      comment it could open is closed by that final EOL. */
  lemma AppendKeepsReadable(files: Files, path: string, text: string)
    requires FromFileCleaned(files, path).Ok?
    requires |text| > 0 && text[|text| - 1] == EOL
    ensures AppendFile(files, path, text).Ok?
    ensures FromFileCleaned(AppendFile(files, path, text).value, path).Ok?
  {
    var t := FromFileCleaned(files, path).value;
    var u := Written(t + text);
    WrittenChar(EOL);
    assert u[|u| - 1] == EOL;
    forall i | 0 <= i < |u| && u[i] == '#'
      ensures EOL in u[i..]
    {
      assert u[i..][|u| - 1 - i] == EOL;
    }
    CleanTextProperties(u);
  }
}
