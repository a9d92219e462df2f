/** Question.java and StaticQuestion.java: a question with fixed text and accepted answers, its
    tag list, its one-line file form, and the rule that decides whether a response is right. */
module Questions {
  import opened Wrappers
  import opened Text
  import opened Utilities

  const QUESTION_TAG: string := "Question"
  const STATIC_TAG: string := "StaticQuestion"
  /** How the file form writes an empty set of ignored characters. */
  const NULL_FIELD: string := "**"

  /** Question.isStatic: a line describes a static question when its first character is 's';
      an empty line has no first character. */
  function IsStatic(fileLine: string): (r: Result<bool>)
    ensures r.Err? <==> fileLine == []
    ensures r.Ok? ==> (r.value <==> 's' in fileLine[..1])
  {
    if fileLine == [] then Err(IndexOutOfBounds) else Ok(fileLine[0] == 's')
  }

  // ---------------------------------------------------------------------------------------------
  // Answer checking

  /** Deletes every occurrence of each ignored character in turn, as checkAnswer's inner loop
      does with String.replace. */
  function Strip(s: string, ignore: seq<char>): string
    decreases |ignore|
  {
    if ignore == [] then s else RemoveChar(Strip(s, ignore[..|ignore| - 1]), ignore[|ignore| - 1])
  }

  /** The characters of s that are not ignored, in order: the reference meaning of Strip. */
  function Keep(s: string, ignore: seq<char>): string {
    if s == [] then [] else (if s[0] in ignore then [] else [s[0]]) + Keep(s[1..], ignore)
  }

  /** The transformation checkAnswer applies to both sides: optional lowercasing, then removal
      of every ignored character. */
  function Normalize(s: string, ignoreCaps: bool, ignore: seq<char>): string {
    Strip(if ignoreCaps then ToLower(s) else s, ignore)
  }

  /** The response is accepted when it matches some correct answer after both are normalised. */
  predicate Accepts(correctAnswers: seq<string>, ignoreCaps: bool, ignore: seq<char>, answer: string) {
    exists k :: 0 <= k < |correctAnswers|
      && Normalize(correctAnswers[k], ignoreCaps, ignore) == Normalize(answer, ignoreCaps, ignore)
  }

  lemma {:induction false} KeepAppend(a: string, b: string, ignore: seq<char>)
    ensures Keep(a + b, ignore) == Keep(a, ignore) + Keep(b, ignore)
  {
    if a != [] {
      assert (a + b)[1..] == a[1..] + b;
      KeepAppend(a[1..], b, ignore);
    } else {
      assert a + b == b;
    }
  }

  lemma {:induction false} KeepSnoc(s: string, ignore: seq<char>, c: char)
    ensures Keep(s, ignore + [c]) == RemoveChar(Keep(s, ignore), c)
  {
    if s != [] {
      KeepSnoc(s[1..], ignore, c);
      var head: string := if s[0] in ignore then [] else [s[0]];
      assert Keep(s, ignore) == head + Keep(s[1..], ignore);
      RemoveCharAppend(head, Keep(s[1..], ignore), c);
    }
  }

  /** Deleting the ignored characters one kind at a time keeps exactly the other characters. */
  lemma {:induction false} StripIsKeep(s: string, ignore: seq<char>)
    ensures Strip(s, ignore) == Keep(s, ignore)
    decreases |ignore|
  {
    if ignore == [] {
      KeepNone(s, ignore);
    } else {
      var init := ignore[..|ignore| - 1];
      StripIsKeep(s, init);
      assert ignore == init + [ignore[|ignore| - 1]];
      KeepSnoc(s, init, ignore[|ignore| - 1]);
    }
  }

  lemma {:induction false} KeepNone(s: string, ignore: seq<char>)
    requires ignore == []
    ensures Keep(s, ignore) == s
  {
    if s != [] {
      KeepNone(s[1..], ignore);
    }
  }

  lemma ToLowerAround(x: string, c: char, y: string)
    ensures ToLower(x + [c] + y) == ToLower(x) + [LowerChar(c)] + ToLower(y)
    ensures ToLower(x + y) == ToLower(x) + ToLower(y)
  {
  }

  /** Deleting ignored characters: an ignored character between two texts disappears. */
  lemma StripInsertion(u: string, c: char, w: string, ignore: seq<char>)
    requires c in ignore
    ensures Strip(u + [c] + w, ignore) == Strip(u + w, ignore)
  {
    StripIsKeep(u + [c] + w, ignore);
    StripIsKeep(u + w, ignore);
    KeepInsertion(u, c, w, ignore);
  }

  lemma KeepInsertion(u: string, c: char, w: string, ignore: seq<char>)
    requires c in ignore
    ensures Keep(u + [c] + w, ignore) == Keep(u + w, ignore)
  {
    KeepAppend(u + [c], w, ignore);
    KeepAppend(u, [c], ignore);
    KeepAppend(u, w, ignore);
    assert Keep([c], ignore) == [];
    assert Keep(u, ignore) + [] == Keep(u, ignore);
  }

  /** Inserting an ignored character anywhere leaves the normal form unchanged. With case
      folding on, it is the folded character that must be ignored. */
  lemma IgnoredInsertion(x: string, c: char, y: string, ignoreCaps: bool, ignore: seq<char>)
    requires (if ignoreCaps then LowerChar(c) else c) in ignore
    ensures Normalize(x + [c] + y, ignoreCaps, ignore) == Normalize(x + y, ignoreCaps, ignore)
  {
    if ignoreCaps {
      ToLowerAround(x, c, y);
      StripInsertion(ToLower(x), LowerChar(c), ToLower(y), ignore);
    } else {
      StripInsertion(x, c, y, ignore);
    }
  }

  /** Every stored answer is accepted verbatim, and so is any stored answer with one ignored
      character inserted. */
  lemma AcceptsStoredAnswers(correctAnswers: seq<string>, ignoreCaps: bool, ignore: seq<char>, k: int,
                             x: string, c: char, y: string)
    requires 0 <= k < |correctAnswers|
    requires correctAnswers[k] == x + y
    requires (if ignoreCaps then LowerChar(c) else c) in ignore
    ensures Accepts(correctAnswers, ignoreCaps, ignore, correctAnswers[k])
    ensures Accepts(correctAnswers, ignoreCaps, ignore, x + [c] + y)
  {
    IgnoredInsertion(x, c, y, ignoreCaps, ignore);
  }

  // ---------------------------------------------------------------------------------------------
  // The file form

  /** Everything a static question carries, as a value. */
  datatype QuestionData = QuestionData(
    correctAnswers: seq<string>, question: string, ignoreCaps: bool, ignoreChars: seq<char>, tags: seq<string>)

  /** The third pre-brace field: "**" stands for no ignored characters. */
  function IgnoreOf(field: string): seq<char> {
    if field == NULL_FIELD then [] else field
  }

  /** The field values of a decoded line: the pre-brace fields (only [1], [2] and [3] are read),
      the correct answers and the tag pieces. */
  function Assemble(fields: seq<string>, answers: seq<string>, tagPieces: seq<string>): Result<QuestionData> {
    if |fields| < 4 then Err(IndexOutOfBounds)
    else Ok(QuestionData(answers, fields[3], fields[1] == "y", IgnoreOf(fields[2]), [QUESTION_TAG] + tagPieces + [STATIC_TAG]))
  }

  /** The decoding constructor with the case flag read as intended. The answers lie between the
      first '{' and the first '}', the fields before the '{', the tags after the '}'; a missing
      brace, a '}' before the '{' or fewer than four fields is an index error. */
  function ParseLine(line: string): (r: Result<QuestionData>)
    ensures r.Ok? ==> '{' in line && '}' in line
    ensures r.Ok? ==> |r.value.tags| >= 2 && r.value.tags[0] == QUESTION_TAG && r.value.tags[|r.value.tags| - 1] == STATIC_TAG
  {
    ParseAround(line, IndexOf(line, '{'), IndexOf(line, '}'))
  }

  /** The decoder given the positions of the first '{' and the first '}' (-1 when absent). */
  function ParseAround(line: string, open: int, close: int): Result<QuestionData>
    requires -1 <= open < |line| && -1 <= close < |line|
  {
    if close < open + 1 || open < 0 then Err(IndexOutOfBounds)
    else Assemble(Split(line[..open], TAB), Split(line[open + 1..close], TAB), Split(line[close + 1..], TAB))
  }

  /** The decoding constructor as written: fields[1] is compared with the character 'y', which
      no String equals, so the flag is always false. */
  function ParseLineAsWritten(line: string): Result<QuestionData> {
    match ParseLine(line)
    case Ok(d) => Ok(d.(ignoreCaps := false))
    case Err(e) => Err(e)
  }

  function CapsField(ignoreCaps: bool): string {
    if ignoreCaps then "y" else "n"
  }

  /** The tags that follow the two the decoder adds by itself. */
  function ExplicitTags(tags: seq<string>): seq<string> {
    if |tags| >= 2 && tags[0] == QUESTION_TAG && tags[|tags| - 1] == STATIC_TAG then tags[1..|tags| - 1] else tags
  }

  function Layout(prefix: string, answers: seq<string>, tagPieces: seq<string>): string {
    prefix + "{" + JoinTerminated(answers, TAB) + "}" + [TAB] + JoinTerminated(tagPieces, TAB)
  }

  function Prefix(ignoreCaps: bool, ignoreField: string, question: string): string {
    "s" + [TAB] + CapsField(ignoreCaps) + [TAB] + ignoreField + [TAB] + question + [TAB]
  }

  /** toString as written: the ignored characters verbatim, so an empty set leaves an empty
      field, and all tags, including the two the decoder adds again. */
  function EncodeAsWritten(d: QuestionData): string {
    Layout(Prefix(d.ignoreCaps, d.ignoreChars, d.question), d.correctAnswers, d.tags)
  }

  /** toString as intended: an empty set of ignored characters is written "**", and only the
      explicit tags are listed. */
  function Encode(d: QuestionData): string {
    Layout(Prefix(d.ignoreCaps, if d.ignoreChars == [] then NULL_FIELD else d.ignoreChars, d.question),
           d.correctAnswers, ExplicitTags(d.tags))
  }

  /** Free of the characters the grammar reserves. */
  predicate Plain(s: string) {
    TAB !in s && '{' !in s && '}' !in s
  }

  /** A question the file form can carry. */
  predicate WellFormed(d: QuestionData) {
    && |d.question| > 0 && Plain(d.question)
    && Plain(d.ignoreChars) && d.ignoreChars != NULL_FIELD
    && ValidPieces(d.correctAnswers, TAB) && (forall i :: 0 <= i < |d.correctAnswers| ==> '}' !in d.correctAnswers[i])
    && |d.tags| >= 2 && d.tags[0] == QUESTION_TAG && d.tags[|d.tags| - 1] == STATIC_TAG
    && ValidPieces(d.tags[1..|d.tags| - 1], TAB)
  }

  lemma BraceFree(answers: seq<string>, tagPieces: seq<string>)
    requires forall i :: 0 <= i < |answers| ==> '}' !in answers[i]
    ensures '}' !in JoinTerminated(answers, TAB)
  {
    JoinTerminatedAvoids(answers, TAB, '}');
  }

  /** Where the braces of a laid-out line are, and what lies around them. */
  lemma BracePositions(line: string, prefix: string, a: string, t: string)
    requires line == prefix + "{" + a + "}" + [TAB] + t
    requires '{' !in prefix && '}' !in prefix && '}' !in a
    ensures IndexOf(line, '{') == |prefix| && IndexOf(line, '}') == |prefix| + 1 + |a|
    ensures line[..|prefix|] == prefix && line[|prefix| + 1..|prefix| + 1 + |a|] == a
    ensures line[|prefix| + 1 + |a| + 1..] == [TAB] + t
  {
    BracesOf(line, prefix, a, prefix + "{" + a, t);
  }

  lemma BracesOf(line: string, prefix: string, a: string, front: string, t: string)
    requires line == front + "}" + [TAB] + t && front == prefix + "{" + a
    requires '{' !in prefix && '}' !in prefix && '}' !in a
    ensures IndexOf(line, '{') == |prefix| && IndexOf(line, '}') == |front| && |front| == |prefix| + 1 + |a|
    ensures line[..|prefix|] == prefix && line[|prefix| + 1..|front|] == a && line[|front| + 1..] == [TAB] + t
  {
    assert line == front + ['}'] + ([TAB] + t);
    FirstAt(line, front, '}', [TAB] + t);
    FirstAt(front, prefix, '{', a);
    assert line[..|prefix|] == front[..|prefix|];
    assert line[|prefix| + 1..|front|] == front[|prefix| + 1..];
    IndexOfIs(line, '{', |prefix|);
  }

  /** The first c of x + [c] + y, for c not in x, is the one shown. */
  lemma FirstAt(line: string, x: string, c: char, y: string)
    requires line == x + [c] + y && c !in x
    ensures IndexOf(line, c) == |x| && line[..|x|] == x && line[|x| + 1..] == y
  {
    assert line[..|x|] == x;
    IndexOfIs(line, c, |x|);
  }

  /** The decoder once the braces are found. */
  lemma ParseAt(line: string, open: int, close: int, fields: string, answers: string, tags: string)
    requires 0 <= open && open + 1 <= close
    requires IndexOf(line, '{') == open && IndexOf(line, '}') == close
    requires line[..open] == fields && line[open + 1..close] == answers && line[close + 1..] == tags
    ensures ParseLine(line) == Assemble(Split(fields, TAB), Split(answers, TAB), Split(tags, TAB))
  {
  }

  /** What the decoder yields from the pieces of the three parts around the braces. */
  lemma ParsedFields(line: string, open: int, close: int, answers: seq<string>, fields: seq<string>, tagPieces: seq<string>)
    requires 0 <= open && open + 1 <= close
    requires IndexOf(line, '{') == open && IndexOf(line, '}') == close
    requires answers == Split(line[open + 1..close], TAB) && fields == Split(line[..open], TAB)
    requires tagPieces == Split(line[close + 1..], TAB)
    ensures |fields| < 4 ==> ParseLine(line) == Err(IndexOutOfBounds)
    ensures |fields| >= 4 ==>
      ParseLine(line) == Ok(QuestionData(answers, fields[3], fields[1] == "y", IgnoreOf(fields[2]), [QUESTION_TAG] + tagPieces + [STATIC_TAG]))
  {
    ParseAt(line, open, close, line[..open], line[open + 1..close], line[close + 1..]);
  }

  /** The ignore field read character by character into the ignore set, "**" giving none. */
  method IgnoreField(field: string) returns (ignore: seq<char>)
    ensures ignore == IgnoreOf(field)
  {
    ignore := [];
    if field != NULL_FIELD {
      for i := 0 to |field|
        invariant ignore == field[..i]
      {
        ignore := ignore + [field[i]];
      }
    }
  }

  /** A laid-out line decodes to its prefix's fields, its answers and its tags. */
  lemma ParseLayout(prefix: string, answers: seq<string>, tagPieces: seq<string>)
    requires '{' !in prefix && '}' !in prefix
    requires ValidPieces(answers, TAB) && forall i :: 0 <= i < |answers| ==> '}' !in answers[i]
    requires ValidPieces(tagPieces, TAB)
    ensures ParseLine(Layout(prefix, answers, tagPieces)) == Assemble(Split(prefix, TAB), answers, tagPieces)
  {
    BraceFree(answers, tagPieces);
    SplitJoinTerminated(answers, TAB);
    SplitJoinTerminated(tagPieces, TAB);
    ParseLaidOut(Layout(prefix, answers, tagPieces), prefix, JoinTerminated(answers, TAB), JoinTerminated(tagPieces, TAB));
  }

  /** A line made of a brace-free prefix, the answers text between braces, a separator and the
      tags text decodes to the pieces of those three parts. */
  lemma ParseLaidOut(line: string, prefix: string, a: string, t: string)
    requires line == prefix + "{" + a + "}" + [TAB] + t
    requires '{' !in prefix && '}' !in prefix && '}' !in a
    ensures ParseLine(line) == Assemble(Split(prefix, TAB), Split(a, TAB), Split(t, TAB))
  {
    BracePositions(line, prefix, a, t);
    ParseAt(line, |prefix|, |prefix| + 1 + |a|, prefix, a, [TAB] + t);
    SplitAfterSeparator(t, TAB);
  }

  /** A leading separator contributes no piece. */
  lemma SplitAfterSeparator(t: string, c: char)
    ensures Split([c] + t, c) == Split(t, c)
  {
    assert [] + [c] + t == [c] + t;
    SplitAroundSeparator([], t, c);
    SplitWithoutSeparator([], c);
    assert [] + Split(t, c) == Split(t, c);
  }

  /** The pre-brace fields of a laid-out line. */
  lemma PrefixFields(ignoreCaps: bool, ignoreField: string, question: string)
    requires TAB !in ignoreField && |question| > 0 && TAB !in question
    ensures ignoreField != [] ==> Split(Prefix(ignoreCaps, ignoreField, question), TAB) == ["s", CapsField(ignoreCaps), ignoreField, question]
    ensures ignoreField == [] ==> Split(Prefix(ignoreCaps, ignoreField, question), TAB) == ["s", CapsField(ignoreCaps), question]
  {
    FixedFields(ignoreCaps);
    if ignoreField != [] {
      SplitFourTerminated("s", CapsField(ignoreCaps), ignoreField, question, TAB);
    } else {
      SplitEmptyThird("s", CapsField(ignoreCaps), question, TAB);
    }
  }

  /** The type marker and the case flag are one-character fields other than the separator. */
  lemma FixedFields(ignoreCaps: bool)
    ensures |"s"| > 0 && TAB !in "s" && |CapsField(ignoreCaps)| > 0 && TAB !in CapsField(ignoreCaps)
  {
  }

  /** Round trip: the intended encoder's line decodes back to the same question. */
  lemma DecodeEncode(d: QuestionData)
    requires WellFormed(d)
    ensures ParseLine(Encode(d)) == Ok(d)
  {
    PrefixBraceFree(d.ignoreCaps, if d.ignoreChars == [] then NULL_FIELD else d.ignoreChars, d.question);
    ParseLayout(Prefix(d.ignoreCaps, if d.ignoreChars == [] then NULL_FIELD else d.ignoreChars, d.question),
      d.correctAnswers, ExplicitTags(d.tags));
    AssembleEncoded(d);
  }

  /** The prefix fields, answers and explicit tags of a well-formed question assemble to it. */
  lemma AssembleEncoded(d: QuestionData)
    requires WellFormed(d)
    ensures Assemble(Split(Prefix(d.ignoreCaps, if d.ignoreChars == [] then NULL_FIELD else d.ignoreChars, d.question), TAB),
      d.correctAnswers, ExplicitTags(d.tags)) == Ok(d)
  {
    TagsReassemble(d.tags);
    PrefixFields(d.ignoreCaps, if d.ignoreChars == [] then NULL_FIELD else d.ignoreChars, d.question);
    AssembleFour(Split(Prefix(d.ignoreCaps, if d.ignoreChars == [] then NULL_FIELD else d.ignoreChars, d.question), TAB),
      d.ignoreCaps, if d.ignoreChars == [] then NULL_FIELD else d.ignoreChars, d.question, d.correctAnswers, ExplicitTags(d.tags));
  }

  /** Four pre-brace fields as the encoder writes them. */
  lemma AssembleFour(fields: seq<string>, ignoreCaps: bool, ignoreField: string, question: string,
                     answers: seq<string>, explicit: seq<string>)
    requires fields == ["s", CapsField(ignoreCaps), ignoreField, question]
    ensures Assemble(fields, answers, explicit)
      == Ok(QuestionData(answers, question, ignoreCaps, IgnoreOf(ignoreField), [QUESTION_TAG] + explicit + [STATIC_TAG]))
  {
    CapsFieldRead(ignoreCaps);
  }

  /** The case flag field reads back as the flag. */
  lemma CapsFieldRead(ignoreCaps: bool)
    ensures (CapsField(ignoreCaps) == "y") == ignoreCaps
  {
  }

  /** A prefix built from brace-free fields is brace-free. */
  lemma PrefixBraceFree(ignoreCaps: bool, ignoreField: string, question: string)
    requires '{' !in ignoreField && '}' !in ignoreField && '{' !in question && '}' !in question
    ensures '{' !in Prefix(ignoreCaps, ignoreField, question) && '}' !in Prefix(ignoreCaps, ignoreField, question)
  {
  }

  /** The decoder's implicit tags around the explicit ones give back the tag list. */
  lemma TagsReassemble(tags: seq<string>)
    requires |tags| >= 2 && tags[0] == QUESTION_TAG && tags[|tags| - 1] == STATIC_TAG
    ensures [QUESTION_TAG] + ExplicitTags(tags) + [STATIC_TAG] == tags
  {
  }

  /** The case flag is lost: a well-formed question that ignores capitalization does not survive
      the decoder as written, even from the intended encoding. */
  lemma CaseFlagLostAsWritten(d: QuestionData)
    requires WellFormed(d) && d.ignoreCaps
    ensures ParseLineAsWritten(Encode(d)) == Ok(d.(ignoreCaps := false))
    ensures ParseLineAsWritten(Encode(d)) != Ok(d)
  {
    DecodeEncode(d);
  }

  /** toString as written does not decode when no character is ignored: the empty ignore field
      vanishes in the split and only three pre-brace fields remain. */
  lemma EncodeAsWrittenEmptyIgnoreFails(d: QuestionData)
    requires WellFormed(d) && d.ignoreChars == []
    ensures ParseLine(EncodeAsWritten(d)) == Err(IndexOutOfBounds)
  {
    var prefix := Prefix(d.ignoreCaps, d.ignoreChars, d.question);
    assert '{' !in prefix && '}' !in prefix;
    DecodedTagsValid(d.tags);
    ParseLayout(prefix, d.correctAnswers, d.tags);
    PrefixFields(d.ignoreCaps, d.ignoreChars, d.question);
  }

  /** With some ignored character, toString as written decodes, but with the two implicit tags
      added a second time. */
  lemma EncodeAsWrittenDuplicatesTags(d: QuestionData)
    requires WellFormed(d) && d.ignoreChars != []
    ensures ParseLine(EncodeAsWritten(d)) == Ok(d.(tags := [QUESTION_TAG] + d.tags + [STATIC_TAG]))
    ensures ParseLine(EncodeAsWritten(d)) != Ok(d)
  {
    var prefix := Prefix(d.ignoreCaps, d.ignoreChars, d.question);
    assert '{' !in prefix && '}' !in prefix;
    DecodedTagsValid(d.tags);
    ParseLayout(prefix, d.correctAnswers, d.tags);
    PrefixFields(d.ignoreCaps, d.ignoreChars, d.question);
    assert |[QUESTION_TAG] + d.tags + [STATIC_TAG]| != |d.tags|;
  }

  /** The encoder's line as the concatenation of its parts. */
  lemma EncodeParts(d: QuestionData, answersText: string, tagsText: string, ignoreText: string)
    requires answersText == JoinTerminated(d.correctAnswers, TAB)
    requires tagsText == JoinTerminated(ExplicitTags(d.tags), TAB)
    requires ignoreText == if d.ignoreChars == [] then NULL_FIELD else d.ignoreChars
    ensures Encode(d) == "s" + [TAB] + CapsField(d.ignoreCaps) + [TAB] + ignoreText + [TAB] + d.question + [TAB]
      + "{" + answersText + "}" + [TAB] + tagsText
  {
  }

  lemma EncodeAsWrittenParts(d: QuestionData, answersText: string, tagsText: string)
    requires answersText == JoinTerminated(d.correctAnswers, TAB)
    requires tagsText == JoinTerminated(d.tags, TAB)
    ensures EncodeAsWritten(d) == "s" + [TAB] + CapsField(d.ignoreCaps) + [TAB] + d.ignoreChars + [TAB] + d.question + [TAB]
      + "{" + answersText + "}" + [TAB] + tagsText
  {
  }

  /** The tag list of a well-formed question is itself a list of valid pieces. */
  lemma DecodedTagsValid(tags: seq<string>)
    requires |tags| >= 2 && tags[0] == QUESTION_TAG && tags[|tags| - 1] == STATIC_TAG
    requires ValidPieces(tags[1..|tags| - 1], TAB)
    ensures ValidPieces(tags, TAB)
  {
    forall i | 0 < i < |tags| - 1
      ensures |tags[i]| > 0 && TAB !in tags[i]
    {
      assert tags[i] == tags[1..|tags| - 1][i - 1];
    }
  }

  // ---------------------------------------------------------------------------------------------
  // The question object

  /** StaticQuestion: text, answers and checking options fixed at construction; the tag list of
      Question grows through AddTag while the question is being built. */
  class StaticQuestion {
    const correctAnswers: seq<string>
    const question: string
    const ignoreCapitalization: bool
    const ignoreChars: seq<char>
    var tags: seq<string>

    /** The from-scratch constructor; Question's constructor starts the tag list with "Question". */
    constructor (inCorrect: seq<string>, inQuestion: string, inIgnoreCaps: bool, inIgnoreChars: seq<char>)
      ensures correctAnswers == inCorrect && question == inQuestion
      ensures ignoreCapitalization == inIgnoreCaps && ignoreChars == inIgnoreChars
      ensures tags == [QUESTION_TAG]
    {
      correctAnswers := inCorrect;
      question := inQuestion;
      ignoreCapitalization := inIgnoreCaps;
      ignoreChars := inIgnoreChars;
      tags := [QUESTION_TAG];
    }

    /** The whole question as a value. */
    function Data(): QuestionData
      reads this
    {
      QuestionData(correctAnswers, question, ignoreCapitalization, ignoreChars, tags)
    }

    /** addTag: appends at the end, duplicates included. */
    method AddTag(newTag: string)
      modifies this
      ensures tags == old(tags) + [newTag]
    {
      tags := tags + [newTag];
    }

    /** The constructor's loop over the tags read from the line: addTag for each, in order. */
    method AddTags(pieces: seq<string>)
      modifies this
      ensures tags == old(tags) + pieces
    {
      for i := 0 to |pieces|
        invariant tags == old(tags) + pieces[..i]
      {
        AddTag(pieces[i]);
      }
      assert pieces[..|pieces|] == pieces;
    }

    /** hasTag: some tag equals the target. */
    function HasTag(target: string): (r: bool)
      reads this
      ensures r <==> exists i :: 0 <= i < |tags| && tags[i] == target
    {
      target in tags
    }

    /** hasTags: every target is a tag; vacuously true for no targets. */
    function HasTags(targets: seq<string>): (r: bool)
      reads this
      ensures r <==> forall i :: 0 <= i < |targets| ==> targets[i] in tags
      ensures targets == [] ==> r
    {
      forall i :: 0 <= i < |targets| ==> HasTag(targets[i])
    }

    /** equals: two static questions are equal when their texts are. */
    predicate Equals(other: StaticQuestion)
    {
      other.question == question
    }

    /** The decoding constructor, with the case flag read as intended: the same steps as the
        source, failing where the source throws. */
    static method FromLine(fileLine: string) returns (r: Result<StaticQuestion>)
      ensures ParseLine(fileLine).Err? ==> r.Err? && r.error == ParseLine(fileLine).error
      ensures ParseLine(fileLine).Ok? ==> r.Ok? && fresh(r.value) && r.value.Data() == ParseLine(fileLine).value
    {
      var open := IndexOf(fileLine, '{');
      var close := IndexOf(fileLine, '}');
      if close < open + 1 || open < 0 {
        return Err(IndexOutOfBounds);
      }
      var answers := StringSplitChar(fileLine[open + 1..close], TAB);
      var fields := StringSplitChar(fileLine[..open], TAB);
      var tagText := fileLine[close + 1..];
      ParsedFields(fileLine, open, close, answers, fields, Split(tagText, TAB));
      if |fields| < 4 {
        return Err(IndexOutOfBounds);
      }
      var ignoreCaps := fields[1] == "y";
      var ignore := IgnoreField(fields[2]);
      var tagPieces := StringSplitChar(tagText, TAB);
      var q := new StaticQuestion(answers, fields[3], ignoreCaps, ignore);
      q.AddTags(tagPieces);
      q.AddTag(STATIC_TAG);
      return Ok(q);
    }

    /** The normalisation loop of checkAnswer, applied to one string. */
    method Transform(s: string) returns (t: string)
      ensures t == Normalize(s, ignoreCapitalization, ignoreChars)
    {
      t := s;
      if ignoreCapitalization {
        t := ToLower(t);
      }
      ghost var base := t;
      for i := 0 to |ignoreChars|
        invariant t == Strip(base, ignoreChars[..i])
      {
        ReplaceOneChar(t, ignoreChars[i], []);
        ReplaceCharByNothing(t, ignoreChars[i]);
        assert ignoreChars[..i + 1][..i] == ignoreChars[..i];
        t := Replace(t, [ignoreChars[i]], []);
      }
      assert ignoreChars[..|ignoreChars|] == ignoreChars;
    }

    /** checkAnswer: true iff the normalised response equals some normalised correct answer. */
    method CheckAnswer(answer: string) returns (ok: bool)
      ensures ok <==> Accepts(correctAnswers, ignoreCapitalization, ignoreChars, answer)
    {
      var given := Transform(answer);
      for k := 0 to |correctAnswers|
        invariant forall j :: 0 <= j < k ==> Normalize(correctAnswers[j], ignoreCapitalization, ignoreChars) != given
      {
        var correctChanged := Transform(correctAnswers[k]);
        if correctChanged == given {
          return true;
        }
      }
      return false;
    }

    /** toString, with the intended handling of an empty ignore set and of the implicit tags;
        the source builds each part in a loop. */
    method ToString() returns (s: string)
      ensures s == Encode(Data())
    {
      var answersText := AppendTerminated(correctAnswers, TAB);
      var explicit := ExplicitTags(tags);
      var tagsText := AppendTerminated(explicit, TAB);
      var ignoreText := "";
      for i := 0 to |ignoreChars|
        invariant ignoreText == ignoreChars[..i]
      {
        ignoreText := ignoreText + [ignoreChars[i]];
      }
      assert ignoreChars[..|ignoreChars|] == ignoreChars;
      if ignoreText == [] {
        ignoreText := NULL_FIELD;
      }
      var ignoreCaps := if ignoreCapitalization then "y" else "n";
      s := "s" + [TAB] + ignoreCaps + [TAB] + ignoreText + [TAB] + question + [TAB] + "{" + answersText + "}" + [TAB] + tagsText;
      EncodeParts(Data(), answersText, tagsText, ignoreText);
    }

    /** toString as the program writes it: the ignored characters verbatim and every tag. The
        history's toString puts this text in its title line. */
    method ToStringAsWritten() returns (s: string)
      ensures s == EncodeAsWritten(Data())
    {
      var answersText := AppendTerminated(correctAnswers, TAB);
      var tagsText := AppendTerminated(tags, TAB);
      var ignoreText := "";
      for i := 0 to |ignoreChars|
        invariant ignoreText == ignoreChars[..i]
      {
        ignoreText := ignoreText + [ignoreChars[i]];
      }
      assert ignoreChars[..|ignoreChars|] == ignoreChars;
      var ignoreCaps := if ignoreCapitalization then "y" else "n";
      s := "s" + [TAB] + ignoreCaps + [TAB] + ignoreText + [TAB] + question + [TAB] + "{" + answersText + "}" + [TAB] + tagsText;
      EncodeAsWrittenParts(Data(), answersText, tagsText);
    }
  }
}
