/** Student.java: a student's name, records directory and question histories. Loading reads the
    name from id.txt, matches each history file listed in index.txt to a question of the bank, and
    writes an empty history file for every question no file names. */
module Students {
  import opened Wrappers
  import opened Text
  import opened Utilities
  import opened AnswerRecords
  import opened Histories
  import Questions
  import FileUtilities

  /** The header line of a new history file. */
  const HISTORY_HEADER: string := "Timestamp\tDuration\tCorrectness\tResponse"
  const ID_FILE: string := "/id.txt"
  const INDEX_FILE: string := "/index.txt"
  const HISTORY_SUFFIX: string := ".txt"

  /** The file of a question's history in a student's directory: directory, "/", question text, ".txt". */
  function HistoryPath(directory: string, questionText: string): string {
    directory + "/" + questionText + HISTORY_SUFFIX
  }

  /** What a loaded history holds: its question and its records. */
  datatype HistoryData = HistoryData(question: Questions.StaticQuestion, responses: seq<Answer>)

  /** An entry of the bank that is still unused and has this text. */
  predicate Names(q: Option<Questions.StaticQuestion>, text: string) {
    q.Some? && q.value.question == text
  }

  /** The question the inner scan of the loading constructor settles on: the scan does not stop at
      a match, so it is the last unused question with this text. */
  function LastMatch(qs: seq<Option<Questions.StaticQuestion>>, text: string): Option<Questions.StaticQuestion> {
    if qs == [] then None
    else if Names(qs[|qs| - 1], text) then qs[|qs| - 1]
    else LastMatch(qs[..|qs| - 1], text)
  }

  /** The bank after the scan: every unused question with this text is marked used. */
  function Claimed(qs: seq<Option<Questions.StaticQuestion>>, text: string): (r: seq<Option<Questions.StaticQuestion>>)
    ensures |r| == |qs|
  {
    seq(|qs|, i requires 0 <= i < |qs| => if Names(qs[i], text) then None else qs[i])
  }

  /** The bank before any file is matched: every question unused. */
  function Unused(bank: seq<Questions.StaticQuestion>): (qs: seq<Option<Questions.StaticQuestion>>)
    ensures |qs| == |bank| && forall i :: 0 <= i < |bank| ==> qs[i] == Some(bank[i])
  {
    seq(|bank|, i requires 0 <= i < |bank| => Some(bank[i]))
  }

  /** The loading constructor of a history, applied to a file of the student's directory. */
  type Reader = string -> Result<seq<Answer>>

  function Reads(files: FileUtilities.Files): Reader {
    path => ReadHistory(files, path)
  }

  /** One line of the index: the file name less its four-character extension is the question's
      text; the history is loaded from that file in the student's directory. */
  function MatchOne(directory: string, fileName: string, qs: seq<Option<Questions.StaticQuestion>>, read: Reader)
    : Result<(HistoryData, seq<Option<Questions.StaticQuestion>>)>
  {
    if |fileName| < 4 then Err(IndexOutOfBounds)
    else
      match LastMatch(qs, fileName[..|fileName| - 4])
      case None => Err(NoQuestionForHistory)
      case Some(q) =>
        match read(directory + "/" + fileName)
        case Err(e) => Err(e)
        case Ok(rs) => Ok((HistoryData(q, rs), Claimed(qs, fileName[..|fileName| - 4])))
  }

  /** The loop over the index lines: one history per line in index order; the first failure ends
      the load. */
  function MatchAll(directory: string, names: seq<string>, qs: seq<Option<Questions.StaticQuestion>>, read: Reader)
    : Result<(seq<HistoryData>, seq<Option<Questions.StaticQuestion>>)>
  {
    if names == [] then Ok(([], qs))
    else
      match MatchAll(directory, names[..|names| - 1], qs, read)
      case Err(e) => Err(e)
      case Ok(p) =>
        match MatchOne(directory, names[|names| - 1], p.1, read)
        case Err(e) => Err(e)
        case Ok(o) => Ok((p.0 + [o.0], o.1))
  }

  /** An unused question gets a history file holding only the header, and its file name is
      appended to the index. The files as they are when a step fails are kept. */
  function BlankOne(directory: string, q: Questions.StaticQuestion, files: FileUtilities.Files)
    : (FileUtilities.Files, Option<Failure>)
  {
    match FileUtilities.AppendFile(files[HistoryPath(directory, q.question) := HISTORY_HEADER + [EOL]],
                                   directory + INDEX_FILE, q.question + HISTORY_SUFFIX + [EOL])
    case Err(e) => (files[HistoryPath(directory, q.question) := HISTORY_HEADER + [EOL]], Some(e))
    case Ok(f) => (f, None)
  }

  /** The loop over the bank after matching: every question still unused, in bank order. */
  function CreateBlank(directory: string, qs: seq<Option<Questions.StaticQuestion>>, files: FileUtilities.Files)
    : (FileUtilities.Files, Option<Failure>)
  {
    if qs == [] then (files, None)
    else
      var front := CreateBlank(directory, qs[..|qs| - 1], files);
      if front.1.Some? || qs[|qs| - 1].None? then front
      else BlankOne(directory, qs[|qs| - 1].value, front.0)
  }

  /** The whole loading constructor: the name and the histories, or the failure, and the files as
      the load leaves them. */
  function LoadStudent(directory: string, bank: seq<Questions.StaticQuestion>, files: FileUtilities.Files)
    : (Result<(string, seq<HistoryData>)>, FileUtilities.Files)
  {
    match FileUtilities.FromFileCleaned(files, directory + ID_FILE)
    case Err(e) => (Err(e), files)
    case Ok(idText) =>
      if IndexOf(idText, EOL) < 0 then (Err(IndexOutOfBounds), files)
      else
        match FileUtilities.FromFileCleaned(files, directory + INDEX_FILE)
        case Err(e) => (Err(e), files)
        case Ok(indexText) =>
          match MatchAll(directory, Split(indexText, EOL), Unused(bank), Reads(files))
          case Err(e) => (Err(e), files)
          case Ok(m) =>
            var blank := CreateBlank(directory, m.1, files);
            if blank.1.Some? then (Err(blank.1.value), blank.0)
            else (Ok((idText[..IndexOf(idText, EOL)], m.0)), blank.0)
  }

  /** The history objects hold what the data says, entry by entry. */
  predicate Describes(hs: seq<StaticQuestionHistory>, ds: seq<HistoryData>)
    reads hs
  {
    |hs| == |ds| && forall k :: 0 <= k < |hs| ==> hs[k].question == ds[k].question && hs[k].responses == ds[k].responses
  }

  /** No history object appears twice. */
  predicate Distinct(hs: seq<StaticQuestionHistory>) {
    forall j, k :: 0 <= j < k < |hs| ==> hs[j] != hs[k]
  }

  /** Each history's mastery, in order. */
  function Masteries(hs: seq<StaticQuestionHistory>, now: int): (ms: seq<real>)
    reads hs
    ensures |ms| == |hs| && forall i :: 0 <= i < |hs| ==> ms[i] == Mastery(hs[i].responses, now)
  {
    seq(|hs|, i reads hs requires 0 <= i < |hs| => Mastery(hs[i].responses, now))
  }

  /** The sum as getPercentMastered accumulates it, first to last. */
  function Sum(xs: seq<real>): real {
    if xs == [] then 0.0 else Sum(xs[..|xs| - 1]) + xs[|xs| - 1]
  }

  /** sum / count; with no histories that is 0/0, which is None. */
  function MeanMastery(hs: seq<StaticQuestionHistory>, now: int): Option<real>
    reads hs
  {
    if |hs| == 0 then None else Some(Sum(Masteries(hs, now)) / |hs| as real)
  }

  /** The histories whose question carries the tag, in order. */
  function WithTag(hs: seq<StaticQuestionHistory>, tag: string): seq<StaticQuestionHistory>
    reads set i | 0 <= i < |hs| :: hs[i].question
  {
    if hs == [] then []
    else WithTag(hs[..|hs| - 1], tag) + (if hs[|hs| - 1].question.HasTag(tag) then [hs[|hs| - 1]] else [])
  }

  class Student {
    const name: string
    const filepath: string
    const questionHistories: seq<StaticQuestionHistory>

    /** The constructor for a new student: no histories. */
    constructor (inName: string, inFilepath: string)
      ensures name == inName && filepath == inFilepath && questionHistories == []
      ensures Distinct(questionHistories)
    {
      name := inName;
      filepath := inFilepath;
      questionHistories := [];
    }

    /** The state the loading constructor ends in. */
    constructor Loaded(inName: string, inFilepath: string, histories: seq<StaticQuestionHistory>)
      ensures name == inName && filepath == inFilepath && questionHistories == histories
    {
      name := inName;
      filepath := inFilepath;
      questionHistories := histories;
    }

    /** The loading constructor, from the student's directory and the question bank. */
    static method Load(inPath: string, inQuestionList: seq<Questions.StaticQuestion>, files: FileUtilities.Files)
      returns (r: Result<Student>, newFiles: FileUtilities.Files)
      ensures newFiles == LoadStudent(inPath, inQuestionList, files).1
      ensures r.Ok? <==> LoadStudent(inPath, inQuestionList, files).0.Ok?
      ensures r.Err? ==> r.error == LoadStudent(inPath, inQuestionList, files).0.error
      ensures r.Ok? ==>
        && fresh(r.value) && r.value.filepath == inPath
        && r.value.name == LoadStudent(inPath, inQuestionList, files).0.value.0
        && Describes(r.value.questionHistories, LoadStudent(inPath, inQuestionList, files).0.value.1)
        && Distinct(r.value.questionHistories)
        && forall k :: 0 <= k < |r.value.questionHistories| ==> fresh(r.value.questionHistories[k])
    {
      newFiles := files;
      var idText := FileUtilities.FromFileCleaned(files, inPath + ID_FILE);
      if idText.Err? {
        return Err(idText.error), newFiles;
      }
      var eol := IndexOf(idText.value, EOL);
      if eol < 0 {
        return Err(IndexOutOfBounds), newFiles;
      }
      var name := idText.value[..eol];
      var indexText := FileUtilities.FromFileCleaned(files, inPath + INDEX_FILE);
      if indexText.Err? {
        return Err(indexText.error), newFiles;
      }
      var questionHistoryFiles := StringSplitChar(indexText.value, EOL);
      var matched, questionList := MatchFiles(inPath, questionHistoryFiles, Unused(inQuestionList), files);
      if matched.Err? {
        return Err(matched.error), newFiles;
      }
      var failure;
      newFiles, failure := CreateBlankFiles(inPath, questionList, files);
      if failure.Some? {
        return Err(failure.value), newFiles;
      }
      var s := new Student.Loaded(name, inPath, matched.value);
      return Ok(s), newFiles;
    }

    /** The loop over the index lines, one new history object per line. */
    static method MatchFiles(directory: string, names: seq<string>, bank: seq<Option<Questions.StaticQuestion>>,
                             files: FileUtilities.Files)
      returns (r: Result<seq<StaticQuestionHistory>>, rest: seq<Option<Questions.StaticQuestion>>)
      ensures MatchAll(directory, names, bank, Reads(files)).Err? ==>
        r.Err? && r.error == MatchAll(directory, names, bank, Reads(files)).error
      ensures MatchAll(directory, names, bank, Reads(files)).Ok? ==>
        && r.Ok? && rest == MatchAll(directory, names, bank, Reads(files)).value.1
        && Describes(r.value, MatchAll(directory, names, bank, Reads(files)).value.0)
        && Distinct(r.value)
        && forall k :: 0 <= k < |r.value| ==> fresh(r.value[k])
    {
      var histories: seq<StaticQuestionHistory> := [];
      ghost var data: seq<HistoryData> := [];
      rest := bank;
      for i := 0 to |names|
        invariant MatchAll(directory, names[..i], bank, Reads(files)) == Ok((data, rest))
        invariant Describes(histories, data) && Distinct(histories)
        invariant forall k :: 0 <= k < |histories| ==> fresh(histories[k])
      {
        MatchAllSnoc(directory, names, bank, Reads(files), i, data, rest);
        var one, after := MatchFile(directory, names[i], rest, files);
        if one.Err? {
          MatchAllKeepsError(directory, names, bank, Reads(files), i + 1);
          return Err(one.error), rest;
        }
        DescribesSnoc(histories, data, one.value);
        histories := histories + [one.value];
        data := data + [HistoryData(one.value.question, one.value.responses)];
        rest := after;
      }
      assert names[..|names|] == names;
      return Ok(histories), rest;
    }

    /** The body of that loop, for one index line. */
    static method MatchFile(directory: string, fileName: string, qs: seq<Option<Questions.StaticQuestion>>,
                            files: FileUtilities.Files)
      returns (r: Result<StaticQuestionHistory>, rest: seq<Option<Questions.StaticQuestion>>)
      ensures MatchOne(directory, fileName, qs, Reads(files)).Err? ==>
        r.Err? && r.error == MatchOne(directory, fileName, qs, Reads(files)).error
      ensures MatchOne(directory, fileName, qs, Reads(files)).Ok? ==>
        && r.Ok? && fresh(r.value)
        && MatchOne(directory, fileName, qs, Reads(files)).value == (HistoryData(r.value.question, r.value.responses), rest)
    {
      rest := qs;
      if |fileName| < 4 {
        return Err(IndexOutOfBounds), rest;
      }
      var questionText := fileName[..|fileName| - 4];
      var question;
      rest, question := ClaimQuestion(qs, questionText);
      if question.None? {
        return Err(NoQuestionForHistory), rest;
      }
      var qh := StaticQuestionHistory.Load(question.value, directory + "/" + fileName, files);
      if qh.Err? {
        return Err(qh.error), rest;
      }
      return Ok(qh.value), rest;
    }

    /** The inner loop over the bank: every unused question with the text is marked used, and the
        last of them is kept. */
    static method ClaimQuestion(qs: seq<Option<Questions.StaticQuestion>>, text: string)
      returns (rest: seq<Option<Questions.StaticQuestion>>, question: Option<Questions.StaticQuestion>)
      ensures rest == Claimed(qs, text) && question == LastMatch(qs, text)
    {
      rest := qs;
      question := None;
      for i := 0 to |qs|
        invariant |rest| == |qs|
        invariant forall k :: 0 <= k < i ==> rest[k] == Claimed(qs, text)[k]
        invariant forall k :: i <= k < |qs| ==> rest[k] == qs[k]
        invariant question == LastMatch(qs[..i], text)
      {
        assert qs[..i + 1][..i] == qs[..i];
        if rest[i].Some? {
          var currQ := rest[i].value;
          if currQ.question == text {
            question := Some(currQ);
            rest := rest[i := None];
          }
        }
      }
      assert qs[..|qs|] == qs;
    }

    /** The loop over the bank after matching: a header-only file and an index line for each
        question still unused. */
    static method CreateBlankFiles(directory: string, qs: seq<Option<Questions.StaticQuestion>>, files: FileUtilities.Files)
      returns (newFiles: FileUtilities.Files, failure: Option<Failure>)
      ensures (newFiles, failure) == CreateBlank(directory, qs, files)
    {
      newFiles, failure := files, None;
      for i := 0 to |qs|
        invariant CreateBlank(directory, qs[..i], files) == (newFiles, failure)
        invariant failure.None?
      {
        assert qs[..i + 1][..i] == qs[..i];
        if qs[i].Some? {
          newFiles, failure := BlankFile(directory, qs[i].value, newFiles);
          if failure.Some? {
            CreateBlankKeepsFailure(directory, qs, files, i + 1);
            return;
          }
        }
      }
      assert qs[..|qs|] == qs;
    }

    /** The body of that loop for one unused question. */
    static method BlankFile(directory: string, q: Questions.StaticQuestion, files: FileUtilities.Files)
      returns (newFiles: FileUtilities.Files, failure: Option<Failure>)
      ensures (newFiles, failure) == BlankOne(directory, q, files)
    {
      newFiles := files[HistoryPath(directory, q.question) := HISTORY_HEADER + [EOL]];
      var appended := FileUtilities.AppendFile(newFiles, directory + INDEX_FILE, q.question + HISTORY_SUFFIX + [EOL]);
      if appended.Err? {
        return newFiles, Some(appended.error);
      }
      newFiles, failure := appended.value, None;
    }

    /** getPercentMastered(): the mean mastery of all histories. */
    method GetPercentMastered(now: int) returns (m: Option<real>)
      ensures m == MeanMastery(questionHistories, now)
    {
      var sum := 0.0;
      var count := 0;
      for i := 0 to |questionHistories|
        invariant sum == Sum(Masteries(questionHistories, now)[..i]) && count == i
      {
        assert Masteries(questionHistories, now)[..i + 1][..i] == Masteries(questionHistories, now)[..i];
        var pm := Mastery(questionHistories[i].responses, now);
        sum := sum + pm;
        count := count + 1;
      }
      assert Masteries(questionHistories, now)[..|questionHistories|] == Masteries(questionHistories, now);
      if count == 0 {
        return None;
      }
      return Some(sum / count as real);
    }

    /** getPercentMastered(tag): the mean mastery of the histories whose question has the tag. */
    method GetPercentMasteredWithTag(tag: string, now: int) returns (m: Option<real>)
      ensures m == MeanMastery(WithTag(questionHistories, tag), now)
    {
      var hs := questionHistories;
      var sum := 0.0;
      var count := 0;
      for i := 0 to |hs|
        invariant sum == Sum(Masteries(WithTag(hs[..i], tag), now))
        invariant count == |WithTag(hs[..i], tag)|
      {
        WithTagSnoc(hs, tag, i);
        if hs[i].question.HasTag(tag) {
          var pm := Mastery(hs[i].responses, now);
          MasteriesSnoc(WithTag(hs[..i], tag), hs[i], now);
          sum := sum + pm;
          count := count + 1;
        }
      }
      assert hs[..|hs|] == hs;
      if count == 0 {
        return None;
      }
      return Some(sum / count as real);
    }
  }

  lemma WithTagSnoc(hs: seq<StaticQuestionHistory>, tag: string, i: nat)
    requires i < |hs|
    ensures hs[i].question.HasTag(tag) ==> WithTag(hs[..i + 1], tag) == WithTag(hs[..i], tag) + [hs[i]]
    ensures !hs[i].question.HasTag(tag) ==> WithTag(hs[..i + 1], tag) == WithTag(hs[..i], tag)
  {
    assert hs[..i + 1][..i] == hs[..i];
    assert WithTag(hs[..i], tag) + [] == WithTag(hs[..i], tag);
  }

  lemma MasteriesSnoc(hs: seq<StaticQuestionHistory>, h: StaticQuestionHistory, now: int)
    ensures Sum(Masteries(hs + [h], now)) == Sum(Masteries(hs, now)) + Mastery(h.responses, now)
  {
    assert Masteries(hs + [h], now)[..|hs|] == Masteries(hs, now);
  }

  lemma DescribesSnoc(hs: seq<StaticQuestionHistory>, ds: seq<HistoryData>, h: StaticQuestionHistory)
    requires Describes(hs, ds) && Distinct(hs)
    requires forall k :: 0 <= k < |hs| ==> hs[k] != h
    ensures Describes(hs + [h], ds + [HistoryData(h.question, h.responses)]) && Distinct(hs + [h])
  {
  }

  lemma MatchAllSnoc(directory: string, names: seq<string>, bank: seq<Option<Questions.StaticQuestion>>,
                     read: Reader, i: nat, data: seq<HistoryData>, rest: seq<Option<Questions.StaticQuestion>>)
    requires i < |names| && MatchAll(directory, names[..i], bank, read) == Ok((data, rest))
    ensures MatchAll(directory, names[..i + 1], bank, read) ==
      match MatchOne(directory, names[i], rest, read)
      case Err(e) => Err(e)
      case Ok(o) => Ok((data + [o.0], o.1))
  {
    assert names[..i + 1][..i] == names[..i];
  }

  /** Once a step fails, the later lines are not looked at. */
  lemma {:induction false} MatchAllKeepsError(directory: string, names: seq<string>, bank: seq<Option<Questions.StaticQuestion>>,
                                              read: Reader, i: nat)
    requires 0 < i <= |names| && MatchAll(directory, names[..i], bank, read).Err?
    ensures MatchAll(directory, names, bank, read) == MatchAll(directory, names[..i], bank, read)
    decreases |names| - i
  {
    if i < |names| {
      assert names[..i + 1][..i] == names[..i];
      MatchAllKeepsError(directory, names, bank, read, i + 1);
    } else {
      assert names[..i] == names;
    }
  }

  lemma {:induction false} CreateBlankKeepsFailure(directory: string, qs: seq<Option<Questions.StaticQuestion>>,
                                                   files: FileUtilities.Files, i: nat)
    requires 0 < i <= |qs| && CreateBlank(directory, qs[..i], files).1.Some?
    ensures CreateBlank(directory, qs, files) == CreateBlank(directory, qs[..i], files)
    decreases |qs| - i
  {
    if i < |qs| {
      assert qs[..i + 1][..i] == qs[..i];
      CreateBlankKeepsFailure(directory, qs, files, i + 1);
    } else {
      assert qs[..i] == qs;
    }
  }

  /** The scan finds a question exactly when an unused one has the text; it finds the last of them. */
  lemma {:induction false} LastMatchMeaning(qs: seq<Option<Questions.StaticQuestion>>, text: string)
    ensures LastMatch(qs, text).None? <==> forall i :: 0 <= i < |qs| ==> !Names(qs[i], text)
    ensures LastMatch(qs, text).Some? ==>
      exists i :: 0 <= i < |qs| && qs[i] == LastMatch(qs, text) && Names(qs[i], text)
        && forall j :: i < j < |qs| ==> !Names(qs[j], text)
  {
    if qs != [] {
      var n := |qs| - 1;
      LastMatchMeaning(qs[..n], text);
      if !Names(qs[n], text) {
        assert forall i :: 0 <= i < n ==> qs[..n][i] == qs[i];
        if LastMatch(qs[..n], text).Some? {
          var i :| 0 <= i < n && qs[..n][i] == LastMatch(qs[..n], text) && Names(qs[..n][i], text)
            && forall j :: i < j < n ==> !Names(qs[..n][j], text);
          assert qs[i] == LastMatch(qs, text);
        }
      }
    }
  }

  /** After the scan, no unused question has the text any more. */
  lemma ClaimedExhausts(qs: seq<Option<Questions.StaticQuestion>>, text: string)
    ensures LastMatch(Claimed(qs, text), text) == None
  {
    LastMatchMeaning(Claimed(qs, text), text);
  }

  /** A scan for another text never makes a used question unused again. */
  lemma ClaimedStaysUsed(qs: seq<Option<Questions.StaticQuestion>>, text: string, other: string)
    requires LastMatch(qs, text) == None
    ensures LastMatch(Claimed(qs, other), text) == None
  {
    LastMatchMeaning(qs, text);
    LastMatchMeaning(Claimed(qs, other), text);
  }

  /** The question text an index line names: the file name less its extension. */
  function TextOf(fileName: string): string
    requires |fileName| >= 4
  {
    fileName[..|fileName| - 4]
  }

  /** A successful match of the lines is a successful match of all but the last, then of the last. */
  lemma MatchAllUnfold(directory: string, names: seq<string>, qs: seq<Option<Questions.StaticQuestion>>,
                       read: Reader)
    requires names != [] && MatchAll(directory, names, qs, read).Ok?
    ensures MatchAll(directory, names[..|names| - 1], qs, read).Ok?
    ensures MatchOne(directory, names[|names| - 1], MatchAll(directory, names[..|names| - 1], qs, read).value.1, read).Ok?
    ensures MatchAll(directory, names, qs, read).value ==
      (MatchAll(directory, names[..|names| - 1], qs, read).value.0
         + [MatchOne(directory, names[|names| - 1], MatchAll(directory, names[..|names| - 1], qs, read).value.1, read).value.0],
       MatchOne(directory, names[|names| - 1], MatchAll(directory, names[..|names| - 1], qs, read).value.1, read).value.1)
  {
  }

  /** Matching loads one history per index line. */
  lemma {:induction false} MatchAllLength(directory: string, names: seq<string>, qs: seq<Option<Questions.StaticQuestion>>,
                                          read: Reader)
    requires MatchAll(directory, names, qs, read).Ok?
    ensures |MatchAll(directory, names, qs, read).value.0| == |names|
  {
    if names != [] {
      MatchAllUnfold(directory, names, qs, read);
      MatchAllLength(directory, names[..|names| - 1], qs, read);
    }
  }

  /** The history loaded for index line k: its question has the line's text, less the extension,
      and its records are those of the file the line names. */
  lemma {:induction false} MatchAllEntry(directory: string, names: seq<string>, qs: seq<Option<Questions.StaticQuestion>>,
                                         read: Reader, k: nat)
    requires MatchAll(directory, names, qs, read).Ok? && k < |names|
    ensures |MatchAll(directory, names, qs, read).value.0| == |names|
    ensures |names[k]| >= 4
    ensures MatchAll(directory, names, qs, read).value.0[k].question.question == TextOf(names[k])
    ensures read(directory + "/" + names[k]) == Ok(MatchAll(directory, names, qs, read).value.0[k].responses)
  {
    MatchAllLength(directory, names, qs, read);
    MatchAllUnfold(directory, names, qs, read);
    var n := |names| - 1;
    if k < n {
      MatchAllEntry(directory, names[..n], qs, read, k);
      MatchAllLength(directory, names[..n], qs, read);
    } else {
      MatchOneMeaning(directory, names[n], MatchAll(directory, names[..n], qs, read).value.1, read);
    }
  }

  /** After matching, no unused question has the text of any index line. */
  lemma {:induction false} MatchAllExhausts(directory: string, names: seq<string>, qs: seq<Option<Questions.StaticQuestion>>,
                                            read: Reader, k: nat)
    requires MatchAll(directory, names, qs, read).Ok? && k < |names|
    ensures |names[k]| >= 4 && LastMatch(MatchAll(directory, names, qs, read).value.1, TextOf(names[k])) == None
  {
    MatchAllUnfold(directory, names, qs, read);
    var n := |names| - 1;
    MatchOneMeaning(directory, names[n], MatchAll(directory, names[..n], qs, read).value.1, read);
    if k < n {
      MatchAllExhausts(directory, names[..n], qs, read, k);
      ClaimedStaysUsed(MatchAll(directory, names[..n], qs, read).value.1, TextOf(names[k]), TextOf(names[n]));
    } else {
      ClaimedExhausts(MatchAll(directory, names[..n], qs, read).value.1, TextOf(names[n]));
    }
  }

  /** One index line loads exactly when its name has an extension to drop, an unused question has
      the remaining text and the file it names reads; the question is the last unused one with that
      text, and all of them are used up. */
  lemma MatchOneMeaning(directory: string, fileName: string, qs: seq<Option<Questions.StaticQuestion>>,
                        read: Reader)
    ensures MatchOne(directory, fileName, qs, read).Ok? <==>
      && |fileName| >= 4
      && (exists i :: 0 <= i < |qs| && Names(qs[i], TextOf(fileName)))
      && read(directory + "/" + fileName).Ok?
    ensures MatchOne(directory, fileName, qs, read).Ok? ==>
      && MatchOne(directory, fileName, qs, read).value.0 ==
           HistoryData(LastMatch(qs, TextOf(fileName)).value, read(directory + "/" + fileName).value)
      && MatchOne(directory, fileName, qs, read).value.1 == Claimed(qs, TextOf(fileName))
      && LastMatch(qs, TextOf(fileName)).value.question == TextOf(fileName)
    ensures |fileName| >= 4 && (forall i :: 0 <= i < |qs| ==> !Names(qs[i], TextOf(fileName))) ==>
      MatchOne(directory, fileName, qs, read) == Err(NoQuestionForHistory)
  {
    if |fileName| >= 4 {
      LastMatchMeaning(qs, TextOf(fileName));
    }
  }

  /** A question is used up by the first file naming its text: an index that names the same file
      twice does not load. */
  lemma RepeatedFileFails(directory: string, names: seq<string>, qs: seq<Option<Questions.StaticQuestion>>,
                          read: Reader, j: nat, k: nat)
    requires j < k < |names| && names[j] == names[k]
    ensures MatchAll(directory, names, qs, read).Err?
  {
    if MatchAll(directory, names[..k + 1], qs, read).Ok? {
      MatchAllUnfold(directory, names[..k + 1], qs, read);
      assert names[..k + 1][..k] == names[..k];
      RepeatedStep(directory, names[..k], names[k], qs, read, j);
    }
    MatchAllKeepsError(directory, names, qs, read, k + 1);
  }

  lemma RepeatedStep(directory: string, front: seq<string>, name: string, qs: seq<Option<Questions.StaticQuestion>>,
                     read: Reader, j: nat)
    requires j < |front| && front[j] == name && MatchAll(directory, front, qs, read).Ok?
    ensures MatchOne(directory, name, MatchAll(directory, front, qs, read).value.1, read).Err?
  {
    MatchAllExhausts(directory, front, qs, read, j);
    MatchOneMeaning(directory, name, MatchAll(directory, front, qs, read).value.1, read);
    LastMatchMeaning(MatchAll(directory, front, qs, read).value.1, TextOf(name));
  }

  /** The name is the text of id.txt up to its first end of line. */
  lemma LoadedName(directory: string, bank: seq<Questions.StaticQuestion>, files: FileUtilities.Files)
    requires LoadStudent(directory, bank, files).0.Ok?
    ensures FileUtilities.FromFileCleaned(files, directory + ID_FILE).Ok?
    ensures EOL !in LoadStudent(directory, bank, files).0.value.0
    ensures LoadStudent(directory, bank, files).0.value.0 + [EOL] <= FileUtilities.FromFileCleaned(files, directory + ID_FILE).value
  {
    NameBeforeEol(FileUtilities.FromFileCleaned(files, directory + ID_FILE).value);
  }

  lemma NameBeforeEol(idText: string)
    requires IndexOf(idText, EOL) >= 0
    ensures EOL !in idText[..IndexOf(idText, EOL)]
    ensures idText[..IndexOf(idText, EOL)] + [EOL] <= idText
  {
    assert idText[..IndexOf(idText, EOL)] + [EOL] == idText[..IndexOf(idText, EOL) + 1];
  }

  lemma HeaderChars()
    ensures '#' !in HISTORY_HEADER + [EOL] && EOL !in HISTORY_HEADER && |HISTORY_HEADER| > 0
  {
    assert forall i :: 0 <= i < |HISTORY_HEADER| ==> HISTORY_HEADER[i] != '#' && HISTORY_HEADER[i] != EOL;
  }

  /** A new history file holds only its header line: it loads as a history without records. */
  lemma HeaderOnlyFile()
    ensures FileUtilities.CleanText(HISTORY_HEADER + [EOL]) == Some(HISTORY_HEADER + [EOL])
    ensures LoadAnswers(HISTORY_HEADER + [EOL]) == Ok([])
  {
    HeaderChars();
    FileUtilities.StripCommentsNone(HISTORY_HEADER + [EOL]);
    SplitTerminatedOne(HISTORY_HEADER, EOL);
    JoinTerminatedOne(HISTORY_HEADER, EOL);
  }

  /** After the blank files are made, each question left unused has a history file holding only
      the header, unless its file is the index itself. */
  lemma {:induction false} CreateBlankWrites(directory: string, qs: seq<Option<Questions.StaticQuestion>>,
                                             files: FileUtilities.Files, i: nat)
    requires CreateBlank(directory, qs, files).1.None?
    requires i < |qs| && qs[i].Some?
    requires forall j :: 0 <= j < |qs| && qs[j].Some? ==> HistoryPath(directory, qs[j].value.question) != directory + INDEX_FILE
    ensures HistoryPath(directory, qs[i].value.question) in CreateBlank(directory, qs, files).0
    ensures CreateBlank(directory, qs, files).0[HistoryPath(directory, qs[i].value.question)] == HISTORY_HEADER + [EOL]
  {
    var n := |qs| - 1;
    CreateBlankUnfold(directory, qs, files);
    if i < n {
      CreateBlankWrites(directory, qs[..n], files, i);
    }
    if qs[n].Some? {
      BlankOneAt(directory, qs[n].value, CreateBlank(directory, qs[..n], files).0, HistoryPath(directory, qs[i].value.question));
    }
  }

  lemma CreateBlankUnfold(directory: string, qs: seq<Option<Questions.StaticQuestion>>, files: FileUtilities.Files)
    requires qs != [] && CreateBlank(directory, qs, files).1.None?
    ensures CreateBlank(directory, qs[..|qs| - 1], files).1.None?
    ensures qs[|qs| - 1].None? ==> CreateBlank(directory, qs, files) == CreateBlank(directory, qs[..|qs| - 1], files)
    ensures qs[|qs| - 1].Some? ==>
      CreateBlank(directory, qs, files) == BlankOne(directory, qs[|qs| - 1].value, CreateBlank(directory, qs[..|qs| - 1], files).0)
  {
  }

  /** Making one blank file changes that file and the index only. */
  lemma BlankOneAt(directory: string, q: Questions.StaticQuestion, files: FileUtilities.Files, path: string)
    requires BlankOne(directory, q, files).1.None? && path != directory + INDEX_FILE
    ensures path in BlankOne(directory, q, files).0 <==> path in files || path == HistoryPath(directory, q.question)
    ensures path in BlankOne(directory, q, files).0 ==>
      BlankOne(directory, q, files).0[path] == if path == HistoryPath(directory, q.question) then HISTORY_HEADER + [EOL] else files[path]
  {
  }

  /** A history file holding only the header loads as a history without records. */
  lemma ReadHeaderOnly(files: FileUtilities.Files, path: string)
    requires path in files && files[path] == HISTORY_HEADER + [EOL]
    ensures ReadHistory(files, path) == Ok([])
  {
    HeaderOnlyFile();
  }

  lemma {:induction false} SumNonNegative(xs: seq<real>)
    requires forall i :: 0 <= i < |xs| ==> xs[i] >= 0.0
    ensures Sum(xs) >= 0.0
  {
    if xs != [] {
      SumNonNegative(xs[..|xs| - 1]);
    }
  }

  lemma {:induction false} SumAtMostCount(xs: seq<real>)
    requires forall i :: 0 <= i < |xs| ==> xs[i] <= 1.0
    ensures Sum(xs) <= |xs| as real
  {
    if xs != [] {
      SumAtMostCount(xs[..|xs| - 1]);
    }
  }

  /** The mean is undefined exactly when there are no histories; it is never negative, and it is
      at most 1 when every history's mastery is. */
  lemma MeanMasteryBounds(hs: seq<StaticQuestionHistory>, now: int)
    ensures MeanMastery(hs, now).None? <==> hs == []
    ensures MeanMastery(hs, now).Some? ==> MeanMastery(hs, now).value >= 0.0
    ensures (forall i :: 0 <= i < |hs| ==> Mastery(hs[i].responses, now) <= 1.0) && hs != [] ==>
      MeanMastery(hs, now).value <= 1.0
  {
    MeanOfMasteries(Masteries(hs, now), |hs|);
  }

  lemma MeanOfMasteries(ms: seq<real>, n: nat)
    requires |ms| == n && forall i :: 0 <= i < n ==> ms[i] >= 0.0
    ensures n > 0 ==> Sum(ms) / n as real >= 0.0
    ensures n > 0 && (forall i :: 0 <= i < n ==> ms[i] <= 1.0) ==> Sum(ms) / n as real <= 1.0
  {
    SumNonNegative(ms);
    if n > 0 && (forall i :: 0 <= i < n ==> ms[i] <= 1.0) {
      SumAtMostCount(ms);
      QuotientAtMostOne(Sum(ms), n as real);
    }
  }

  lemma QuotientAtMostOne(sum: real, count: real)
    requires count > 0.0 && sum <= count
    ensures sum / count <= 1.0
  {
  }

  /** The histories with the tag are those of the student whose question has it. */
  lemma {:induction false} WithTagMeaning(hs: seq<StaticQuestionHistory>, tag: string)
    ensures forall h :: h in WithTag(hs, tag) <==> h in hs && h.question.HasTag(tag)
  {
    if hs != [] {
      WithTagMeaning(hs[..|hs| - 1], tag);
      assert hs == hs[..|hs| - 1] + [hs[|hs| - 1]];
    }
  }

  /** No history has the tag exactly when the tagged mean is undefined, as 0/0 is in the source. */
  lemma TaggedMeanUndefined(hs: seq<StaticQuestionHistory>, tag: string, now: int)
    ensures MeanMastery(WithTag(hs, tag), now).None? <==> forall i :: 0 <= i < |hs| ==> !hs[i].question.HasTag(tag)
  {
    WithTagMeaning(hs, tag);
    MeanMasteryBounds(WithTag(hs, tag), now);
    if WithTag(hs, tag) != [] {
      assert WithTag(hs, tag)[0] in WithTag(hs, tag);
    }
  }
}
