/** QuizzingEngine.java: the entry point the user interface drives. It loads the question bank of
    a class and the student's histories, hands out quizzes, and renders the history and progress
    reports that would be mailed. */
module Engine {
  import opened Wrappers
  import opened Text
  import opened AnswerRecords
  import opened Histories
  import opened Students
  import Utilities
  import Numerals
  import FileUtilities
  import Questions
  import Quizzes
  import UserInterface

  const QUESTIONS_INDEX: string := "/Questions/index.txt"
  const QUESTIONS_DIRECTORY: string := "/Questions/"
  const CONFIG_FILE: string := "config.txt"
  const HISTORY_REPORT_TITLE: string := "History of Responses: "
  const PROGRESS_HEADER: seq<string> := ["Tag", "Percent Mastery", "Progress Bar"]
  /** The inside length of each progress bar of the progress report. */
  const BAR_LENGTH: int := 10

  // ---------------------------------------------------------------------------------------------
  // Loading the question bank

  /** The result r with the values `front` put before its own; a failure stays as it is. */
  function Prefixed<T>(front: seq<T>, r: Result<seq<T>>): Result<seq<T>> {
    match r
    case Ok(rest) => Ok(front + rest)
    case Err(e) => Err(e)
  }

  lemma PrefixedNothing<T>(r: Result<seq<T>>)
    ensures Prefixed([], r) == r
  {
    if r.Ok? {
      assert [] + r.value == r.value;
    }
  }

  lemma PrefixedTwice<T>(a: seq<T>, b: seq<T>, r: Result<seq<T>>)
    ensures Prefixed(a, Prefixed(b, r)) == Prefixed(a + b, r)
  {
    if r.Ok? {
      assert a + (b + r.value) == (a + b) + r.value;
    }
  }

  /** The question lines of a category after its first line: each must describe a static question
      and decode; the first line that does not is the failure. */
  function Dispatch(lines: seq<string>): Result<seq<Questions.QuestionData>> {
    if lines == [] then Ok([])
    else
      match LineQuestion(lines[0])
      case Err(e) => Err(e)
      case Ok(d) => Prefixed([d], Dispatch(lines[1..]))
  }

  /** One question line: an empty line has no type letter, a type other than static is refused,
      and a static question must decode. */
  function LineQuestion(line: string): Result<Questions.QuestionData> {
    match Questions.IsStatic(line)
    case Err(e) => Err(e)
    case Ok(isStatic) =>
      if !isStatic then Err(UnknownQuestionType) else Questions.ParseLine(line)
  }

  /** A line that is a static question and decodes puts its question in front of the rest. */
  lemma DispatchStep(lines: seq<string>)
    requires lines != []
    ensures LineQuestion(lines[0]).Err? ==> Dispatch(lines) == Err(LineQuestion(lines[0]).error)
    ensures LineQuestion(lines[0]).Ok? ==> Dispatch(lines) == Prefixed([LineQuestion(lines[0]).value], Dispatch(lines[1..]))
  {
  }

  /** Every line of a split text but the first, which names the category. */
  function Tail(lines: seq<string>): seq<string> {
    if lines == [] then [] else lines[1..]
  }

  /** The questions of one category file. */
  function CategoryBank(files: FileUtilities.Files, classPath: string, category: string)
    : Result<seq<Questions.QuestionData>>
  {
    match FileUtilities.FromFileCleaned(files, classPath + QUESTIONS_DIRECTORY + category)
    case Err(e) => Err(e)
    case Ok(text) => Dispatch(Tail(Utilities.Split(text, EOL)))
  }

  /** The questions of the categories, in order; the first category that fails is the failure. */
  function CategoriesBank(files: FileUtilities.Files, classPath: string, categories: seq<string>)
    : Result<seq<Questions.QuestionData>>
  {
    if categories == [] then Ok([])
    else
      match CategoryBank(files, classPath, categories[0])
      case Err(e) => Err(e)
      case Ok(d) => Prefixed(d, CategoriesBank(files, classPath, categories[1..]))
  }

  /** The first category that fails is the failure; one that reads puts its questions in front
      of the later categories'. */
  lemma CategoriesStep(files: FileUtilities.Files, classPath: string, categories: seq<string>)
    requires categories != []
    ensures CategoryBank(files, classPath, categories[0]).Err? ==>
      CategoriesBank(files, classPath, categories) == Err(CategoryBank(files, classPath, categories[0]).error)
    ensures CategoryBank(files, classPath, categories[0]).Ok? ==>
      CategoriesBank(files, classPath, categories)
        == Prefixed(CategoryBank(files, classPath, categories[0]).value, CategoriesBank(files, classPath, categories[1..]))
  {
  }

  lemma PrefixedErr<T>(front: seq<T>, r: Result<seq<T>>)
    requires r.Err?
    ensures Prefixed(front, r) == r
  {
  }

  /** The whole bank of a class: the categories the index lists, each read in turn. */
  function Bank(files: FileUtilities.Files, classPath: string): Result<seq<Questions.QuestionData>> {
    match FileUtilities.FromFileCleaned(files, classPath + QUESTIONS_INDEX)
    case Err(e) => Err(e)
    case Ok(index) => CategoriesBank(files, classPath, Utilities.Split(index, EOL))
  }

  /** The question objects hold the decoded questions, one for one. */
  predicate Holds(qs: seq<Questions.StaticQuestion>, ds: seq<Questions.QuestionData>)
    reads qs
  {
    |qs| == |ds| && forall i :: 0 <= i < |qs| ==> qs[i].Data() == ds[i]
  }

  lemma HoldsAppend(a: seq<Questions.StaticQuestion>, b: seq<Questions.StaticQuestion>,
                    da: seq<Questions.QuestionData>, db: seq<Questions.QuestionData>)
    requires Holds(a, da) && Holds(b, db)
    ensures Holds(a + b, da + db)
  {
    forall i | 0 <= i < |a + b|
      ensures (a + b)[i].Data() == (da + db)[i]
    {
      if i >= |a| {
        assert (a + b)[i] == b[i - |a|] && (da + db)[i] == db[i - |a|];
      }
    }
  }

  /** A category decodes exactly when every line after its first is a static question that
      decodes, and then it holds those questions in order. */
  lemma {:induction false} DispatchMeaning(lines: seq<string>)
    ensures Dispatch(lines).Ok? <==>
      forall i :: 0 <= i < |lines| ==> Questions.IsStatic(lines[i]) == Ok(true) && Questions.ParseLine(lines[i]).Ok?
    ensures Dispatch(lines).Ok? ==>
      && |Dispatch(lines).value| == |lines|
      && forall i :: 0 <= i < |lines| ==> Dispatch(lines).value[i] == Questions.ParseLine(lines[i]).value
  {
    if lines != [] {
      DispatchMeaning(lines[1..]);
      DispatchOkStep(lines);
      if Dispatch(lines).Ok? {
        forall i | 0 <= i < |lines|
          ensures Dispatch(lines).value[i] == Questions.ParseLine(lines[i]).value
        {
          if i > 0 {
            assert lines[1..][i - 1] == lines[i];
          }
        }
      } else if Questions.IsStatic(lines[0]) == Ok(true) && Questions.ParseLine(lines[0]).Ok? {
        assert !forall i :: 0 <= i < |lines[1..]| ==>
          Questions.IsStatic(lines[1..][i]) == Ok(true) && Questions.ParseLine(lines[1..][i]).Ok?;
        var i :| 0 <= i < |lines[1..]| &&
          !(Questions.IsStatic(lines[1..][i]) == Ok(true) && Questions.ParseLine(lines[1..][i]).Ok?);
        assert lines[1..][i] == lines[i + 1];
      }
    }
  }

  /** The first line of a non-empty category decodes in front of the rest, or it is the failure. */
  lemma DispatchOkStep(lines: seq<string>)
    requires lines != []
    ensures Dispatch(lines).Ok? <==>
      Questions.IsStatic(lines[0]) == Ok(true) && Questions.ParseLine(lines[0]).Ok? && Dispatch(lines[1..]).Ok?
    ensures Dispatch(lines).Ok? ==>
      Dispatch(lines).value == [Questions.ParseLine(lines[0]).value] + Dispatch(lines[1..]).value
  {
  }

  /** The first line of a category file only names the category: whatever it says, the questions
      are those of the lines after it. */
  lemma FirstLineIgnored(name: string, other: string, rest: string)
    requires |name| > 0 && |other| > 0 && EOL !in name && EOL !in other
    ensures Dispatch(Tail(Utilities.Split(name + [EOL] + rest, EOL)))
         == Dispatch(Tail(Utilities.Split(other + [EOL] + rest, EOL)))
  {
    Utilities.SplitLeadingField(name, rest, EOL);
    Utilities.SplitLeadingField(other, rest, EOL);
    assert ([name] + Utilities.Split(rest, EOL))[1..] == Utilities.Split(rest, EOL);
    assert ([other] + Utilities.Split(rest, EOL))[1..] == Utilities.Split(rest, EOL);
  }

  /** A line of a category, after the first, that is not a static question stops the load. */
  lemma UnknownTypeFails(lines: seq<string>, k: nat)
    requires 0 < k < |lines| && lines[k] != [] && lines[k][0] != 's'
    ensures Dispatch(Tail(lines)).Err?
  {
    DispatchMeaning(Tail(lines));
    assert Tail(lines)[k - 1] == lines[k];
  }

  /** One more element of a prefix. */
  lemma PrefixSnoc<T>(xs: seq<T>, i: nat)
    requires i < |xs|
    ensures xs[..i + 1] == xs[..i] + [xs[i]]
  {
  }

  // ---------------------------------------------------------------------------------------------
  // Reports

  /** The histories and their questions, as a reads frame. */
  function Footprint(hs: seq<StaticQuestionHistory>): set<object> {
    (set h | h in hs :: h as object) + (set h | h in hs :: h.question as object)
  }

  /** The histories with some tags are among the histories. */
  lemma TaggedWithin(hs: seq<StaticQuestionHistory>, tags: seq<string>)
    ensures forall h :: h in Quizzes.Tagged(hs, tags) ==> h in hs && h in Footprint(hs)
    ensures Footprint(Quizzes.Tagged(hs, tags)) <= Footprint(hs)
  {
    Quizzes.TaggedMeaning(hs, tags);
  }

  /** Each history is in the frame. */
  lemma InFootprint(hs: seq<StaticQuestionHistory>)
    ensures forall h :: h in hs ==> h in Footprint(hs)
  {
  }

  /** A history with some tags is one of the histories, and its question has the tags. */
  lemma TaggedMember(hs: seq<StaticQuestionHistory>, tags: seq<string>, h: StaticQuestionHistory)
    requires h in Quizzes.Tagged(hs, tags)
    ensures h in hs && h.question.HasTags(tags)
  {
    Quizzes.TaggedMeaning(hs, tags);
  }

  /** The histories with one tag are among the histories. */
  lemma WithTagWithin(hs: seq<StaticQuestionHistory>, tag: string)
    ensures forall h :: h in WithTag(hs, tag) ==> h in hs && h in Footprint(hs)
    ensures Footprint(WithTag(hs, tag)) <= Footprint(hs)
  {
    WithTagMeaning(hs, tag);
  }

  lemma WithTagMember(hs: seq<StaticQuestionHistory>, tag: string, h: StaticQuestionHistory)
    requires h in WithTag(hs, tag)
    ensures h in hs
  {
    WithTagMeaning(hs, tag);
  }

  /** What toString shows of each history: its question and its records. */
  function Contents(hs: seq<StaticQuestionHistory>): (ds: seq<(Questions.QuestionData, seq<Answer>)>)
    reads Footprint(hs)
    ensures |ds| == |hs|
  {
    seq(|hs|, i requires 0 <= i < |hs| reads Footprint(hs) => (hs[i].question.Data(), hs[i].responses))
  }

  /** toString of each history, in order. */
  function Texts(ds: seq<(Questions.QuestionData, seq<Answer>)>): (ts: seq<string>)
    ensures |ts| == |ds|
  {
    seq(|ds|, i requires 0 <= i < |ds| => HistoryText(Questions.EncodeAsWritten(ds[i].0), ds[i].1))
  }

  /** getHistory: the title line, then toString and a line break for every history whose question
      has all the tags. */
  function HistoryReport(hs: seq<StaticQuestionHistory>, tags: seq<string>): string
    reads Footprint(hs)
  {
    TaggedWithin(hs, tags);
    HISTORY_REPORT_TITLE + [EOL] + Utilities.JoinTerminated(Texts(Contents(Quizzes.Tagged(hs, tags))), EOL)
  }

  /** The toString of one history, as the report lists it. */
  lemma TextAt(hs: seq<StaticQuestionHistory>, i: nat)
    requires i < |hs|
    ensures Texts(Contents(hs))[i] == HistoryText(Questions.EncodeAsWritten(hs[i].question.Data()), hs[i].responses)
  {
  }

  lemma ContentsAppend(a: seq<StaticQuestionHistory>, b: seq<StaticQuestionHistory>)
    ensures Contents(a + b) == Contents(a) + Contents(b)
  {
    var whole, front, back := Contents(a + b), Contents(a), Contents(b);
    forall i | 0 <= i < |whole|
      ensures whole[i] == (front + back)[i]
    {
      if i < |a| {
        assert (a + b)[i] == a[i];
      } else {
        assert (a + b)[i] == b[i - |a|];
      }
    }
  }

  lemma TextsAppend(a: seq<(Questions.QuestionData, seq<Answer>)>, b: seq<(Questions.QuestionData, seq<Answer>)>)
    ensures Texts(a + b) == Texts(a) + Texts(b)
  {
    var whole, front, back := Texts(a + b), Texts(a), Texts(b);
    forall i | 0 <= i < |whole|
      ensures whole[i] == (front + back)[i]
    {
      if i < |a| {
        assert (a + b)[i] == a[i];
      } else {
        assert (a + b)[i] == b[i - |a|];
      }
    }
  }

  /** The report grows history by history: one more history adds its toString and a line break at
      the end exactly when its question has all the tags, so the report shows those histories and
      no others, in the student's order. */
  lemma HistoryReportSnoc(hs: seq<StaticQuestionHistory>, h: StaticQuestionHistory, tags: seq<string>)
    ensures HistoryReport(hs + [h], tags) == HistoryReport(hs, tags) +
      (if h.question.HasTags(tags) then HistoryText(Questions.EncodeAsWritten(h.question.Data()), h.responses) + [EOL] else "")
  {
    var front := Quizzes.Tagged(hs, tags);
    var last := Quizzes.Tagged([h], tags);
    Quizzes.TaggedAppend(hs, [h], tags);
    assert last == Quizzes.Tagged([h][..0], tags) + (if h.question.HasTags(tags) then [h] else []);
    ContentsAppend(front, last);
    TextsAppend(Contents(front), Contents(last));
    Utilities.JoinTerminatedAppend(Texts(Contents(front)), Texts(Contents(last)), EOL);
    Utilities.AppendAssociates(HISTORY_REPORT_TITLE + [EOL], Utilities.JoinTerminated(Texts(Contents(front)), EOL),
                                 Utilities.JoinTerminated(Texts(Contents(last)), EOL));
    if h.question.HasTags(tags) {
      var t := HistoryText(Questions.EncodeAsWritten(h.question.Data()), h.responses);
      assert Texts(Contents(last)) == [t];
      Utilities.JoinTerminatedOne(t, EOL);
    } else {
      assert Texts(Contents(last)) == [];
    }
  }

  /** With no tags the report shows every history. */
  lemma HistoryReportUntagged(hs: seq<StaticQuestionHistory>)
    ensures HistoryReport(hs, []) == HISTORY_REPORT_TITLE + [EOL] + Utilities.JoinTerminated(Texts(Contents(hs)), EOL)
  {
    Quizzes.TaggedNoTags(hs);
  }

  /** Math.round: the nearest integer, halves rounded up. */
  function Round(x: real): int {
    (x + 0.5).Floor
  }

  lemma RoundIsNearest(x: real)
    ensures x - 0.5 < Round(x) as real <= x + 0.5
  {
  }

  /** getPercentMastered: the mean mastery as a rounded percentage; with no histories the mean is
      0/0, and Math.round of that is 0. */
  function RoundedPercent(m: Option<real>): int {
    match m
    case None => 0
    case Some(x) => Round(x * 100.0)
  }

  /** The percentage is the mean mastery times 100 to within a half, and lies in 0..100 unless a
      history has a correct answer dated in the future by twice its waiting time or more. */
  lemma PercentMasteredBounds(hs: seq<StaticQuestionHistory>, now: int)
    requires NoFarFutureCorrect(hs, now)
    ensures hs == [] ==> RoundedPercent(MeanMastery(hs, now)) == 0
    ensures hs != [] ==> var x := MeanMastery(hs, now).value * 100.0;
      x - 0.5 < RoundedPercent(MeanMastery(hs, now)) as real <= x + 0.5
    ensures 0 <= RoundedPercent(MeanMastery(hs, now)) <= 100
  {
    forall i | 0 <= i < |hs|
      ensures Mastery(hs[i].responses, now) <= 1.0
    {
      assert hs[i] in hs;
      MasteryAtMostOne(hs[i].responses, now);
    }
    MeanMasteryBounds(hs, now);
    if hs != [] {
      RoundIsNearest(MeanMastery(hs, now).value * 100.0);
    }
  }

  /** (int) (mean * 100): the percentage cut toward zero; (int) of 0/0 is 0. */
  function TruncatedPercent(m: Option<real>): int {
    match m
    case None => 0
    case Some(x) => UserInterface.Trunc(x * 100.0)
  }

  /** One row of the progress table: the tag, its truncated percentage and its bar. */
  function ProgressRow(tag: string, m: Option<real>): seq<string> {
    var p := TruncatedPercent(m);
    [tag, Numerals.ShowInt(p) + "%", UserInterface.ProgressBar(BAR_LENGTH, p as real / 100.0)]
  }

  /** getPercentMastered(tag) for each tag: the mean mastery of the histories with that tag. */
  function TagMeans(hs: seq<StaticQuestionHistory>, tags: seq<string>, now: int): (ms: seq<Option<real>>)
    reads Footprint(hs)
    ensures |ms| == |tags|
  {
    seq(|tags|, i requires 0 <= i < |tags| reads Footprint(hs) => TagMean(hs, tags[i], now))
  }

  /** getPercentMastered(tag) before rounding: the mean mastery of the histories with the tag. */
  function TagMean(hs: seq<StaticQuestionHistory>, tag: string, now: int): Option<real>
    reads Footprint(hs)
  {
    WithTagWithin(hs, tag);
    MeanMastery(WithTag(hs, tag), now)
  }

  /** The rows after the header, one per tag in order. */
  function ProgressRows(tags: seq<string>, means: seq<Option<real>>): (rows: seq<seq<string>>)
    requires |means| == |tags|
    ensures |rows| == |tags|
  {
    seq(|tags|, i requires 0 <= i < |tags| => ProgressRow(tags[i], means[i]))
  }

  /** The table sendProgressReport fills. */
  function ProgressTable(hs: seq<StaticQuestionHistory>, tags: seq<string>, now: int): seq<seq<string>>
    reads Footprint(hs)
  {
    [PROGRESS_HEADER] + ProgressRows(tags, TagMeans(hs, tags, now))
  }

  lemma ProgressRowsSnoc(tags: seq<string>, means: seq<Option<real>>, i: nat)
    requires |means| == |tags| && i < |tags|
    ensures ProgressRows(tags[..i + 1], means[..i + 1]) == ProgressRows(tags[..i], means[..i]) + [ProgressRow(tags[i], means[i])]
  {
  }

  /** A row's percentage lies in 0..100 and is 100 times the mastery cut down to a whole number;
      its bar is BAR_LENGTH places between brackets, a tenth of the percentage of them filled. */
  lemma ProgressRowShape(tag: string, m: Option<real>)
    requires m.Some? ==> 0.0 <= m.value <= 1.0
    ensures var row := ProgressRow(tag, m);
      var p := TruncatedPercent(m);
      && |row| == 3 && row[0] == tag && row[1] == Numerals.ShowInt(p) + "%"
      && 0 <= p <= 100
      && (m.None? ==> p == 0)
      && (m.Some? ==> p as real <= m.value * 100.0 < p as real + 1.0)
      && |row[2]| == BAR_LENGTH + 2 && row[2][0] == '[' && row[2][BAR_LENGTH + 1] == ']'
      && (forall i :: 1 <= i <= p / 10 ==> row[2][i] == '=')
      && (forall i :: p / 10 < i <= BAR_LENGTH ==> row[2][i] == ' ')
  {
    var p := TruncatedPercent(m);
    PercentBounds(m);
    var progress := p as real / 100.0;
    UserInterface.ProgressBarShape(BAR_LENGTH, progress);
    TenthFloor(p);
  }

  /** The row of one tag: the tag, then its percentage, which lies in 0..100. */
  lemma ProgressTableRow(hs: seq<StaticQuestionHistory>, tags: seq<string>, now: int, i: nat)
    requires NoFarFutureCorrect(hs, now) && i < |tags|
    ensures var row := ProgressTable(hs, tags, now)[i + 1];
      var p := TruncatedPercent(MeanMastery(WithTag(hs, tags[i]), now));
      |row| == 3 && row[0] == tags[i] && 0 <= p <= 100 && row[1] == Numerals.ShowInt(p) + "%"
  {
    var means := TagMeans(hs, tags, now);
    assert ProgressTable(hs, tags, now)[i + 1] == ProgressRows(tags, means)[i] == ProgressRow(tags[i], means[i]);
    assert means[i] == MeanMastery(WithTag(hs, tags[i]), now);
    TaggedMasteryBounds(hs, tags[i], now);
    PercentBounds(means[i]);
  }

  /** A mastery between 0 and 1 truncates to a percentage between 0 and 100. */
  lemma PercentBounds(m: Option<real>)
    requires m.Some? ==> 0.0 <= m.value <= 1.0
    ensures 0 <= TruncatedPercent(m) <= 100
  {
  }

  lemma TenthFloor(p: int)
    requires 0 <= p
    ensures (BAR_LENGTH as real * (p as real / 100.0)).Floor == p / 10
  {
    var q := p / 10;
    var r := p % 10;
    assert p == 10 * q + r;
    assert BAR_LENGTH as real * (p as real / 100.0) == q as real + r as real / 10.0;
  }

  /** No history has a correct answer dated in the future by twice its waiting time or more, so
      every mastery stays within [0, 1]. */
  predicate NoFarFutureCorrect(hs: seq<StaticQuestionHistory>, now: int)
    reads hs
  {
    forall h :: h in hs ==> DaysSinceLastCorrect(h.responses, now) > -2 * WaitingTime(h.responses)
  }

  /** The mean mastery of the histories with one tag stays within [0, 1]. */
  lemma TaggedMasteryBounds(hs: seq<StaticQuestionHistory>, tag: string, now: int)
    requires NoFarFutureCorrect(hs, now)
    ensures var m := MeanMastery(WithTag(hs, tag), now);
      m.Some? ==> 0.0 <= m.value <= 1.0
  {
    var tagged := WithTag(hs, tag);
    forall j | 0 <= j < |tagged|
      ensures Mastery(tagged[j].responses, now) <= 1.0
    {
      WithTagMember(hs, tag, tagged[j]);
      MasteryAtMostOne(tagged[j].responses, now);
    }
    MeanMasteryBounds(tagged, now);
  }

  /** The progress table has a row per tag after the fixed header, three cells in each, the tags
      in order in the first column and each tag's truncated percentage, within 0..100, in the
      second. */
  lemma ProgressTableShape(hs: seq<StaticQuestionHistory>, tags: seq<string>, now: int)
    requires NoFarFutureCorrect(hs, now)
    ensures var table := ProgressTable(hs, tags, now);
      && |table| == |tags| + 1 && table[0] == PROGRESS_HEADER
      && (forall r :: 0 <= r < |table| ==> |table[r]| == 3)
      && (forall i :: 0 <= i < |tags| ==> table[i + 1][0] == tags[i])
      && (forall i :: 0 <= i < |tags| ==>
            var p := TruncatedPercent(MeanMastery(WithTag(hs, tags[i]), now));
            0 <= p <= 100 && table[i + 1][1] == Numerals.ShowInt(p) + "%")
  {
    var table := ProgressTable(hs, tags, now);
    forall i | 0 <= i < |tags|
      ensures |table[i + 1]| == 3 && table[i + 1][0] == tags[i]
      ensures var p := TruncatedPercent(MeanMastery(WithTag(hs, tags[i]), now));
        0 <= p <= 100 && table[i + 1][1] == Numerals.ShowInt(p) + "%"
    {
      ProgressTableRow(hs, tags, now, i);
    }
    forall r | 0 <= r < |table|
      ensures |table[r]| == 3
    {
      if r > 0 {
        assert |table[(r - 1) + 1]| == 3;
      }
    }
  }

  /** The progress report never fails: every row has the header's three cells, no header cell is
      empty, and three columns are far below the table width. */
  lemma ProgressReportSucceeds(hs: seq<StaticQuestionHistory>, tags: seq<string>, now: int)
    ensures UserInterface.TableText(ProgressTable(hs, tags, now)).Ok?
  {
    var table := ProgressTable(hs, tags, now);
    var means := TagMeans(hs, tags, now);
    forall r | 0 <= r < |table|
      ensures |table[r]| == |table[0]|
    {
      if r > 0 {
        assert table[r] == ProgressRow(tags[r - 1], means[r - 1]);
      }
    }
    UserInterface.TableSucceeds(table);
  }

  // ---------------------------------------------------------------------------------------------
  // Tags

  /** Every tag of every question, in question order and then tag order, repeats included. */
  function TagsListed(qs: seq<Questions.StaticQuestion>): seq<string>
    reads qs
  {
    if qs == [] then [] else TagsListed(qs[..|qs| - 1]) + qs[|qs| - 1].tags
  }

  /** The first occurrence of each value, in the order of those occurrences. */
  function FirstOccurrences<T(==)>(xs: seq<T>): seq<T> {
    if xs == [] then []
    else
      var front := FirstOccurrences(xs[..|xs| - 1]);
      if xs[|xs| - 1] in front then front else front + [xs[|xs| - 1]]
  }

  /** Where x first occurs in xs. */
  function FirstIndex<T(==)>(xs: seq<T>, x: T): (k: nat)
    requires x in xs
    ensures k < |xs| && xs[k] == x
  {
    var n := |xs| - 1;
    if x in xs[..n] then FirstIndex(xs[..n], x) else n
  }

  lemma FirstOccurrencesSnoc<T>(xs: seq<T>, x: T)
    ensures FirstOccurrences(xs + [x]) ==
      if x in FirstOccurrences(xs) then FirstOccurrences(xs) else FirstOccurrences(xs) + [x]
  {
    assert (xs + [x])[..|xs|] == xs;
  }

  /** The same values as the list, each once. */
  lemma {:induction false} FirstOccurrencesMembers<T>(xs: seq<T>)
    ensures forall x :: x in FirstOccurrences(xs) <==> x in xs
    ensures forall i, j :: 0 <= i < j < |FirstOccurrences(xs)| ==> FirstOccurrences(xs)[i] != FirstOccurrences(xs)[j]
  {
    if xs != [] {
      var n := |xs| - 1;
      FirstOccurrencesMembers(xs[..n]);
      assert xs == xs[..n] + [xs[n]];
    }
  }

  lemma FirstIndexSnoc<T>(xs: seq<T>, x: T, y: T)
    requires y in xs
    ensures FirstIndex(xs + [x], y) == FirstIndex(xs, y)
  {
    assert (xs + [x])[..|xs|] == xs;
  }

  lemma FirstIndexIsFirst<T>(xs: seq<T>, x: T, k: nat)
    requires k < |xs| && xs[k] == x
    ensures FirstIndex(xs, x) <= k
    decreases |xs|
  {
    var n := |xs| - 1;
    if k < n {
      assert xs[..n][k] == x;
      FirstIndexIsFirst(xs[..n], x, k);
    }
  }

  /** Listed in the order in which each first occurs. */
  lemma {:induction false} FirstOccurrencesOrdered<T>(xs: seq<T>)
    ensures forall x :: x in FirstOccurrences(xs) ==> x in xs
    ensures forall i, j :: 0 <= i < j < |FirstOccurrences(xs)| ==>
      FirstIndex(xs, FirstOccurrences(xs)[i]) < FirstIndex(xs, FirstOccurrences(xs)[j])
  {
    FirstOccurrencesMembers(xs);
    if xs != [] {
      var n := |xs| - 1;
      var front := xs[..n];
      var fs := FirstOccurrences(front);
      FirstOccurrencesOrdered(front);
      FirstOccurrencesMembers(front);
      assert xs == front + [xs[n]];
      forall y | y in fs
        ensures FirstIndex(xs, y) == FirstIndex(front, y)
      {
        FirstIndexSnoc(front, xs[n], y);
      }
      if xs[n] !in fs {
        assert FirstIndex(xs, xs[n]) == n;
        forall i | 0 <= i < |fs|
          ensures FirstIndex(xs, fs[i]) < n
        {
          assert fs[i] in fs;
        }
      }
    }
  }

  lemma {:induction false} TagsListedMembers(qs: seq<Questions.StaticQuestion>)
    ensures forall t :: t in TagsListed(qs) <==> exists i :: 0 <= i < |qs| && t in qs[i].tags
  {
    if qs != [] {
      var n := |qs| - 1;
      TagsListedMembers(qs[..n]);
      assert TagsListed(qs) == TagsListed(qs[..n]) + qs[n].tags;
      forall t | t in TagsListed(qs)
        ensures exists i :: 0 <= i < |qs| && t in qs[i].tags
      {
        if t !in qs[n].tags {
          assert t in TagsListed(qs[..n]);
          var i :| 0 <= i < n && t in qs[..n][i].tags;
          assert qs[i] == qs[..n][i];
        }
      }
      forall t | exists i :: 0 <= i < |qs| && t in qs[i].tags
        ensures t in TagsListed(qs)
      {
        var i :| 0 <= i < |qs| && t in qs[i].tags;
        if i < n {
          assert qs[..n][i] == qs[i];
        }
      }
    }
  }

  /** getAllTags holds a tag exactly when some question has it, holds no tag twice, and lists
      them in the order they first occur, question by question. */
  lemma AllTagsMeaning(qs: seq<Questions.StaticQuestion>)
    ensures forall t :: t in FirstOccurrences(TagsListed(qs)) <==> exists i :: 0 <= i < |qs| && t in qs[i].tags
    ensures var tags := FirstOccurrences(TagsListed(qs));
      forall i, j :: 0 <= i < j < |tags| ==> tags[i] != tags[j]
    ensures forall t :: t in FirstOccurrences(TagsListed(qs)) ==> t in TagsListed(qs)
    ensures var tags := FirstOccurrences(TagsListed(qs));
      forall i, j :: 0 <= i < j < |tags| ==>
        FirstIndex(TagsListed(qs), tags[i]) < FirstIndex(TagsListed(qs), tags[j])
  {
    TagsListedMembers(qs);
    FirstOccurrencesMembers(TagsListed(qs));
    FirstOccurrencesOrdered(TagsListed(qs));
  }

  // ---------------------------------------------------------------------------------------------
  // Quizzes on several tag lists

  /** The pool of getAutoStaticQuiz(tagLists): the first list's histories sorted, then each later
      list merged in by moreTags and the pool sorted again. */
  function PoolFor(hs: seq<StaticQuestionHistory>, tagLists: seq<seq<string>>, now: int): (p: seq<StaticQuestionHistory>)
    requires |tagLists| > 0
    reads Footprint(hs)
    decreases |tagLists|, 0
  {
    var n := |tagLists| - 1;
    var tagged := Quizzes.Tagged(hs, tagLists[n]);
    TaggedWithin(hs, tagLists[n]);
    if n == 0 then
      Quizzes.SortedPool(tagged, now)
    else
      var front := PoolFor(hs, tagLists[..n], now);
      PoolForWithin(hs, tagLists[..n], now);
      InFootprint(hs);
      Quizzes.MergeMeaning(front, tagged);
      Quizzes.SortedPool(Quizzes.Merge(front, tagged), now)
  }

  /** The pool draws only on the student's histories. */
  lemma {:induction false} PoolForWithin(hs: seq<StaticQuestionHistory>, tagLists: seq<seq<string>>, now: int)
    requires |tagLists| > 0
    ensures forall h :: h in PoolFor(hs, tagLists, now) ==> h in hs
    decreases |tagLists|, 1
  {
    var n := |tagLists| - 1;
    var tagged := Quizzes.Tagged(hs, tagLists[n]);
    TaggedWithin(hs, tagLists[n]);
    if n == 0 {
      SortedPoolMembers(tagged, now);
      forall h | h in PoolFor(hs, tagLists, now)
        ensures h in hs
      {
        SortedPoolMember(tagged, now, h);
        TaggedMember(hs, tagLists[n], h);
      }
    } else {
      var front := PoolFor(hs, tagLists[..n], now);
      var merged := Quizzes.Merge(front, tagged);
      PoolForWithin(hs, tagLists[..n], now);
      forall h | h in PoolFor(hs, tagLists, now)
        ensures h in hs
      {
        SortedPoolMember(merged, now, h);
        MergeMember(front, tagged, h);
        if h !in front {
          TaggedMember(hs, tagLists[n], h);
        }
      }
    }
  }

  /** Sorting keeps the pool's histories. */
  lemma SortedPoolMembers(pool: seq<StaticQuestionHistory>, now: int)
    ensures forall h :: h in Quizzes.SortedPool(pool, now) <==> h in pool
  {
    Quizzes.SortedPoolCorrect(pool, now);
    forall h
      ensures h in Quizzes.SortedPool(pool, now) <==> h in pool
    {
      assert h in multiset(Quizzes.SortedPool(pool, now)) <==> h in multiset(pool);
    }
  }

  lemma SortedPoolMember(pool: seq<StaticQuestionHistory>, now: int, h: StaticQuestionHistory)
    requires h in Quizzes.SortedPool(pool, now)
    ensures h in pool
  {
    SortedPoolMembers(pool, now);
  }

  lemma MergeMember(pool: seq<StaticQuestionHistory>, hs: seq<StaticQuestionHistory>, h: StaticQuestionHistory)
    requires h in Quizzes.Merge(pool, hs)
    ensures h in pool || h in hs
  {
    Quizzes.MergeMeaning(pool, hs);
  }

  /** Sorting keeps what the pool holds by question text. */
  lemma SortedPoolHas(pool: seq<StaticQuestionHistory>, now: int, h: StaticQuestionHistory)
    requires Quizzes.PoolHas(pool, h)
    ensures Quizzes.PoolHas(Quizzes.SortedPool(pool, now), h)
  {
    Quizzes.SortedPoolCorrect(pool, now);
    var i :| 0 <= i < |pool| && h.Equals(pool[i]);
    assert pool[i] in multiset(Quizzes.SortedPool(pool, now));
    var j :| 0 <= j < |Quizzes.SortedPool(pool, now)| && Quizzes.SortedPool(pool, now)[j] == pool[i];
  }

  /** Every history in the pool is one of the student's and has all the tags of one of the lists. */
  lemma {:induction false} PoolForMembers(hs: seq<StaticQuestionHistory>, tagLists: seq<seq<string>>, now: int)
    requires |tagLists| > 0
    ensures forall h :: h in PoolFor(hs, tagLists, now) ==>
      h in hs && exists k :: 0 <= k < |tagLists| && h.question.HasTags(tagLists[k])
    decreases |tagLists|
  {
    var n := |tagLists| - 1;
    var tagged := Quizzes.Tagged(hs, tagLists[n]);
    var pool := PoolFor(hs, tagLists, now);
    if n == 0 {
      assert pool == Quizzes.SortedPool(tagged, now);
      forall h | h in pool
        ensures h in hs && exists k :: 0 <= k < |tagLists| && h.question.HasTags(tagLists[k])
      {
        SortedPoolMember(tagged, now, h);
        TaggedMember(hs, tagLists[0], h);
      }
    } else {
      var front := PoolFor(hs, tagLists[..n], now);
      var merged := Quizzes.Merge(front, tagged);
      assert pool == Quizzes.SortedPool(merged, now);
      PoolForMembers(hs, tagLists[..n], now);
      forall h | h in pool
        ensures h in hs && exists k :: 0 <= k < |tagLists| && h.question.HasTags(tagLists[k])
      {
        SortedPoolMember(merged, now, h);
        MergeMember(front, tagged, h);
        if h in front {
          var k :| 0 <= k < |tagLists[..n]| && h.question.HasTags(tagLists[..n][k]);
          assert tagLists[..n][k] == tagLists[k];
        } else {
          TaggedMember(hs, tagLists[n], h);
        }
      }
    }
  }

  /** Every history of the student that has all the tags of one of the lists is in the pool,
      itself or by its question text. */
  lemma {:induction false} PoolForComplete(hs: seq<StaticQuestionHistory>, tagLists: seq<seq<string>>, now: int)
    requires |tagLists| > 0
    ensures forall h, k :: h in hs && 0 <= k < |tagLists| && h.question.HasTags(tagLists[k]) ==>
      Quizzes.PoolHas(PoolFor(hs, tagLists, now), h)
    decreases |tagLists|
  {
    var n := |tagLists| - 1;
    var tagged := Quizzes.Tagged(hs, tagLists[n]);
    var pool := PoolFor(hs, tagLists, now);
    if n == 0 {
      assert pool == Quizzes.SortedPool(tagged, now);
      forall h, k | h in hs && 0 <= k < |tagLists| && h.question.HasTags(tagLists[k])
        ensures Quizzes.PoolHas(pool, h)
      {
        TaggedIncludes(hs, tagLists[0], h);
        SortedPoolHas(tagged, now, h);
      }
    } else {
      PoolForComplete(hs, tagLists[..n], now);
      forall h, k | h in hs && 0 <= k < |tagLists| && h.question.HasTags(tagLists[k])
        ensures Quizzes.PoolHas(pool, h)
      {
        if k < n {
          assert tagLists[..n][k] == tagLists[k];
        }
        PoolForStepHas(hs, tagLists, now, h, k);
      }
    }
  }

  /** One more tag list keeps every history the shorter pool holds and adds those with its tags. */
  lemma PoolForStepHas(hs: seq<StaticQuestionHistory>, tagLists: seq<seq<string>>, now: int,
                       h: StaticQuestionHistory, k: nat)
    requires |tagLists| > 1 && h in hs && k < |tagLists| && h.question.HasTags(tagLists[k])
    requires k < |tagLists| - 1 ==> Quizzes.PoolHas(PoolFor(hs, tagLists[..|tagLists| - 1], now), h)
    ensures Quizzes.PoolHas(PoolFor(hs, tagLists, now), h)
  {
    var n := |tagLists| - 1;
    var tagged := Quizzes.Tagged(hs, tagLists[n]);
    var front := PoolFor(hs, tagLists[..n], now);
    var merged := Quizzes.Merge(front, tagged);
    assert PoolFor(hs, tagLists, now) == Quizzes.SortedPool(merged, now);
    if k < n {
      MergeKeeps(front, tagged, h);
    } else {
      TaggedIncludes(hs, tagLists[n], h);
      MergeAdds(front, tagged, h);
    }
    SortedPoolHas(merged, now, h);
  }

  /** A history of the student whose question has the tags is among the tagged ones, so the
      tagged ones hold it. */
  lemma TaggedIncludes(hs: seq<StaticQuestionHistory>, tags: seq<string>, h: StaticQuestionHistory)
    requires h in hs && h.question.HasTags(tags)
    ensures h in Quizzes.Tagged(hs, tags) && Quizzes.PoolHas(Quizzes.Tagged(hs, tags), h)
  {
    Quizzes.TaggedMeaning(hs, tags);
    var tagged := Quizzes.Tagged(hs, tags);
    var i :| 0 <= i < |tagged| && tagged[i] == h;
    assert h.Equals(tagged[i]);
  }

  /** Merging keeps what the pool holds. */
  lemma MergeKeeps(pool: seq<StaticQuestionHistory>, hs: seq<StaticQuestionHistory>, h: StaticQuestionHistory)
    requires Quizzes.PoolHas(pool, h)
    ensures Quizzes.PoolHas(Quizzes.Merge(pool, hs), h)
  {
    Quizzes.MergeMeaning(pool, hs);
    var i :| 0 <= i < |pool| && h.Equals(pool[i]);
    assert Quizzes.Merge(pool, hs)[i] == pool[i];
  }

  /** Merging holds every added history. */
  lemma MergeAdds(pool: seq<StaticQuestionHistory>, hs: seq<StaticQuestionHistory>, h: StaticQuestionHistory)
    requires h in hs
    ensures Quizzes.PoolHas(Quizzes.Merge(pool, hs), h)
  {
    Quizzes.MergeMeaning(pool, hs);
  }

  lemma PoolForSnoc(hs: seq<StaticQuestionHistory>, tagLists: seq<seq<string>>, i: nat, now: int)
    requires 0 < i < |tagLists|
    ensures PoolFor(hs, tagLists[..i + 1], now)
         == Quizzes.SortedPool(Quizzes.Merge(PoolFor(hs, tagLists[..i], now), Quizzes.Tagged(hs, tagLists[i])), now)
  {
    assert tagLists[..i + 1][..i] == tagLists[..i];
  }

  // ---------------------------------------------------------------------------------------------
  // The engine

  class QuizzingEngine {
    const pathToRoot: string
    const pathToClass: string
    const student: Student
    const questions: seq<Questions.StaticQuestion>
    /** The settings the mailer is built from; None where the configuration lacks the label. */
    const emailUsername: Option<string>
    const emailPassword: Option<string>
    const emailDestination: Option<string>

    /** The state the constructor ends in. */
    constructor Loaded(inPathToRoot: string, inPathToClass: string, inStudent: Student,
                       inQuestions: seq<Questions.StaticQuestion>,
                       username: Option<string>, password: Option<string>, destination: Option<string>)
      ensures pathToRoot == inPathToRoot && pathToClass == inPathToClass && student == inStudent
      ensures questions == inQuestions
      ensures emailUsername == username && emailPassword == password && emailDestination == destination
    {
      pathToRoot := inPathToRoot;
      pathToClass := inPathToClass;
      student := inStudent;
      questions := inQuestions;
      emailUsername := username;
      emailPassword := password;
      emailDestination := destination;
    }

    /** The constructor: the question bank of the class, then the student loaded against it, then
        the two configuration files the mailer reads. The first step that fails is the failure;
        the files are those the student load leaves (it writes blank histories). */
    static method Load(inPathToRoot: string, inStudentName: string, className: string, files: FileUtilities.Files)
      returns (r: Result<QuizzingEngine>, newFiles: FileUtilities.Files, ghost bank: seq<Questions.StaticQuestion>)
      ensures Bank(files, inPathToRoot + "/" + className).Err? ==>
        r == Err(Bank(files, inPathToRoot + "/" + className).error) && newFiles == files
      ensures Bank(files, inPathToRoot + "/" + className).Ok? ==>
        && Holds(bank, Bank(files, inPathToRoot + "/" + className).value)
        && (forall i :: 0 <= i < |bank| ==> fresh(bank[i]))
        && var loaded := LoadStudent(inPathToRoot + "/" + className + "/" + inStudentName, bank, files);
           && newFiles == loaded.1
           && (loaded.0.Err? ==> r == Err(loaded.0.error))
           && (loaded.0.Ok? ==> ConfigLoad(inPathToRoot, inPathToRoot + "/" + className, newFiles).Err? ==>
                 r == Err(ConfigLoad(inPathToRoot, inPathToRoot + "/" + className, newFiles).error))
           && (loaded.0.Ok? && ConfigLoad(inPathToRoot, inPathToRoot + "/" + className, newFiles).Ok? ==>
                 && r.Ok? && fresh(r.value) && fresh(r.value.student)
                 && r.value.pathToRoot == inPathToRoot && r.value.pathToClass == inPathToRoot + "/" + className
                 && r.value.questions == bank
                 && r.value.student.filepath == inPathToRoot + "/" + className + "/" + inStudentName
                 && r.value.student.name == loaded.0.value.0
                 && Describes(r.value.student.questionHistories, loaded.0.value.1)
                 && var settings := ConfigLoad(inPathToRoot, inPathToRoot + "/" + className, newFiles).value;
                    r.value.emailUsername == settings.0 && r.value.emailPassword == settings.1
                    && r.value.emailDestination == settings.2)
    {
      var pathToClass := inPathToRoot + "/" + className;
      newFiles := files;
      bank := [];
      var questionsList := LoadBank(files, pathToClass);
      if questionsList.Err? {
        return Err(questionsList.error), newFiles, bank;
      }
      var questions := questionsList.value;
      bank := questions;
      var loaded;
      loaded, newFiles := Student.Load(pathToClass + "/" + inStudentName, questions, files);
      if loaded.Err? {
        return Err(loaded.error), newFiles, bank;
      }
      var settings := ReadConfig(inPathToRoot, pathToClass, newFiles);
      if settings.Err? {
        return Err(settings.error), newFiles, bank;
      }
      var engine := new QuizzingEngine.Loaded(inPathToRoot, pathToClass, loaded.value, questions,
        settings.value.0, settings.value.1, settings.value.2);
      return Ok(engine), newFiles, bank;
    }

    /** The mailer's settings: the two configuration files must read, and their labels may be
        missing. */
    static method ReadConfig(inPathToRoot: string, pathToClass: string, files: FileUtilities.Files)
      returns (r: Result<(Option<string>, Option<string>, Option<string>)>)
      ensures r == ConfigLoad(inPathToRoot, pathToClass, files)
    {
      var rootConfigText := FileUtilities.FromFileCleaned(files, inPathToRoot + "/" + CONFIG_FILE);
      if rootConfigText.Err? {
        return Err(rootConfigText.error);
      }
      var username := FileUtilities.FindDataFromLabel(rootConfigText.value, "EmailUsername");
      var password := FileUtilities.FindDataFromLabel(rootConfigText.value, "EmailPassword");
      var classConfigText := FileUtilities.FromFileCleaned(files, pathToClass + "/" + CONFIG_FILE);
      if classConfigText.Err? {
        return Err(classConfigText.error);
      }
      var destination := FileUtilities.FindDataFromLabel(classConfigText.value, "EmailReportDestination");
      return Ok((username, password, destination));
    }

    /** The outer loop of the constructor, over the categories the index lists. */
    static method LoadBank(files: FileUtilities.Files, pathToClass: string)
      returns (r: Result<seq<Questions.StaticQuestion>>)
      ensures Bank(files, pathToClass).Err? ==> r == Err(Bank(files, pathToClass).error)
      ensures Bank(files, pathToClass).Ok? ==>
        && r.Ok? && Holds(r.value, Bank(files, pathToClass).value)
        && forall i :: 0 <= i < |r.value| ==> fresh(r.value[i])
    {
      var questionsIndex := FileUtilities.FromFileCleaned(files, pathToClass + QUESTIONS_INDEX);
      if questionsIndex.Err? {
        return Err(questionsIndex.error);
      }
      var categories := Utilities.StringSplitChar(questionsIndex.value, EOL);
      ghost var all := CategoriesBank(files, pathToClass, categories);
      assert Bank(files, pathToClass) == all;
      var questionsList: seq<Questions.StaticQuestion> := [];
      ghost var data: seq<Questions.QuestionData> := [];
      assert categories[0..] == categories;
      PrefixedNothing(all);
      for k := 0 to |categories|
        invariant all == Prefixed(data, CategoriesBank(files, pathToClass, categories[k..]))
        invariant Holds(questionsList, data)
        invariant forall i :: 0 <= i < |questionsList| ==> fresh(questionsList[i])
      {
        assert categories[k..][0] == categories[k] && categories[k..][1..] == categories[k + 1..];
        CategoriesStep(files, pathToClass, categories[k..]);
        var added := LoadCategory(files, pathToClass, categories[k]);
        if added.Err? {
          PrefixedErr(data, CategoriesBank(files, pathToClass, categories[k..]));
          return Err(added.error);
        }
        ghost var d := CategoryBank(files, pathToClass, categories[k]).value;
        PrefixedTwice(data, d, CategoriesBank(files, pathToClass, categories[k + 1..]));
        HoldsAppend(questionsList, added.value, data, d);
        questionsList := questionsList + added.value;
        data := data + d;
      }
      assert categories[|categories|..] == [];
      assert data + [] == data;
      return Ok(questionsList);
    }

    /** The inner loop of the constructor: every line of a category file after its first. */
    static method LoadCategory(files: FileUtilities.Files, pathToClass: string, category: string)
      returns (r: Result<seq<Questions.StaticQuestion>>)
      ensures CategoryBank(files, pathToClass, category).Err? ==>
        r == Err(CategoryBank(files, pathToClass, category).error)
      ensures CategoryBank(files, pathToClass, category).Ok? ==>
        && r.Ok? && Holds(r.value, CategoryBank(files, pathToClass, category).value)
        && forall i :: 0 <= i < |r.value| ==> fresh(r.value[i])
    {
      var categoryText := FileUtilities.FromFileCleaned(files, pathToClass + QUESTIONS_DIRECTORY + category);
      if categoryText.Err? {
        return Err(categoryText.error);
      }
      var categoryLines := Utilities.StringSplitChar(categoryText.value, EOL);
      if |categoryLines| == 0 {
        // no lines at all: the loop from the second line does not run
        return Ok([]);
      }
      ghost var all := Dispatch(categoryLines[1..]);
      assert CategoryBank(files, pathToClass, category) == all;
      var qs: seq<Questions.StaticQuestion> := [];
      ghost var data: seq<Questions.QuestionData> := [];
      PrefixedNothing(all);
      for i := 1 to |categoryLines|
        invariant all == Prefixed(data, Dispatch(categoryLines[i..]))
        invariant Holds(qs, data)
        invariant forall j :: 0 <= j < |qs| ==> fresh(qs[j])
      {
        assert categoryLines[i..][0] == categoryLines[i] && categoryLines[i..][1..] == categoryLines[i + 1..];
        DispatchStep(categoryLines[i..]);
        var q := LoadLine(categoryLines[i]);
        if q.Err? {
          PrefixedErr(data, Dispatch(categoryLines[i..]));
          return Err(q.error);
        }
        ghost var d := q.value.Data();
        PrefixedTwice(data, [d], Dispatch(categoryLines[i + 1..]));
        HoldsAppend(qs, [q.value], data, [d]);
        qs := qs + [q.value];
        data := data + [d];
      }
      assert categoryLines[|categoryLines|..] == [];
      assert data + [] == data;
      return Ok(qs);
    }

    /** The body of the inner loop: the type letter, then the static question's constructor. */
    static method LoadLine(line: string) returns (r: Result<Questions.StaticQuestion>)
      ensures LineQuestion(line).Err? ==> r == Err(LineQuestion(line).error)
      ensures LineQuestion(line).Ok? ==> r.Ok? && fresh(r.value) && r.value.Data() == LineQuestion(line).value
    {
      var isStatic := Questions.IsStatic(line);
      if isStatic.Err? {
        return Err(isStatic.error);
      }
      if !isStatic.value {
        return Err(UnknownQuestionType);
      }
      r := Questions.StaticQuestion.FromLine(line);
    }

    /** getPercentMastered: the student's mean mastery as a rounded percentage. */
    method GetPercentMastered(now: int) returns (p: int)
      ensures p == RoundedPercent(MeanMastery(student.questionHistories, now))
    {
      var m := student.GetPercentMastered(now);
      if m.None? {
        return 0;
      }
      return Round(m.value * 100.0);
    }

    /** getAutoStaticQuiz(numToAsk, tags): a quiz on one tag list. */
    method GetAutoStaticQuiz(numToAsk: int, tags: seq<string>, now: int, draws: seq<nat>)
      returns (q: Quizzes.StaticQuestionQuiz)
      ensures fresh(q) && q.student == student && q.numToAsk == numToAsk && q.quizIndex == 0 && q.start == None
      ensures q.pool == Some(old(Quizzes.SortedPool(Quizzes.Tagged(student.questionHistories, tags), now)))
      ensures q.quiz == Quizzes.QuizOf(q.pool.value, numToAsk, draws)
    {
      q := new Quizzes.StaticQuestionQuiz(numToAsk, student, tags, now, draws);
    }

    /** getAutoStaticQuiz(numToAsk, tagLists): a quiz on the first list, then moreTags with each
        later list in order; makeQuiz runs once per list, the k-th time with draws(k). An empty
        array has no first list. */
    method GetAutoStaticQuizLists(numToAsk: int, tagLists: seq<seq<string>>, now: int, draws: nat -> seq<nat>)
      returns (r: Result<Quizzes.StaticQuestionQuiz>)
      ensures tagLists == [] ==> r == Err(IndexOutOfBounds)
      ensures tagLists != [] ==>
        && r.Ok? && fresh(r.value) && r.value.student == student && r.value.numToAsk == numToAsk
        && r.value.quizIndex == 0 && r.value.start == None
        && r.value.pool == Some(PoolFor(student.questionHistories, tagLists, now))
        && r.value.quiz == Quizzes.QuizOf(r.value.pool.value, numToAsk, draws(|tagLists| - 1))
    {
      if |tagLists| == 0 {
        return Err(IndexOutOfBounds);
      }
      var sqq := StartQuiz(numToAsk, student, tagLists, now, draws(0));
      MoreTagsLoop(sqq, tagLists, now, draws);
      return Ok(sqq);
    }

    /** The quiz getAutoStaticQuiz(tagLists) starts from: the constructor, with the first list. */
    static method StartQuiz(numToAsk: int, student: Student, tagLists: seq<seq<string>>, now: int, draw: seq<nat>)
      returns (sqq: Quizzes.StaticQuestionQuiz)
      requires tagLists != []
      ensures fresh(sqq) && sqq.student == student && sqq.numToAsk == numToAsk && sqq.quizIndex == 0 && sqq.start == None
      ensures sqq !in Footprint(student.questionHistories)
      ensures sqq.pool == Some(PoolFor(student.questionHistories, tagLists[..1], now))
      ensures sqq.quiz == Quizzes.QuizOf(sqq.pool.value, numToAsk, draw)
    {
      assert tagLists[..1][0] == tagLists[0];
      sqq := new Quizzes.StaticQuestionQuiz(numToAsk, student, tagLists[0], now, draw);
    }

    /** The loop of getAutoStaticQuiz(tagLists): moreTags with each later list in order. */
    static method MoreTagsLoop(sqq: Quizzes.StaticQuestionQuiz, tagLists: seq<seq<string>>, now: int, draws: nat -> seq<nat>)
      requires tagLists != [] && sqq !in Footprint(sqq.student.questionHistories)
      requires sqq.pool == Some(PoolFor(sqq.student.questionHistories, tagLists[..1], now))
      requires sqq.quiz == Quizzes.QuizOf(sqq.pool.value, sqq.numToAsk, draws(0))
      modifies sqq
      ensures sqq.numToAsk == old(sqq.numToAsk) && sqq.quizIndex == old(sqq.quizIndex) && sqq.start == old(sqq.start)
      ensures sqq.pool == Some(PoolFor(sqq.student.questionHistories, tagLists, now))
      ensures sqq.quiz == Quizzes.QuizOf(sqq.pool.value, sqq.numToAsk, draws(|tagLists| - 1))
    {
      var hs := sqq.student.questionHistories;
      for i := 1 to |tagLists|
        invariant sqq.student.questionHistories == hs && sqq.numToAsk == old(sqq.numToAsk)
        invariant sqq.quizIndex == old(sqq.quizIndex) && sqq.start == old(sqq.start)
        invariant sqq.pool == Some(PoolFor(hs, tagLists[..i], now))
        invariant sqq.quiz == Quizzes.QuizOf(sqq.pool.value, sqq.numToAsk, draws(i - 1))
      {
        MoreTagsFrom(sqq, hs, tagLists, i, now, draws(i));
      }
      assert tagLists[..|tagLists|] == tagLists;
    }

    /** One turn of the loop of getAutoStaticQuiz(tagLists): moreTags with the next list. */
    static method MoreTagsFrom(sqq: Quizzes.StaticQuestionQuiz, hs: seq<StaticQuestionHistory>, tagLists: seq<seq<string>>,
                               i: nat, now: int, draw: seq<nat>)
      requires 0 < i < |tagLists| && sqq.student.questionHistories == hs && sqq !in Footprint(hs)
      requires sqq.pool == Some(PoolFor(hs, tagLists[..i], now))
      modifies sqq
      ensures sqq.numToAsk == old(sqq.numToAsk) && sqq.quizIndex == old(sqq.quizIndex) && sqq.start == old(sqq.start)
      ensures sqq.pool == Some(PoolFor(hs, tagLists[..i + 1], now))
      ensures sqq.quiz == Quizzes.QuizOf(sqq.pool.value, sqq.numToAsk, draw)
    {
      PoolForSnoc(hs, tagLists, i, now);
      ghost var next := PoolFor(hs, tagLists[..i + 1], now);
      var failure := sqq.MoreTags(tagLists[i], now, draw);
      assert sqq.pool == Some(next);
      assert unchanged(Footprint(hs));
      assert PoolFor(hs, tagLists[..i + 1], now) == next;
    }

    /** getCustomStaticQuiz: the custom quiz of a file. */
    method GetCustomStaticQuiz(pathToQuiz: string, files: FileUtilities.Files)
      returns (r: Result<Quizzes.StaticQuestionQuiz>)
      ensures FileUtilities.FromFileCleaned(files, pathToQuiz).Err? ==>
        r == Err(FileUtilities.FromFileCleaned(files, pathToQuiz).error)
      ensures FileUtilities.FromFileCleaned(files, pathToQuiz).Ok? ==>
        && r.Ok? && fresh(r.value) && r.value.student == student && r.value.pool == None
        && r.value.quiz == Quizzes.CustomSelection(student.questionHistories,
             Utilities.Split(FileUtilities.FromFileCleaned(files, pathToQuiz).value, EOL))
    {
      r := Quizzes.StaticQuestionQuiz.Custom(student, pathToQuiz, files);
    }

    /** getAllTags: the tags of the questions, each kept the first time it is met. */
    method GetAllTags() returns (tags: seq<string>)
      ensures tags == FirstOccurrences(TagsListed(questions))
    {
      var qs := questions;
      tags := [];
      for i := 0 to |qs|
        invariant tags == FirstOccurrences(TagsListed(qs[..i]))
      {
        assert qs[..i + 1][..i] == qs[..i];
        tags := AddAbsent(TagsListed(qs[..i]), tags, qs[i].tags);
      }
      assert qs[..|qs|] == qs;
    }

    /** The inner loop of getAllTags: each tag of one question, added unless already present. */
    static method AddAbsent(ghost seen: seq<string>, tags: seq<string>, newTags: seq<string>)
      returns (r: seq<string>)
      requires tags == FirstOccurrences(seen)
      ensures r == FirstOccurrences(seen + newTags)
    {
      r := tags;
      assert seen + newTags[..0] == seen;
      for j := 0 to |newTags|
        invariant r == FirstOccurrences(seen + newTags[..j])
      {
        var present := Utilities.IsPresent(r, newTags[j]);
        FirstOccurrencesSnoc(seen + newTags[..j], newTags[j]);
        assert seen + newTags[..j + 1] == (seen + newTags[..j]) + [newTags[j]];
        if !present {
          r := r + [newTags[j]];
        }
      }
      assert newTags[..|newTags|] == newTags;
    }

    /** getHistory: the title line, then each shown history's toString and a line break. */
    method GetHistory(tags: seq<string>) returns (s: string)
      ensures s == HistoryReport(student.questionHistories, tags)
    {
      var historiesToShow := Quizzes.StaticQuestionQuiz.TaggedHistories(student.questionHistories, tags);
      ghost var texts := Texts(Contents(historiesToShow));
      ghost var report := HistoryReport(student.questionHistories, tags);
      assert report == HISTORY_REPORT_TITLE + [EOL] + Utilities.JoinTerminated(texts, EOL);
      s := HISTORY_REPORT_TITLE + [EOL];
      ghost var title := s;
      for i := 0 to |historiesToShow|
        invariant s == title + Utilities.JoinTerminated(texts[..i], EOL)
        invariant Texts(Contents(historiesToShow)) == texts && HistoryReport(student.questionHistories, tags) == report
      {
        // qh.toString(), by the text its method is proved to return
        var text := HistoryText(Questions.EncodeAsWritten(historiesToShow[i].question.Data()), historiesToShow[i].responses);
        TextAt(historiesToShow, i);
        assert text == texts[i];
        ghost var before := Utilities.JoinTerminated(texts[..i], EOL);
        PrefixSnoc(texts, i);
        JoinTerminatedSnoc(texts[..i], text, EOL);
        Utilities.AppendAssociates(before, text, [EOL]);
        Utilities.AppendAssociates(title, before, text + [EOL]);
        s := s + (text + [EOL]);
      }
      assert texts[..|texts|] == texts;
    }

    /** The table of sendProgressReport: the fixed header, then a row per tag. */
    method FillProgressTable(tags: seq<string>, now: int) returns (table: seq<seq<string>>)
      ensures table == ProgressTable(student.questionHistories, tags, now)
    {
      ghost var hs := student.questionHistories;
      ghost var means := TagMeans(hs, tags, now);
      table := [PROGRESS_HEADER];
      for i := 0 to |tags|
        invariant table == [PROGRESS_HEADER] + ProgressRows(tags[..i], means[..i])
        invariant student.questionHistories == hs && unchanged(Footprint(hs))
      {
        assert TagMean(hs, tags[i], now) == means[i];
        var row := FillRow(tags[i], now);
        assert unchanged(Footprint(hs));
        ProgressRowsSnoc(tags, means, i);
        table := table + [row];
      }
      assert tags[..|tags|] == tags && means[..|tags|] == means;
    }

    /** One row of the table: the tag, its mastery as a truncated percentage, and its bar. */
    method FillRow(tag: string, now: int) returns (row: seq<string>)
      ensures row == ProgressRow(tag, old(TagMean(student.questionHistories, tag, now)))
    {
      ghost var hs := student.questionHistories;
      ghost var tagged := WithTag(hs, tag);
      ghost var mean := MeanMastery(tagged, now);
      assert mean == TagMean(hs, tag, now);
      var m := student.GetPercentMasteredWithTag(tag, now);
      assert WithTag(hs, tag) == tagged;
      assert MeanMastery(tagged, now) == mean;
      var percentMastery := TruncatedPercent(m);
      var bar := UserInterface.MakeProgressBar(BAR_LENGTH, percentMastery as real / 100.0);
      row := [tag, Numerals.ShowInt(percentMastery) + "%", bar];
    }

    /** sendProgressReport, up to the mailing: the table of every tag's progress, laid out by
        makeTable. */
    method ProgressReport(now: int) returns (r: Result<string>)
      ensures r == UserInterface.TableText(ProgressTable(student.questionHistories, FirstOccurrences(TagsListed(questions)), now))
    {
      ghost var listed := TagsListed(questions);
      var tags := GetAllTags();
      assert TagsListed(questions) == listed;
      var table := FillProgressTable(tags, now);
      assert TagsListed(questions) == listed;
      ghost var expected := ProgressTable(student.questionHistories, tags, now);
      r := UserInterface.MakeTable(table);
      assert TagsListed(questions) == listed;
      assert unchanged(Footprint(student.questionHistories));
      assert ProgressTable(student.questionHistories, tags, now) == expected;
    }
  }

  /** The configuration the constructor reads for the mailer: the root configuration, then the
      class configuration. */
  function ConfigLoad(pathToRoot: string, pathToClass: string, files: FileUtilities.Files)
    : Result<(Option<string>, Option<string>, Option<string>)>
  {
    match FileUtilities.FromFileCleaned(files, pathToRoot + "/" + CONFIG_FILE)
    case Err(e) => Err(e)
    case Ok(rootConfig) =>
      match FileUtilities.FromFileCleaned(files, pathToClass + "/" + CONFIG_FILE)
      case Err(e) => Err(e)
      case Ok(classConfig) =>
        Ok((FileUtilities.FindDataFromLabel(rootConfig, "EmailUsername"),
            FileUtilities.FindDataFromLabel(rootConfig, "EmailPassword"),
            FileUtilities.FindDataFromLabel(classConfig, "EmailReportDestination")))
  }
}
