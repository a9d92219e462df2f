/** QuestionHistory.java and StaticQuestionHistory.java: the append-only ledger of one student's
    answers to one question, and the mastery score computed from it. The clock is the parameter
    `now`, in the whole seconds the answer records use. */
module Histories {
  import opened Wrappers
  import opened Numerals
  import opened Text
  import opened Utilities
  import opened AnswerRecords
  import Questions
  import FileUtilities

  const SECONDS_PER_DAY: int := 86400
  /** Integer.MAX_VALUE, the "never answered correctly" result of getDaysSinceLastCorrect. */
  const INT_MAX: int := 0x7FFF_FFFF
  /** getPercentMastered looks at the last seven days only. */
  const MASTERY_WINDOW: int := 7
  const HISTORY_TITLE: string := "StaticQuestionHistory for ["

  /** Duration.between(from, to).toDays(): whole days from `from` to `to`, truncated toward zero. */
  function DaysBetween(from: int, to: int): int {
    TruncDiv(to - from, SECONDS_PER_DAY)
  }

  function Abs(x: int): nat {
    if x < 0 then -x else x
  }

  function Max(x: nat, y: nat): nat {
    if x < y then y else x
  }

  /** The span getWaitingTime measures between a correct record at `later` and the previous
      correct record at `earlier`: Math.abs of the whole days between them. */
  function Gap(earlier: int, later: int): nat {
    Abs(DaysBetween(later, earlier))
  }

  // The waiting interval

  /** The timestamps of the correct records, in list order; wrong records play no part. */
  function CorrectTimes(rs: seq<Answer>): (ts: seq<int>)
    ensures |ts| <= |rs|
  {
    if rs == [] then []
    else CorrectTimes(rs[..|rs| - 1]) + (if rs[|rs| - 1].correct then [rs[|rs| - 1].timestamp] else [])
  }

  /** The largest gap between consecutive entries, 0 for fewer than two. */
  function MaxGap(ts: seq<int>): nat {
    if |ts| < 2 then 0 else Max(MaxGap(ts[..|ts| - 1]), Gap(ts[|ts| - 2], ts[|ts| - 1]))
  }

  /** MaxGap is the maximum: no consecutive gap exceeds it, and some gap attains it. */
  lemma MaxGapIsMaximum(ts: seq<int>)
    ensures forall i :: 0 <= i < |ts| - 1 ==> Gap(ts[i], ts[i + 1]) <= MaxGap(ts)
    ensures |ts| >= 2 ==> exists i :: 0 <= i < |ts| - 1 && MaxGap(ts) == Gap(ts[i], ts[i + 1])
  {
    forall i | 0 <= i < |ts| - 1
      ensures Gap(ts[i], ts[i + 1]) <= MaxGap(ts)
    {
      MaxGapAbove(ts, i);
    }
    if |ts| >= 2 {
      var i := MaxGapAttained(ts);
    }
  }

  lemma {:induction false} MaxGapAbove(ts: seq<int>, i: nat)
    requires i + 1 < |ts|
    ensures Gap(ts[i], ts[i + 1]) <= MaxGap(ts)
  {
    var n := |ts| - 1;
    var init := ts[..n];
    if i + 1 < n {
      MaxGapAbove(init, i);
      assert init[i] == ts[i] && init[i + 1] == ts[i + 1];
    }
  }

  lemma {:induction false} MaxGapAttained(ts: seq<int>) returns (i: nat)
    requires |ts| >= 2
    ensures i + 1 < |ts| && MaxGap(ts) == Gap(ts[i], ts[i + 1])
  {
    var n := |ts| - 1;
    var init := ts[..n];
    var last := Gap(ts[n - 1], ts[n]);
    assert MaxGap(ts) == Max(MaxGap(init), last);
    if n >= 2 && MaxGap(init) >= last {
      i := MaxGapAttained(init);
      assert init[i] == ts[i] && init[i + 1] == ts[i + 1];
    } else {
      i := n - 1;
    }
  }

  /** No correct timestamps exactly when no record is correct. */
  lemma {:induction false} CorrectTimesEmpty(rs: seq<Answer>)
    ensures CorrectTimes(rs) == [] <==> forall i :: 0 <= i < |rs| ==> !rs[i].correct
  {
    if rs != [] {
      CorrectTimesEmpty(rs[..|rs| - 1]);
      assert forall i :: 0 <= i < |rs| - 1 ==> rs[..|rs| - 1][i] == rs[i];
    }
  }

  /** getWaitingTime: 0 when no record is correct, otherwise (int)(maxSpan * 1.2) + 1 days, where
      maxSpan is the largest gap between consecutive correct records. */
  function WaitingTime(rs: seq<Answer>): nat {
    if CorrectTimes(rs) == [] then 0 else MaxGap(CorrectTimes(rs)) * 6 / 5 + 1
  }

  // Accuracy in a window of days

  /** How many whole days ago an answer was given. */
  function DaysAgo(a: Answer, now: int): int {
    DaysBetween(a.timestamp, now)
  }

  function RightCount(rs: seq<Answer>, maxDaysAgo: int, now: int): nat {
    if rs == [] then 0
    else
      RightCount(rs[..|rs| - 1], maxDaysAgo, now)
      + (if rs[|rs| - 1].correct && DaysAgo(rs[|rs| - 1], now) <= maxDaysAgo then 1 else 0)
  }

  function WrongCount(rs: seq<Answer>, maxDaysAgo: int, now: int): nat {
    if rs == [] then 0
    else
      WrongCount(rs[..|rs| - 1], maxDaysAgo, now)
      + (if !rs[|rs| - 1].correct && DaysAgo(rs[|rs| - 1], now) <= maxDaysAgo then 1 else 0)
  }

  /** getPercentCorrect as written: right / (right + wrong) in double arithmetic, which is 0/0, NaN
      (None here), when no answer falls in the window. */
  function PercentCorrectAsWritten(rs: seq<Answer>, maxDaysAgo: int, now: int): Option<real> {
    var right, wrong := RightCount(rs, maxDaysAgo, now), WrongCount(rs, maxDaysAgo, now);
    if right + wrong == 0 then None else Some(right as real / (right + wrong) as real)
  }

  /** getPercentCorrect as its documentation states it: the share of the answers at most
      maxDaysAgo days old that were right, and 0 when there are none. */
  function PercentCorrect(rs: seq<Answer>, maxDaysAgo: int, now: int): (p: real)
    ensures 0.0 <= p <= 1.0
    ensures RightCount(rs, maxDaysAgo, now) + WrongCount(rs, maxDaysAgo, now) == 0 ==> p == 0.0
  {
    var right, wrong := RightCount(rs, maxDaysAgo, now), WrongCount(rs, maxDaysAgo, now);
    if right + wrong == 0 then 0.0 else right as real / (right + wrong) as real
  }

  // Days since the last correct answer

  /** getDaysSinceLastCorrect as documented: the age in days of the most recent correct record,
      found by scanning from the end, or Integer.MAX_VALUE when there is none. */
  function DaysSinceLastCorrect(rs: seq<Answer>, now: int): int {
    if rs == [] then INT_MAX
    else if rs[|rs| - 1].correct then DaysAgo(rs[|rs| - 1], now)
    else DaysSinceLastCorrect(rs[..|rs| - 1], now)
  }

  /** getDaysSinceLastCorrect as written: the loop `for (i = size - 1; i <= 0; i++)` reads index -1
      of an empty list, looks at the single record of a one-record list, and runs no iteration at
      all for two records or more. */
  function DaysSinceLastCorrectAsWritten(rs: seq<Answer>, now: int): Result<int> {
    if |rs| == 0 then Err(IndexOutOfBounds)
    else if |rs| == 1 && rs[0].correct then Ok(DaysAgo(rs[0], now))
    else Ok(INT_MAX)
  }

  // Mastery

  /** The mastery formula of getPercentMastered once accuracy, waiting time and days since the
      last correct answer are known: accuracy * (1 - d / (2 * wait)) with Java's integer
      division, 0 for the "never" sentinel and for a negative product. */
  function Score(percentCorrect: real, wait: nat, d: int): real
    requires wait > 0
  {
    var percentMastery := percentCorrect * (1 - TruncDiv(d, 2 * wait)) as real;
    if d == INT_MAX then 0.0 else if percentMastery < 0.0 then 0.0 else percentMastery
  }

  /** getPercentMastered with the documented accuracy and days-since-correct: 0 for an empty
      history and for one never answered correctly. */
  function Mastery(rs: seq<Answer>, now: int): (m: real)
    ensures m >= 0.0
    ensures rs == [] ==> m == 0.0
  {
    if |rs| == 0 then 0.0
    else if WaitingTime(rs) == 0 then 0.0
    else Score(PercentCorrect(rs, MASTERY_WINDOW, now), WaitingTime(rs), DaysSinceLastCorrect(rs, now))
  }

  /** getPercentMastered as written, on top of the as-written accuracy (None for NaN) and the
      as-written days-since-correct loop. */
  function MasteryAsWritten(rs: seq<Answer>, now: int): Option<real> {
    if |rs| == 0 then Some(0.0)
    else if WaitingTime(rs) == 0 then Some(0.0)
    else
      var d := DaysSinceLastCorrectAsWritten(rs, now).value;
      match PercentCorrectAsWritten(rs, MASTERY_WINDOW, now)
      case None => if d == INT_MAX then Some(0.0) else None
      case Some(p) => Some(Score(p, WaitingTime(rs), d))
  }

  // compareTo

  /** compareTo on two mastery values, None standing for NaN: -1 when the first is smaller, 1 when
      it is larger, and 0 otherwise, which includes every comparison with NaN. */
  function Compare(x: Option<real>, y: Option<real>): (c: int)
    ensures x.Some? && y.Some? ==> (c == -1 <==> x.value < y.value) && (c == 1 <==> x.value > y.value)
    ensures x.Some? && y.Some? ==> (c == 0 <==> x.value == y.value)
    ensures x.None? || y.None? ==> c == 0
    ensures -1 <= c <= 1
  {
    if x.Some? && y.Some? && x.value < y.value then -1
    else if x.Some? && y.Some? && x.value > y.value then 1
    else 0
  }

  // The file form

  /** The records of a history file: a failure at the first line that does not decode. */
  function DecodeAll(lines: seq<string>): Result<seq<Answer>> {
    if lines == [] then Ok([])
    else
      match DecodeAll(lines[..|lines| - 1])
      case Err(e) => Err(e)
      case Ok(front) =>
        match Decode(lines[|lines| - 1])
        case Err(e) => Err(e)
        case Ok(a) => Ok(front + [a])
  }

  /** The loading constructor: the cleaned file text is split into non-empty lines, the first
      (the header) is skipped and each further line is one record. */
  function LoadAnswers(fileText: string): Result<seq<Answer>> {
    var lines := Split(fileText, EOL);
    if |lines| <= 1 then Ok([]) else DecodeAll(lines[1..])
  }

  function EncodeAll(rs: seq<Answer>): (lines: seq<string>)
    ensures |lines| == |rs| && forall i :: 0 <= i < |rs| ==> lines[i] == Encode(rs[i])
  {
    seq(|rs|, i requires 0 <= i < |rs| => Encode(rs[i]))
  }

  function PersistedAll(rs: seq<Answer>): (ps: seq<Answer>)
    ensures |ps| == |rs| && forall i :: 0 <= i < |rs| ==> ps[i] == Persisted(rs[i])
  {
    seq(|rs|, i requires 0 <= i < |rs| => Persisted(rs[i]))
  }

  /** What the loading constructor makes of the history file at path: its cleaned text, loaded. */
  function ReadHistory(files: FileUtilities.Files, path: string): Result<seq<Answer>> {
    match FileUtilities.FromFileCleaned(files, path)
    case Err(e) => Err(e)
    case Ok(t) => LoadAnswers(t)
  }

  /** toString: a title line naming the question's encoded form, then each record and EOL. */
  function HistoryText(questionText: string, rs: seq<Answer>): string {
    HISTORY_TITLE + questionText + "]" + [EOL] + JoinTerminated(EncodeAll(rs), EOL)
  }

  /** A history of one student for one static question. The question never changes; records are
      only ever appended. */
  class StaticQuestionHistory {
    const question: Questions.StaticQuestion
    var responses: seq<Answer>

    /** The from-scratch constructor: no records yet. */
    constructor (inQuestion: Questions.StaticQuestion)
      ensures question == inQuestion && responses == []
    {
      question := inQuestion;
      responses := [];
    }

    /** The loading constructor: the records of the history file at filepath; a file that cannot
        be read, or a line that does not decode, is the exception the source lets escape. */
    static method Load(inQuestion: Questions.StaticQuestion, filepath: string, files: FileUtilities.Files)
      returns (r: Result<StaticQuestionHistory>)
      ensures ReadHistory(files, filepath).Err? ==> r.Err? && r.error == ReadHistory(files, filepath).error
      ensures ReadHistory(files, filepath).Ok? ==>
        r.Ok? && fresh(r.value) && r.value.question == inQuestion && r.value.responses == ReadHistory(files, filepath).value
    {
      var fileText := FileUtilities.FromFileCleaned(files, filepath);
      if fileText.Err? {
        return Err(fileText.error);
      }
      var fileLines := StringSplitChar(fileText.value, EOL);
      var h := new StaticQuestionHistory(inQuestion);
      if |fileLines| <= 1 {
        return Ok(h);
      }
      var records := DecodeLines(fileLines[1..]);
      if records.Err? {
        return Err(records.error);
      }
      h.responses := records.value;
      return Ok(h);
    }

    /** The loop of the loading constructor: one record per line, in order. */
    static method DecodeLines(lines: seq<string>) returns (r: Result<seq<Answer>>)
      ensures r == DecodeAll(lines)
    {
      var records: seq<Answer> := [];
      for i := 0 to |lines|
        invariant DecodeAll(lines[..i]) == Ok(records)
      {
        DecodeAllSnoc(lines, i);
        var record := Decode(lines[i]);
        if record.Err? {
          DecodeAllKeepsError(lines, i + 1);
          return Err(record.error);
        }
        records := records + [record.value];
      }
      assert lines[..|lines|] == lines;
      return Ok(records);
    }

    /** getQuestion: the question given at construction. */
    method GetQuestion() returns (q: Questions.StaticQuestion)
      ensures q == question
    {
      q := question;
    }

    /** addResponse: one new record stamped now, at the end of the list; the file at path then
        holds its former cleaned text followed by the record's line. The record is kept in memory
        even when the file cannot be read. */
    method AddResponse(response: string, duration: int, correct: bool, now: int, path: string, files: FileUtilities.Files)
      returns (r: Result<FileUtilities.Files>)
      modifies this
      ensures responses == old(responses) + [NewAnswer(response, duration, correct, now)]
      ensures r == FileUtilities.AppendFile(files, path, Encode(NewAnswer(response, duration, correct, now)) + [EOL])
    {
      var sqr := NewAnswer(response, duration, correct, now);
      responses := responses + [sqr];
      var newLine := Encode(sqr) + [EOL];
      var fileText := FileUtilities.FromFileCleaned(files, path);
      if fileText.Err? {
        return Err(fileText.error);
      }
      r := Ok(files[path := FileUtilities.Written(fileText.value + newLine)]);
    }

    /** getWaitingTime: 0 when no record is correct, else the longest span scaled by 1.2, plus 1. */
    method GetWaitingTime() returns (w: int)
      ensures w == WaitingTime(responses)
    {
      var found, first := FirstCorrect();
      if !found {
        return 0;
      }
      var maxSpan := LongestSpan(first);
      w := maxSpan * 6 / 5 + 1;
    }

    /** The first loop of getWaitingTime: the timestamp of the first correct record, if any. */
    method FirstCorrect() returns (found: bool, first: int)
      ensures found <==> CorrectTimes(responses) != []
      ensures found ==> first == CorrectTimes(responses)[0]
    {
      found, first := false, 0;
      for i := 0 to |responses|
        invariant found <==> CorrectTimes(responses[..i]) != []
        invariant found ==> first == CorrectTimes(responses[..i])[0]
      {
        CorrectTimesSnoc(responses, i);
        if !found && responses[i].correct {
          found, first := true, responses[i].timestamp;
        }
      }
      assert responses[..|responses|] == responses;
    }

    /** The second loop of getWaitingTime: over the correct records, the largest span to the
        previous correct one, the first record being its own predecessor. */
    method LongestSpan(first: int) returns (maxSpan: nat)
      requires CorrectTimes(responses) != [] && first == CorrectTimes(responses)[0]
      ensures maxSpan == MaxGap(CorrectTimes(responses))
    {
      maxSpan := 0;
      var lastTime := first;
      for i := 0 to |responses|
        invariant CorrectTimes(responses[..i]) == [] ==> maxSpan == 0 && lastTime == first
        invariant CorrectTimes(responses[..i]) != [] ==>
          maxSpan == MaxGap(CorrectTimes(responses[..i])) && lastTime == Last(CorrectTimes(responses[..i]))
      {
        CorrectTimesSnoc(responses, i);
        if responses[i].correct {
          SpanStep(responses, i, maxSpan, lastTime);
          var span := Gap(lastTime, responses[i].timestamp);
          if span > maxSpan {
            maxSpan := span;
          }
          lastTime := responses[i].timestamp;
        }
      }
      assert responses[..|responses|] == responses;
    }

    /** getPercentCorrect with the documented result for an empty window. */
    method GetPercentCorrect(maxDaysAgo: int, now: int) returns (p: real)
      ensures p == PercentCorrect(responses, maxDaysAgo, now)
    {
      var right, wrong := CountWindow(maxDaysAgo, now);
      if right + wrong == 0.0 {
        return 0.0;
      }
      p := right / (right + wrong);
    }

    /** getPercentCorrect as written: None where the source divides 0 by 0. */
    method GetPercentCorrectAsWritten(maxDaysAgo: int, now: int) returns (p: Option<real>)
      ensures p == PercentCorrectAsWritten(responses, maxDaysAgo, now)
    {
      var right, wrong := CountWindow(maxDaysAgo, now);
      if right + wrong == 0.0 {
        return None;
      }
      p := Some(right / (right + wrong));
    }

    /** The counting loop of getPercentCorrect. */
    method CountWindow(maxDaysAgo: int, now: int) returns (right: real, wrong: real)
      ensures right == RightCount(responses, maxDaysAgo, now) as real
      ensures wrong == WrongCount(responses, maxDaysAgo, now) as real
    {
      right, wrong := 0.0, 0.0;
      for i := 0 to |responses|
        invariant right == RightCount(responses[..i], maxDaysAgo, now) as real
        invariant wrong == WrongCount(responses[..i], maxDaysAgo, now) as real
      {
        assert responses[..i + 1][..i] == responses[..i];
        var daysAgo := DaysBetween(responses[i].timestamp, now);
        if responses[i].correct && daysAgo <= maxDaysAgo {
          right := right + 1.0;
        } else if !responses[i].correct && daysAgo <= maxDaysAgo {
          wrong := wrong + 1.0;
        }
      }
      assert responses[..|responses|] == responses;
    }

    /** getDaysSinceLastCorrect as documented: a scan from the last record back to the first. */
    method GetDaysSinceLastCorrect(now: int) returns (d: int)
      ensures d == DaysSinceLastCorrect(responses, now)
    {
      var i := |responses|;
      assert responses[..i] == responses;
      while i > 0
        invariant 0 <= i <= |responses|
        invariant DaysSinceLastCorrect(responses, now) == DaysSinceLastCorrect(responses[..i], now)
      {
        assert responses[..i][..i - 1] == responses[..i - 1];
        if responses[i - 1].correct {
          return DaysBetween(responses[i - 1].timestamp, now);
        }
        i := i - 1;
      }
      return INT_MAX;
    }

    /** getDaysSinceLastCorrect as written, its loop condition `i <= 0` included. */
    method GetDaysSinceLastCorrectAsWritten(now: int) returns (r: Result<int>)
      ensures r == DaysSinceLastCorrectAsWritten(responses, now)
    {
      var i := |responses| - 1;
      while i <= 0
        invariant i == |responses| - 1 || (i == 1 && |responses| == 1 && !responses[0].correct)
        decreases 1 - i
      {
        if i < 0 || i >= |responses| {
          return Err(IndexOutOfBounds);
        }
        if responses[i].correct {
          return Ok(DaysBetween(responses[i].timestamp, now));
        }
        i := i + 1;
      }
      return Ok(INT_MAX);
    }

    /** getPercentMastered, over the documented accuracy and days-since-correct. */
    method GetPercentMastered(now: int) returns (m: real)
      ensures m == Mastery(responses, now)
    {
      if |responses| == 0 {
        return 0.0;
      }
      var percentCorrect := GetPercentCorrect(MASTERY_WINDOW, now);
      var wait := GetWaitingTime();
      if wait == 0 {
        return 0.0;
      }
      var days := GetDaysSinceLastCorrect(now);
      MasteryParts(responses, now);
      m := Score(percentCorrect, wait, days);
    }

    /** compareTo: both masteries taken at the same instant. */
    method CompareTo(other: StaticQuestionHistory, now: int) returns (c: int)
      ensures c == Compare(Some(Mastery(responses, now)), Some(Mastery(other.responses, now)))
    {
      var mine := GetPercentMastered(now);
      var theirs := other.GetPercentMastered(now);
      if mine < theirs {
        c := -1;
      } else if mine > theirs {
        c := 1;
      } else {
        c := 0;
      }
    }

    /** equals: two histories are equal when their questions are. */
    predicate Equals(other: StaticQuestionHistory) {
      question.Equals(other.question)
    }

    /** toString, with the question written by its own toString as the program writes it. */
    method ToString() returns (s: string)
      ensures s == HistoryText(Questions.EncodeAsWritten(question.Data()), responses)
    {
      var questionText := question.ToStringAsWritten();
      s := HISTORY_TITLE + questionText + "]" + [EOL];
      ghost var title := s;
      for i := 0 to |responses|
        invariant s == title + JoinTerminated(EncodeAll(responses[..i]), EOL)
      {
        EncodeAllSnoc(responses, i);
        TitledSnoc(title, EncodeAll(responses[..i]), Encode(responses[i]), EOL);
        s := s + Encode(responses[i]) + [EOL];
      }
      assert responses[..|responses|] == responses;
    }
  }

  function Last(ts: seq<int>): int
    requires ts != []
  {
    ts[|ts| - 1]
  }

  // Lemmas

  /** A non-empty history with a correct record is scored by the formula. */
  lemma MasteryParts(rs: seq<Answer>, now: int)
    ensures |rs| > 0 && WaitingTime(rs) > 0 ==>
      Mastery(rs, now) == Score(PercentCorrect(rs, MASTERY_WINDOW, now), WaitingTime(rs), DaysSinceLastCorrect(rs, now))
  {
  }

  /** The correct timestamps of a prefix begin those of the whole list. */
  lemma {:induction false} CorrectTimesPrefix(rs: seq<Answer>, j: nat)
    requires j <= |rs|
    ensures CorrectTimes(rs[..j]) <= CorrectTimes(rs)
    decreases |rs|
  {
    if j < |rs| {
      assert rs[..|rs| - 1][..j] == rs[..j];
      CorrectTimesPrefix(rs[..|rs| - 1], j);
    } else {
      assert rs[..j] == rs;
    }
  }

  /** Adding one more timestamp to a list of at least one: the new gap competes with the old maximum. */
  lemma MaxGapSnoc(ts: seq<int>, t: int)
    requires ts != []
    ensures MaxGap(ts + [t]) == Max(MaxGap(ts), Gap(Last(ts), t))
  {
    assert (ts + [t])[..|ts|] == ts;
  }

  /** The correct timestamps of one record more. */
  lemma CorrectTimesSnoc(rs: seq<Answer>, i: nat)
    requires i < |rs|
    ensures rs[i].correct ==> CorrectTimes(rs[..i + 1]) == CorrectTimes(rs[..i]) + [rs[i].timestamp]
    ensures !rs[i].correct ==> CorrectTimes(rs[..i + 1]) == CorrectTimes(rs[..i])
  {
    assert rs[..i + 1][..i] == rs[..i];
    if !rs[i].correct {
      assert CorrectTimes(rs[..i]) + [] == CorrectTimes(rs[..i]);
    }
  }

  /** One correct record in the second loop of getWaitingTime: the span to the previous correct
      record competes with the maximum so far. */
  lemma SpanStep(rs: seq<Answer>, i: nat, maxSpan: nat, lastTime: int)
    requires i < |rs| && rs[i].correct && CorrectTimes(rs) != []
    requires CorrectTimes(rs[..i + 1]) == CorrectTimes(rs[..i]) + [rs[i].timestamp]
    requires CorrectTimes(rs[..i]) == [] ==> maxSpan == 0 && lastTime == CorrectTimes(rs)[0]
    requires CorrectTimes(rs[..i]) != [] ==> maxSpan == MaxGap(CorrectTimes(rs[..i])) && lastTime == Last(CorrectTimes(rs[..i]))
    ensures Max(maxSpan, Gap(lastTime, rs[i].timestamp)) == MaxGap(CorrectTimes(rs[..i + 1]))
  {
    if CorrectTimes(rs[..i]) == [] {
      CorrectTimesPrefix(rs, i + 1);
    } else {
      MaxGapSnoc(CorrectTimes(rs[..i]), rs[i].timestamp);
    }
  }

  /** Success means one record per line, each the decoding of its line. */
  lemma DecodeAllSuccess(lines: seq<string>)
    requires DecodeAll(lines).Ok?
    ensures |DecodeAll(lines).value| == |lines|
    ensures forall i :: 0 <= i < |lines| ==> Decode(lines[i]) == Ok(DecodeAll(lines).value[i])
  {
    DecodeAllLength(lines);
    forall i | 0 <= i < |lines|
      ensures Decode(lines[i]) == Ok(DecodeAll(lines).value[i])
    {
      DecodeAllAt(lines, i);
    }
  }

  lemma {:induction false} DecodeAllLength(lines: seq<string>)
    requires DecodeAll(lines).Ok?
    ensures |DecodeAll(lines).value| == |lines|
  {
    if lines != [] {
      DecodeAllLength(lines[..|lines| - 1]);
    }
  }

  lemma {:induction false} DecodeAllAt(lines: seq<string>, i: nat)
    requires DecodeAll(lines).Ok? && i < |lines|
    ensures i < |DecodeAll(lines).value| && Decode(lines[i]) == Ok(DecodeAll(lines).value[i])
  {
    var n := |lines| - 1;
    var init := lines[..n];
    assert init + [lines[n]] == lines;
    DecodeAllLast(init, lines[n]);
    var front := DecodeAll(init).value;
    var a := Decode(lines[n]).value;
    assert DecodeAll(lines).value == front + [a];
    DecodeAllLength(init);
    if i < n {
      DecodeAllAt(init, i);
      assert init[i] == lines[i] && (front + [a])[i] == front[i];
    } else {
      assert (front + [a])[i] == a;
    }
  }

  /** Failure is the failure of some line. */
  lemma {:induction false} DecodeAllFailure(lines: seq<string>)
    requires DecodeAll(lines).Err?
    ensures exists i :: 0 <= i < |lines| && Decode(lines[i]) == Err(DecodeAll(lines).error)
  {
    var n := |lines| - 1;
    var init := lines[..n];
    if DecodeAll(init).Err? {
      DecodeAllFailure(init);
      var i :| 0 <= i < |init| && Decode(init[i]) == Err(DecodeAll(init).error);
      assert init[i] == lines[i];
    } else {
      assert Decode(lines[n]) == Err(DecodeAll(lines).error);
    }
  }

  /** Decoding one line more: the lines so far decode, so the new line decides. */
  lemma DecodeAllSnoc(lines: seq<string>, k: nat)
    requires k < |lines|
    ensures DecodeAll(lines[..k + 1]) == match DecodeAll(lines[..k])
      case Err(e) => Err(e)
      case Ok(front) => (match Decode(lines[k]) case Err(e) => Err(e) case Ok(a) => Ok(front + [a]))
  {
    assert lines[..k + 1][..k] == lines[..k];
  }

  /** Once a prefix fails to decode, the whole list fails with the same error. */
  lemma {:induction false} DecodeAllKeepsError(lines: seq<string>, k: nat)
    requires k <= |lines| && DecodeAll(lines[..k]).Err?
    ensures DecodeAll(lines) == DecodeAll(lines[..k])
    decreases |lines|
  {
    if k < |lines| {
      assert lines[..|lines| - 1][..k] == lines[..k];
      DecodeAllKeepsError(lines[..|lines| - 1], k);
    } else {
      assert lines[..k] == lines;
    }
  }

  lemma EncodeAllSnoc(rs: seq<Answer>, i: nat)
    requires i < |rs|
    ensures EncodeAll(rs[..i + 1]) == EncodeAll(rs[..i]) + [Encode(rs[i])]
  {
  }

  lemma TitledSnoc(title: string, pieces: seq<string>, p: string, c: char)
    ensures title + JoinTerminated(pieces + [p], c) == title + JoinTerminated(pieces, c) + p + [c]
  {
    JoinTerminatedSnoc(pieces, p, c);
  }

  lemma JoinTerminatedSnoc(pieces: seq<string>, p: string, c: char)
    ensures JoinTerminated(pieces + [p], c) == JoinTerminated(pieces, c) + p + [c]
  {
    if pieces == [] {
      JoinTerminatedOne(p, c);
    } else {
      assert (pieces + [p])[1..] == pieces[1..] + [p];
      JoinTerminatedSnoc(pieces[1..], p, c);
    }
  }

  // Properties of the waiting interval

  /** The correct timestamps of a concatenation are those of each part in turn. */
  lemma {:induction false} CorrectTimesAppend(a: seq<Answer>, b: seq<Answer>)
    ensures CorrectTimes(a + b) == CorrectTimes(a) + CorrectTimes(b)
    decreases |b|
  {
    if b == [] {
      assert a + b == a;
    } else {
      var n := |b| - 1;
      assert (a + b)[..|a + b| - 1] == a + b[..n];
      CorrectTimesAppend(a, b[..n]);
    }
  }

  /** getWaitingTime is 0 exactly when no record is correct, and at least 1 otherwise. */
  lemma WaitingTimeZero(rs: seq<Answer>)
    ensures WaitingTime(rs) == 0 <==> forall i :: 0 <= i < |rs| ==> !rs[i].correct
    ensures WaitingTime(rs) != 0 ==> WaitingTime(rs) >= 1
  {
    CorrectTimesEmpty(rs);
  }

  /** Wrong records between correct ones change nothing in the waiting interval. */
  lemma WrongAnswerIgnored(a: seq<Answer>, w: Answer, b: seq<Answer>)
    requires !w.correct
    ensures WaitingTime(a + [w] + b) == WaitingTime(a + b)
  {
    CorrectTimesAppend(a + [w], b);
    CorrectTimesAppend(a, [w]);
    CorrectTimesAppend(a, b);
    assert CorrectTimes([w]) == [];
    assert CorrectTimes(a) + [] == CorrectTimes(a);
  }

  /** A single correct record, whatever wrong ones surround it, gives a wait of one day. */
  lemma OneCorrectWaitsOneDay(a: seq<Answer>, r: Answer, b: seq<Answer>)
    requires r.correct
    requires forall i :: 0 <= i < |a| ==> !a[i].correct
    requires forall i :: 0 <= i < |b| ==> !b[i].correct
    ensures WaitingTime(a + [r] + b) == 1
  {
    CorrectTimesEmpty(a);
    CorrectTimesEmpty(b);
    CorrectTimesAppend(a + [r], b);
    CorrectTimesAppend(a, [r]);
    assert CorrectTimes([r]) == [r.timestamp] by {
      assert [r][..0] == [];
    }
    assert CorrectTimes(a + [r] + b) == [r.timestamp];
  }

  /** Correct answers 2 and then 5 days apart, with a wrong one in between, give a wait of
      (int)(5 * 1.2) + 1 = 7 days. */
  lemma WaitingTimeExample(t: int, response: string)
    ensures WaitingTime([Answer(t, 0, true, response), Answer(t + SECONDS_PER_DAY, 0, false, response),
                         Answer(t + 2 * SECONDS_PER_DAY, 0, true, response),
                         Answer(t + 7 * SECONDS_PER_DAY, 0, true, response)]) == 7
  {
    var r0, w, r2, r7 := Answer(t, 0, true, response), Answer(t + SECONDS_PER_DAY, 0, false, response),
      Answer(t + 2 * SECONDS_PER_DAY, 0, true, response), Answer(t + 7 * SECONDS_PER_DAY, 0, true, response);
    var rs := [r0, w, r2, r7];
    assert [r0][..0] == [];
    assert CorrectTimes([r0]) == [t];
    assert [r0, w][..1] == [r0];
    assert CorrectTimes([r0, w]) == [t];
    assert [r0, w, r2][..2] == [r0, w];
    assert CorrectTimes([r0, w, r2]) == [t, t + 2 * SECONDS_PER_DAY];
    assert rs[..3] == [r0, w, r2];
    assert CorrectTimes(rs) == [t, t + 2 * SECONDS_PER_DAY, t + 7 * SECONDS_PER_DAY];
    var ts := [t, t + 2 * SECONDS_PER_DAY, t + 7 * SECONDS_PER_DAY];
    assert ts[..2] == [t, t + 2 * SECONDS_PER_DAY];
    assert ts[..2][..1] == [t];
    assert Gap(t, t + 2 * SECONDS_PER_DAY) == 2;
    assert Gap(t + 2 * SECONDS_PER_DAY, t + 7 * SECONDS_PER_DAY) == 5;
    assert MaxGap(ts[..2]) == 2;
    assert MaxGap(ts) == 5;
  }

  // Properties of accuracy

  /** A non-empty window: the accuracy is the right answers' share of it. */
  lemma PercentCorrectIsShare(rs: seq<Answer>, maxDaysAgo: int, now: int)
    requires RightCount(rs, maxDaysAgo, now) + WrongCount(rs, maxDaysAgo, now) > 0
    ensures PercentCorrect(rs, maxDaysAgo, now) * (RightCount(rs, maxDaysAgo, now) + WrongCount(rs, maxDaysAgo, now)) as real
         == RightCount(rs, maxDaysAgo, now) as real
    ensures PercentCorrectAsWritten(rs, maxDaysAgo, now) == Some(PercentCorrect(rs, maxDaysAgo, now))
  {
  }

  /** The window counts every answer at most maxDaysAgo days old once, as right or as wrong. */
  lemma {:induction false} WindowCounts(rs: seq<Answer>, maxDaysAgo: int, now: int)
    ensures RightCount(rs, maxDaysAgo, now) + WrongCount(rs, maxDaysAgo, now) == |InWindow(rs, maxDaysAgo, now)|
    ensures RightCount(rs, maxDaysAgo, now) == |CorrectTimes(InWindow(rs, maxDaysAgo, now))|
  {
    if rs != [] {
      WindowCounts(rs[..|rs| - 1], maxDaysAgo, now);
      var w := InWindow(rs[..|rs| - 1], maxDaysAgo, now);
      if DaysAgo(rs[|rs| - 1], now) <= maxDaysAgo {
        assert (w + [rs[|rs| - 1]])[..|w|] == w;
      } else {
        assert w + [] == w;
      }
    }
  }

  /** The answers at most maxDaysAgo days old, in list order. */
  function InWindow(rs: seq<Answer>, maxDaysAgo: int, now: int): (w: seq<Answer>)
    ensures forall i :: 0 <= i < |w| ==> DaysAgo(w[i], now) <= maxDaysAgo
  {
    if rs == [] then []
    else InWindow(rs[..|rs| - 1], maxDaysAgo, now) + (if DaysAgo(rs[|rs| - 1], now) <= maxDaysAgo then [rs[|rs| - 1]] else [])
  }

  // Properties of days since the last correct answer

  /** The documented contract: the age of the last correct record, whatever follows it. */
  lemma {:induction false} DaysSinceLastCorrectIsLatest(rs: seq<Answer>, i: nat, now: int)
    requires i < |rs| && rs[i].correct
    requires forall j :: i < j < |rs| ==> !rs[j].correct
    ensures DaysSinceLastCorrect(rs, now) == DaysAgo(rs[i], now)
    decreases |rs|
  {
    if i < |rs| - 1 {
      DaysSinceLastCorrectIsLatest(rs[..|rs| - 1], i, now);
    }
  }

  /** The documented contract: Integer.MAX_VALUE when no record is correct. */
  lemma {:induction false} DaysSinceLastCorrectNever(rs: seq<Answer>, now: int)
    requires forall j :: 0 <= j < |rs| ==> !rs[j].correct
    ensures DaysSinceLastCorrect(rs, now) == INT_MAX
    decreases |rs|
  {
    if rs != [] {
      DaysSinceLastCorrectNever(rs[..|rs| - 1], now);
    }
  }

  /** The as-written loop inspects only a one-record history: with two records, both correct and
      given now, it reports "never" where the documented contract gives 0 days. */
  lemma DaysSinceLastCorrectLoopSkips(r: Answer, now: int)
    requires r.correct && r.timestamp == now
    ensures DaysSinceLastCorrectAsWritten([r, r], now) == Ok(INT_MAX)
    ensures DaysSinceLastCorrect([r, r], now) == 0
  {
  }

  /** The as-written loop agrees with the documented contract on one-record histories only. */
  lemma DaysSinceLastCorrectAsWrittenAgrees(rs: seq<Answer>, now: int)
    requires |rs| == 1
    ensures DaysSinceLastCorrectAsWritten(rs, now) == Ok(DaysSinceLastCorrect(rs, now))
  {
    assert rs[..0] == [];
  }

  /** As written, every history of two records or more has mastery 0. */
  lemma MasteryAsWrittenVanishes(rs: seq<Answer>, now: int)
    requires |rs| >= 2
    ensures MasteryAsWritten(rs, now) == Some(0.0)
  {
  }

  /** With the documented days-since-correct, two correct answers given now mean full mastery. */
  lemma MasteryOfTwoRecentAnswers(r: Answer, now: int)
    requires r.correct && r.timestamp == now
    ensures Mastery([r, r], now) == 1.0
    ensures MasteryAsWritten([r, r], now) == Some(0.0)
  {
    var rs := [r, r];
    assert rs[..1] == [r] && [r][..0] == [];
    assert CorrectTimes(rs) == [now, now];
    assert MaxGap([now, now]) == 0 by {
      assert [now, now][..1] == [now];
    }
    assert DaysAgo(r, now) == 0;
    assert RightCount([r], MASTERY_WINDOW, now) == 1;
    assert RightCount(rs, MASTERY_WINDOW, now) == 2;
    assert WrongCount([r], MASTERY_WINDOW, now) == 0;
    assert WrongCount(rs, MASTERY_WINDOW, now) == 0;
  }

  /** An empty window: the source divides 0 by 0 where its documentation promises 0. */
  lemma PercentCorrectEmptyWindow(rs: seq<Answer>, maxDaysAgo: int, now: int)
    requires forall i :: 0 <= i < |rs| ==> DaysAgo(rs[i], now) > maxDaysAgo
    ensures PercentCorrectAsWritten(rs, maxDaysAgo, now) == None
    ensures PercentCorrect(rs, maxDaysAgo, now) == 0.0
  {
    NothingInWindow(rs, maxDaysAgo, now);
  }

  lemma {:induction false} NothingInWindow(rs: seq<Answer>, maxDaysAgo: int, now: int)
    requires forall i :: 0 <= i < |rs| ==> DaysAgo(rs[i], now) > maxDaysAgo
    ensures RightCount(rs, maxDaysAgo, now) == 0 && WrongCount(rs, maxDaysAgo, now) == 0
  {
    if rs != [] {
      NothingInWindow(rs[..|rs| - 1], maxDaysAgo, now);
    }
  }

  /** As written, a history whose one correct answer is more than a week old scores NaN. */
  lemma MasteryAsWrittenUndefined(r: Answer, now: int)
    requires r.correct && DaysAgo(r, now) > MASTERY_WINDOW && DaysAgo(r, now) != INT_MAX
    ensures MasteryAsWritten([r], now) == None
    ensures Mastery([r], now) == 0.0
  {
    assert [r][..0] == [];
    PercentCorrectEmptyWindow([r], MASTERY_WINDOW, now);
  }

  // Properties of mastery

  /** While the last correct answer is less than 2 * wait days old, mastery is the week's accuracy. */
  lemma MasteryIsAccuracy(rs: seq<Answer>, now: int)
    requires WaitingTime(rs) > 0
    requires 0 <= DaysSinceLastCorrect(rs, now) < 2 * WaitingTime(rs) && DaysSinceLastCorrect(rs, now) != INT_MAX
    ensures Mastery(rs, now) == PercentCorrect(rs, MASTERY_WINDOW, now)
  {
    assert |rs| > 0;
    MasteryParts(rs, now);
    ScoreIsAccuracy(PercentCorrect(rs, MASTERY_WINDOW, now), WaitingTime(rs), DaysSinceLastCorrect(rs, now));
  }

  /** From 2 * wait days after the last correct answer on, mastery is 0. */
  lemma MasteryExpires(rs: seq<Answer>, now: int)
    requires DaysSinceLastCorrect(rs, now) >= 2 * WaitingTime(rs)
    ensures Mastery(rs, now) == 0.0
  {
    MasteryParts(rs, now);
    if |rs| > 0 && WaitingTime(rs) > 0 {
      ScoreExpires(PercentCorrect(rs, MASTERY_WINDOW, now), WaitingTime(rs), DaysSinceLastCorrect(rs, now));
    }
  }

  /** Mastery stays within [0, 1] unless a correct answer is dated 2 * wait days or more in the
      future. */
  lemma MasteryAtMostOne(rs: seq<Answer>, now: int)
    requires DaysSinceLastCorrect(rs, now) > -2 * WaitingTime(rs)
    ensures Mastery(rs, now) <= 1.0
  {
    MasteryParts(rs, now);
    if |rs| > 0 && WaitingTime(rs) > 0 {
      ScoreAtMostOne(PercentCorrect(rs, MASTERY_WINDOW, now), WaitingTime(rs), DaysSinceLastCorrect(rs, now));
    }
  }

  lemma ScoreIsAccuracy(p: real, wait: nat, d: int)
    requires wait > 0 && 0 <= d < 2 * wait && d != INT_MAX && p >= 0.0
    ensures Score(p, wait, d) == p
  {
    DivBelow(d, 2 * wait);
  }

  lemma ScoreExpires(p: real, wait: nat, d: int)
    requires wait > 0 && d >= 2 * wait && p >= 0.0
    ensures Score(p, wait, d) == 0.0
  {
    DivAtLeastOne(d, 2 * wait);
    ScaleNonPositive(p, 1 - TruncDiv(d, 2 * wait));
  }

  lemma ScoreAtMostOne(p: real, wait: nat, d: int)
    requires wait > 0 && d > -2 * wait && 0.0 <= p <= 1.0
    ensures Score(p, wait, d) <= 1.0
  {
    if d < 0 {
      DivBelow(-d, 2 * wait);
    } else {
      DivNonNegative(d, 2 * wait);
    }
    var f := 1 - TruncDiv(d, 2 * wait);
    assert f <= 1;
    if f <= 0 {
      ScaleNonPositive(p, f);
    } else {
      assert f == 1;
      assert p * f as real == p;
    }
  }

  /** The documented range fails for a correct answer dated two days ahead of the clock: mastery 2. */
  lemma MasteryOfFutureAnswer(r: Answer, now: int)
    requires r.correct && r.timestamp == now + 2 * SECONDS_PER_DAY
    ensures Mastery([r], now) == 2.0
  {
    assert [r][..0] == [];
    assert DaysAgo(r, now) == -2;
    assert RightCount([r], MASTERY_WINDOW, now) == 1;
    assert WrongCount([r], MASTERY_WINDOW, now) == 0;
    assert WaitingTime([r]) == 1;
    assert TruncDiv(-2, 2) == -1;
  }

  lemma DivBelow(d: int, m: int)
    requires 0 <= d < m
    ensures d / m == 0
  {
  }

  lemma DivNonNegative(d: int, m: int)
    requires 0 <= d && 0 < m
    ensures d / m >= 0
  {
  }

  lemma DivAtLeastOne(d: int, m: int)
    requires 0 < m <= d
    ensures d / m >= 1
  {
  }

  lemma ScaleNonPositive(p: real, f: int)
    requires p >= 0.0 && f <= 0
    ensures p * f as real <= 0.0
  {
  }

  // Properties of compareTo

  /** compareTo is antisymmetric on numbers; with NaN on either side both tests fail and it is 0. */
  lemma CompareAntisymmetric(x: Option<real>, y: Option<real>)
    ensures Compare(x, y) == -Compare(y, x)
  {
  }

  lemma CompareReflexive(x: Option<real>)
    ensures Compare(x, x) == 0
  {
  }

  // The file form

  /** Nothing an encoded record holds is an end of line, and it is never empty. */
  lemma EncodeNoEol(a: Answer)
    requires EOL !in a.response
    ensures EOL !in Encode(a) && |Encode(a)| > 0
  {
    EncodeAvoids(a, EOL);
  }

  /** A character that is no digit, sign, tab or marker occurs in an encoded record only if it
      occurs in the response. */
  lemma EncodeAvoids(a: Answer, x: char)
    requires x !in a.response && !IsDigit(x) && x !in "-\trw"
    ensures x !in Encode(a) && |Encode(a)| > 0
  {
    ShowIntChars(a.timestamp);
    ShowIntChars(Seconds(a.duration));
    assert x !in ShowInt(a.timestamp) && x !in ShowInt(Seconds(a.duration));
  }

  /** Records that fit the codec decode back to what persistence keeps of them. */
  lemma {:induction false} DecodeAllEncoded(rs: seq<Answer>)
    requires forall i :: 0 <= i < |rs| ==> Encodable(rs[i])
    ensures DecodeAll(EncodeAll(rs)) == Ok(PersistedAll(rs))
    decreases |rs|
  {
    if rs != [] {
      var n := |rs| - 1;
      AllSnoc(rs);
      DecodeAllEncoded(rs[..n]);
      DecodeEncode(rs[n]);
      DecodeAllLast(EncodeAll(rs[..n]), Encode(rs[n]));
    }
  }

  lemma AllSnoc(rs: seq<Answer>)
    requires rs != []
    ensures EncodeAll(rs) == EncodeAll(rs[..|rs| - 1]) + [Encode(rs[|rs| - 1])]
    ensures PersistedAll(rs) == PersistedAll(rs[..|rs| - 1]) + [Persisted(rs[|rs| - 1])]
  {
    EncodeAllSnoc(rs, |rs| - 1);
    PersistedAllSnoc(rs, |rs| - 1);
    assert rs[..|rs|] == rs;
  }

  lemma PersistedAllSnoc(rs: seq<Answer>, i: nat)
    requires i < |rs|
    ensures PersistedAll(rs[..i + 1]) == PersistedAll(rs[..i]) + [Persisted(rs[i])]
  {
  }

  /** Writing a record with addResponse and loading the file again yields the former records
      followed by the new one, as persistence keeps it. The file has its header line and ends
      with an end of line, as the cleaned text of a history file does. */
  lemma LoadAfterAddResponse(fileText: string, a: Answer)
    requires |Split(fileText, EOL)| >= 1 && fileText[|fileText| - 1] == EOL
    requires Encodable(a) && EOL !in a.response
    ensures LoadAnswers(fileText + Encode(a) + [EOL]) ==
      match LoadAnswers(fileText)
      case Ok(rs) => Ok(rs + [Persisted(a)])
      case Err(e) => Err(e)
  {
    EncodeNoEol(a);
    AppendedLine(fileText, Encode(a));
    DecodeEncode(a);
    LoadAppended(Split(fileText, EOL), Encode(a));
  }

  /** What a record keeps through writeBytes and ByteToString: its response comes back with each
      character cut to its low byte and widened again with its sign. */
  function Transmitted(a: Answer): Answer {
    a.(response := FileUtilities.Written(a.response))
  }

  /** Only the response of an encoded record can change in a write: the rest is ASCII. */
  lemma EncodeWritten(a: Answer)
    ensures FileUtilities.Written(Encode(a)) == Encode(Transmitted(a))
  {
    var x, y, m := ShowTimestamp(a.timestamp), ShowInt(Seconds(a.duration)), Marker(a.correct);
    ShowIntChars(a.timestamp);
    ShowIntChars(Seconds(a.duration));
    FileUtilities.WrittenKeeps(x);
    FileUtilities.WrittenKeeps(y);
    FileUtilities.WrittenKeeps(m);
    FileUtilities.WrittenKeeps([TAB]);
    var front := x + [TAB] + y + [TAB] + m + [TAB];
    FileUtilities.WrittenAppend(x, [TAB]);
    FileUtilities.WrittenAppend(x + [TAB], y);
    FileUtilities.WrittenAppend(x + [TAB] + y, [TAB]);
    FileUtilities.WrittenAppend(x + [TAB] + y + [TAB], m);
    FileUtilities.WrittenAppend(x + [TAB] + y + [TAB] + m, [TAB]);
    FileUtilities.WrittenAppend(front, a.response);
  }

  /** A record leaves a response unchanged exactly when the response is in the form fromFile
      returns: ASCII, or characters from U+FF80 on. */
  lemma TransmittedKeeps(a: Answer)
    ensures Transmitted(a) == a <==> FileUtilities.ByteForm(a.response)
  {
    FileUtilities.WrittenKeeps(a.response);
  }

  /** The file addResponse writes is read back, by the loading constructor, as the former records
      followed by the new one as writeBytes keeps it, when that response is one non-empty,
      tab-free field and holds no end of line and no '#' (which the next read would take for the
      start of a comment). The file has its header line and is in the form fromFile returns. */
  lemma ReadAfterAddResponse(files: FileUtilities.Files, path: string, a: Answer)
    requires FileUtilities.FromFileCleaned(files, path).Ok?
    requires |Split(FileUtilities.FromFileCleaned(files, path).value, EOL)| >= 1
    requires FileUtilities.ByteForm(files[path])
    requires Encodable(Transmitted(a)) && EOL !in Transmitted(a).response && '#' !in Transmitted(a).response
    ensures FileUtilities.AppendFile(files, path, Encode(a) + [EOL]).Ok?
    ensures ReadHistory(FileUtilities.AppendFile(files, path, Encode(a) + [EOL]).value, path) ==
      match ReadHistory(files, path)
      case Ok(rs) => Ok(rs + [Persisted(Transmitted(a))])
      case Err(e) => Err(e)
  {
    var t := FileUtilities.FromFileCleaned(files, path).value;
    var w := Transmitted(a);
    EncodeNoEol(w);
    EncodeAvoids(w, '#');
    EncodeWritten(a);
    CleanedReadBack(files, path, t, Encode(a));
    CleanedTerminated(files, path, t);
    LoadAfterAddResponse(t, w);
  }

  /** An empty response, which getStringInput returns for an empty input line, is written as a
      line ending in a tab. stringSplit drops the empty last field, so that line has three fields
      and the history file no longer loads. */
  lemma EmptyResponseBreaksHistory(files: FileUtilities.Files, path: string, a: Answer)
    requires FileUtilities.FromFileCleaned(files, path).Ok?
    requires |Split(FileUtilities.FromFileCleaned(files, path).value, EOL)| >= 1
    requires FileUtilities.ByteForm(files[path])
    requires LONG_MIN <= a.timestamp <= LONG_MAX && LONG_MIN <= Seconds(a.duration) <= LONG_MAX
    requires a.response == []
    ensures FileUtilities.AppendFile(files, path, Encode(a) + [EOL]).Ok?
    ensures ReadHistory(FileUtilities.AppendFile(files, path, Encode(a) + [EOL]).value, path) ==
      match ReadHistory(files, path)
      case Ok(_) => Err(IndexOutOfBounds)
      case Err(e) => Err(e)
  {
    var t := FileUtilities.FromFileCleaned(files, path).value;
    EncodeNoEol(a);
    EncodeAvoids(a, '#');
    EncodeWritten(a);
    assert Transmitted(a) == a;
    CleanedReadBack(files, path, t, Encode(a));
    CleanedTerminated(files, path, t);
    LoadAfterEmptyResponse(t, a);
  }

  /** A '#' in a response opens a comment: the next read cuts the response at the '#', and the
      record's line keeps its end, as removeBlankLines ends every line it keeps. The record reads
      back with the response before the '#' or, when nothing precedes the '#', the history no
      longer loads. */
  lemma CommentCutsResponse(files: FileUtilities.Files, path: string, a: Answer, before: string, after: string)
    requires FileUtilities.FromFileCleaned(files, path).Ok?
    requires |Split(FileUtilities.FromFileCleaned(files, path).value, EOL)| >= 1
    requires FileUtilities.ByteForm(files[path]) && FileUtilities.ByteForm(a.response)
    requires LONG_MIN <= a.timestamp <= LONG_MAX && LONG_MIN <= Seconds(a.duration) <= LONG_MAX
    requires a.response == before + "#" + after && '#' !in before && EOL !in a.response
    ensures FileUtilities.AppendFile(files, path, Encode(a) + [EOL]).Ok?
    ensures FileUtilities.FromFileCleaned(FileUtilities.AppendFile(files, path, Encode(a) + [EOL]).value, path)
         == Ok(FileUtilities.FromFileCleaned(files, path).value + Encode(a.(response := before)) + [EOL])
    ensures TAB !in before && before != [] ==>
      ReadHistory(FileUtilities.AppendFile(files, path, Encode(a) + [EOL]).value, path) ==
        match ReadHistory(files, path)
        case Ok(rs) => Ok(rs + [Persisted(a.(response := before))])
        case Err(e) => Err(e)
    ensures before == [] ==>
      ReadHistory(FileUtilities.AppendFile(files, path, Encode(a) + [EOL]).value, path) ==
        match ReadHistory(files, path)
        case Ok(_) => Err(IndexOutOfBounds)
        case Err(e) => Err(e)
  {
    var t := FileUtilities.FromFileCleaned(files, path).value;
    var cut := a.(response := before);
    CommentWritten(files, path, t, a);
    FileUtilities.CleanTextProperties(files[path]);
    CommentCleaned(t, a, before, after);
    CleanedTerminated(files, path, t);
    if TAB !in before && before != [] {
      LoadAfterAddResponse(t, cut);
    }
    if before == [] {
      LoadAfterEmptyResponse(t, cut);
    }
  }

  /** The answer "C#" is read back as "C": the record keeps its line, and the next record is not
      joined to it. */
  lemma CSharpReadsAsC(files: FileUtilities.Files, path: string, a: Answer)
    requires FileUtilities.FromFileCleaned(files, path).Ok?
    requires |Split(FileUtilities.FromFileCleaned(files, path).value, EOL)| >= 1
    requires FileUtilities.ByteForm(files[path])
    requires LONG_MIN <= a.timestamp <= LONG_MAX && LONG_MIN <= Seconds(a.duration) <= LONG_MAX
    requires a.response == "C#"
    ensures ReadHistory(FileUtilities.AppendFile(files, path, Encode(a) + [EOL]).value, path) ==
      match ReadHistory(files, path)
      case Ok(rs) => Ok(rs + [Persisted(a.(response := "C"))])
      case Err(e) => Err(e)
  {
    assert "C#" == "C" + "#" + "";
    assert FileUtilities.ByteForm(a.response);
    CommentCutsResponse(files, path, a, "C", "");
  }

  /** A record whose response is in the form fromFile returns is appended unchanged. */
  lemma CommentWritten(files: FileUtilities.Files, path: string, t: string, a: Answer)
    requires FileUtilities.FromFileCleaned(files, path) == Ok(t)
    requires FileUtilities.ByteForm(files[path]) && FileUtilities.ByteForm(a.response)
    ensures FileUtilities.AppendFile(files, path, Encode(a) + [EOL]) == Ok(files[path := t + Encode(a) + [EOL]])
  {
    TransmittedKeeps(a);
    EncodeWritten(a);
    FileUtilities.AppendWritten(files, path, Encode(a) + [EOL]);
    FileUtilities.WrittenAppend(Encode(a), [EOL]);
    FileUtilities.WrittenKeeps([EOL]);
    assert t + (Encode(a) + [EOL]) == t + Encode(a) + [EOL];
  }

  /** Cleaning cuts an appended record at the first '#' of its response and ends the line. */
  lemma CommentCleaned(t: string, a: Answer, before: string, after: string)
    requires FileUtilities.CleanText(t) == Some(t) && '#' !in t
    requires a.response == before + "#" + after && '#' !in before && EOL !in a.response
    ensures FileUtilities.CleanText(t + Encode(a) + [EOL]) == Some(t + Encode(a.(response := before)) + [EOL])
  {
    var line := Encode(a.(response := before));
    EncodeAtComment(a, before, after);
    CutAfterFront(t, line, after);
    assert t + Encode(a) + [EOL] == t + line + "#" + after + [EOL];
    EncodeNoEol(a.(response := before));
    EncodeAvoids(a.(response := before), '#');
    CleanedCut(t, line, after);
  }

  /** An encoded record whose response holds a '#' is the record cut there, the '#' and the rest. */
  lemma EncodeAtComment(a: Answer, before: string, after: string)
    requires a.response == before + "#" + after && EOL !in a.response
    ensures Encode(a) == Encode(a.(response := before)) + "#" + after
    ensures EOL !in after
  {
    var front := ShowTimestamp(a.timestamp) + [TAB] + ShowInt(Seconds(a.duration)) + [TAB] + Marker(a.correct) + [TAB];
    assert Encode(a.(response := before)) == front + before;
    assert Encode(a) == front + a.response;
    CutAfterFront(front, before, after);
    assert a.response[|before| + 1..] == after;
  }

  /** Text in front of a cut response regroups around the cut. */
  lemma CutAfterFront(front: string, before: string, after: string)
    ensures front + (before + "#" + after) == front + before + "#" + after
  {
  }

  /** Cleaned text, a comment-free line, then a comment and its end of line: cleaning keeps the
      line and gives it its end of line back. */
  lemma CleanedCut(t: string, line: string, after: string)
    requires FileUtilities.CleanText(t) == Some(t) && '#' !in t
    requires |line| > 0 && EOL !in line && '#' !in line && EOL !in after
    ensures FileUtilities.CleanText(t + line + "#" + after + [EOL]) == Some(t + line + [EOL])
  {
    assert t + line + "#" + after + [EOL] == (t + line) + "#" + after + [EOL] + [];
    FileUtilities.CommentRemoved(t + line, after, []);
    FileUtilities.StripCommentsNone([]);
    assert t + line + [] == t + line;
    FileUtilities.StripCommentsNone(t + line);
    CleanedLineAgain(t, line);
  }

  /** Cleaned text followed by a comment-free line without its end of line cleans to the text,
      the line and an end of line. */
  lemma CleanedLineAgain(t: string, line: string)
    requires FileUtilities.CleanText(t) == Some(t) && '#' !in t
    requires |line| > 0 && EOL !in line && '#' !in line
    ensures FileUtilities.CleanText(t + line) == Some(t + line + [EOL])
  {
    FileUtilities.CleanAppendedLine(t, line);
    FileUtilities.StripCommentsNone(t + line + [EOL]);
    FileUtilities.StripCommentsNone(t + line);
    TerminatedSplit(t + line);
  }

  /** Loading text with one more record whose response is empty fails at that record. */
  lemma LoadAfterEmptyResponse(fileText: string, a: Answer)
    requires |Split(fileText, EOL)| >= 1 && fileText[|fileText| - 1] == EOL
    requires LONG_MIN <= a.timestamp <= LONG_MAX && LONG_MIN <= Seconds(a.duration) <= LONG_MAX
    requires a.response == []
    ensures LoadAnswers(fileText + Encode(a) + [EOL]) ==
      match LoadAnswers(fileText)
      case Ok(_) => Err(IndexOutOfBounds)
      case Err(e) => Err(e)
  {
    EncodeNoEol(a);
    AppendedLine(fileText, Encode(a));
    EmptyResponseFails(a);
    LoadAppended(Split(fileText, EOL), Encode(a));
  }

  /** A line without a comment, appended to a file in the form fromFile returns, is read back
      after the file's cleaned text, as the write keeps it. */
  lemma CleanedReadBack(files: FileUtilities.Files, path: string, t: string, line: string)
    requires FileUtilities.FromFileCleaned(files, path) == Ok(t) && FileUtilities.ByteForm(files[path])
    requires |line| > 0 && EOL !in FileUtilities.Written(line) && '#' !in FileUtilities.Written(line)
    ensures FileUtilities.AppendFile(files, path, line + [EOL])
         == Ok(files[path := t + FileUtilities.Written(line) + [EOL]])
    ensures FileUtilities.FromFileCleaned(files[path := t + FileUtilities.Written(line) + [EOL]], path)
         == Ok(t + FileUtilities.Written(line) + [EOL])
  {
    FileUtilities.AppendWritten(files, path, line + [EOL]);
    FileUtilities.WrittenAppend(line, [EOL]);
    FileUtilities.WrittenKeeps([EOL]);
    FileUtilities.CleanTextProperties(files[path]);
    FileUtilities.CleanAppendedLine(t, FileUtilities.Written(line));
    assert t + (FileUtilities.Written(line) + [EOL]) == t + FileUtilities.Written(line) + [EOL];
  }

  /** Cleaned text that holds a line ends with an end of line. */
  lemma CleanedTerminated(files: FileUtilities.Files, path: string, t: string)
    requires FileUtilities.FromFileCleaned(files, path) == Ok(t)
    requires |Split(t, EOL)| >= 1
    ensures |t| > 0 && t[|t| - 1] == EOL
  {
    FileUtilities.CleanTextProperties(files[path]);
  }

  /** A terminated text followed by one more terminated line splits into one line more. */
  lemma AppendedLine(text: string, line: string)
    requires |text| > 0 && text[|text| - 1] == EOL
    requires |line| > 0 && EOL !in line
    ensures Split(text + line + [EOL], EOL) == Split(text, EOL) + [line]
  {
    assert text == text[..|text| - 1] + [EOL];
    AppendedLineAfter(text[..|text| - 1], text, line);
  }

  lemma AppendedLineAfter(front: string, text: string, line: string)
    requires text == front + [EOL]
    requires |line| > 0 && EOL !in line
    ensures Split(text + line + [EOL], EOL) == Split(text, EOL) + [line]
  {
    TerminatedSplit(front);
    SplitAroundSeparator(front, line + [EOL], EOL);
    SplitTerminatedOne(line, EOL);
    AppendAssociates(front + [EOL], line, [EOL]);
  }

  /** A final end of line adds no piece. */
  lemma TerminatedSplit(front: string)
    ensures Split(front + [EOL], EOL) == Split(front, EOL)
  {
    assert front + [EOL] == front + [EOL] + [];
    SplitAroundSeparator(front, [], EOL);
    assert Split(front, EOL) + [] == Split(front, EOL);
  }

  /** Loading lines with one line more, past the header. */
  lemma LoadAppended(lines: seq<string>, line: string)
    requires |lines| >= 1
    ensures (lines + [line])[1..] == lines[1..] + [line]
    ensures DecodeAll((lines + [line])[1..]) ==
      match (if |lines| <= 1 then Ok([]) else DecodeAll(lines[1..]))
      case Err(e) => Err(e)
      case Ok(front) => (match Decode(line) case Err(e) => Err(e) case Ok(a) => Ok(front + [a]))
  {
    assert (lines + [line])[1..] == lines[1..] + [line];
    DecodeAllLast(lines[1..], line);
    if |lines| <= 1 {
      assert lines[1..] == [];
    }
  }

  lemma DecodeAllLast(lines: seq<string>, line: string)
    ensures DecodeAll(lines + [line]) ==
      match DecodeAll(lines)
      case Err(e) => Err(e)
      case Ok(front) => (match Decode(line) case Err(e) => Err(e) case Ok(a) => Ok(front + [a]))
  {
    assert (lines + [line])[..|lines|] == lines;
  }

  /** The text toString produces loads back, under the loading constructor, to the records as
      persistence keeps them: its first line is the title, then one line per record. */
  lemma LoadHistoryText(questionText: string, rs: seq<Answer>)
    requires EOL !in questionText
    requires forall i :: 0 <= i < |rs| ==> Encodable(rs[i]) && EOL !in rs[i].response
    ensures LoadAnswers(HistoryText(questionText, rs)) == Ok(PersistedAll(rs))
  {
    EncodedLinesValid(rs);
    TitledLines(HISTORY_TITLE + questionText + "]", EncodeAll(rs));
    DecodeAllEncoded(rs);
    assert ([HISTORY_TITLE + questionText + "]"] + EncodeAll(rs))[1..] == EncodeAll(rs);
  }

  lemma EncodedLinesValid(rs: seq<Answer>)
    requires forall i :: 0 <= i < |rs| ==> EOL !in rs[i].response
    ensures ValidPieces(EncodeAll(rs), EOL)
  {
    forall i | 0 <= i < |rs|
      ensures |EncodeAll(rs)[i]| > 0 && EOL !in EncodeAll(rs)[i]
    {
      EncodeNoEol(rs[i]);
    }
  }

  /** A title line followed by terminated lines splits into the title and the lines. */
  lemma TitledLines(title: string, lines: seq<string>)
    requires |title| > 0 && EOL !in title && ValidPieces(lines, EOL)
    ensures Split(title + [EOL] + JoinTerminated(lines, EOL), EOL) == [title] + lines
  {
    SplitJoinTerminated(lines, EOL);
    SplitLeadingField(title, JoinTerminated(lines, EOL), EOL);
  }
}
