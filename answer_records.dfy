/** QuestionAnswerRecord.java and StaticQuestionAnswerRecord.java: one recorded answer and its
    one-line, tab-separated file form. Timestamps are whole seconds from 1970-01-01T00:00:00;
    durations are nanoseconds, as java.time.Duration keeps them. */
module AnswerRecords {
  import opened Wrappers
  import opened Numerals
  import opened Text
  import opened Utilities

  const NANOS_PER_SECOND: int := 1_000_000_000

  /** LocalDateTime.MIN (-999999999-01-01T00:00:00) in seconds from 1970-01-01T00:00:00,
      counted in the proleptic Gregorian calendar. */
  const MIN_TIMESTAMP: int := -31557014135596800

  /** The mutable base record of QuestionAnswerRecord.java: timestamp, duration and correctness,
      each with a getter and a setter. */
  class QuestionAnswerRecord {
    var timestamp: int
    var duration: int
    var correct: bool

    /** The from-scratch constructor: the clock reading becomes the timestamp. */
    constructor (inDuration: int, inCorrect: bool, now: int)
      ensures timestamp == now && duration == inDuration && correct == inCorrect
    {
      timestamp := now;
      duration := inDuration;
      correct := inCorrect;
    }

    /** The default constructor: LocalDateTime.MIN, Duration.ZERO, incorrect. */
    constructor Default()
      ensures timestamp == MIN_TIMESTAMP && duration == 0 && !correct
    {
      timestamp := MIN_TIMESTAMP;
      duration := 0;
      correct := false;
    }

    method GetTimestamp() returns (t: int)
      ensures t == timestamp
    {
      t := timestamp;
    }

    method SetTimestamp(inTimestamp: int)
      modifies this
      ensures timestamp == inTimestamp && duration == old(duration) && correct == old(correct)
    {
      timestamp := inTimestamp;
    }

    method GetDuration() returns (d: int)
      ensures d == duration
    {
      d := duration;
    }

    method SetDuration(inDuration: int)
      modifies this
      ensures duration == inDuration && timestamp == old(timestamp) && correct == old(correct)
    {
      duration := inDuration;
    }

    method GetCorrect() returns (c: bool)
      ensures c == correct
    {
      c := correct;
    }

    method SetCorrect(inCorrect: bool)
      modifies this
      ensures correct == inCorrect && timestamp == old(timestamp) && duration == old(duration)
    {
      correct := inCorrect;
    }
  }

  /** A StaticQuestionAnswerRecord as a value: once built, no record of a history is changed. */
  datatype Answer = Answer(timestamp: int, duration: int, correct: bool, response: string)

  /** The from-scratch constructor: the given response, duration and correctness, stamped now. */
  function NewAnswer(response: string, duration: int, correct: bool, now: int): (a: Answer)
    ensures a.response == response && a.duration == duration && a.correct == correct
    ensures a.timestamp == now
  {
    Answer(now, duration, correct, response)
  }

  /** Duration.getSeconds(): whole seconds, rounded toward negative infinity as Duration keeps
      its nanosecond part non-negative. */
  function Seconds(nanos: int): int {
    nanos / NANOS_PER_SECOND
  }

  function Marker(correct: bool): string {
    if correct then "r" else "w"
  }

  /** The timestamp's text: the model writes the second count in decimal where the source
      writes LocalDateTime's ISO-8601 form; both are tab-free and read back exactly. */
  function ShowTimestamp(t: int): string {
    ShowInt(t)
  }

  function ParseTimestamp(s: string): Option<int> {
    ParseLong(s)
  }

  /** toString(): timestamp, whole seconds, r or w, and the response, joined by single tabs. */
  function Encode(a: Answer): string {
    ShowTimestamp(a.timestamp) + [TAB] + ShowInt(Seconds(a.duration)) + [TAB] + Marker(a.correct) + [TAB] + a.response
  }

  /** The line-decoding constructor. Split drops empty fields, so a line with fewer than four
      non-empty fields indexes past the end of the array. */
  function Decode(line: string): (r: Result<Answer>)
  {
    var fields := Split(line, TAB);
    if |fields| < 1 then Err(IndexOutOfBounds)
    else match ParseTimestamp(fields[0])
      case None => Err(DateTimeParse)
      case Some(timestamp) =>
        if |fields| < 2 then Err(IndexOutOfBounds)
        else match ParseLong(fields[1])
          case None => Err(NumberFormat)
          case Some(seconds) =>
            if |fields| < 4 then Err(IndexOutOfBounds)
            else Ok(Answer(timestamp, seconds * NANOS_PER_SECOND, fields[2] == "r", fields[3]))
  }

  /** A decoded line has at least the four fields, and the record reads its flag, its response
      and its whole seconds from them; fewer than four fields never decode. */
  lemma DecodeFields(line: string)
    ensures |Split(line, TAB)| < 4 ==> Decode(line).Err?
    ensures Decode(line).Ok? ==> |Split(line, TAB)| >= 4
    ensures Decode(line).Ok? ==> (Decode(line).value.correct <==> Split(line, TAB)[2] == "r")
    ensures Decode(line).Ok? ==> Decode(line).value.response == Split(line, TAB)[3]
    ensures Decode(line).Ok? ==> Decode(line).value.duration % NANOS_PER_SECOND == 0
  {
    var fields := Split(line, TAB);
    if Decode(line).Ok? {
      var seconds := ParseLong(fields[1]).value;
      assert Decode(line).value == Answer(ParseTimestamp(fields[0]).value, seconds * NANOS_PER_SECOND, fields[2] == "r", fields[3]);
      WholeSecondsRemainder(seconds);
    }
  }

  lemma WholeSecondsRemainder(k: int)
    ensures (k * NANOS_PER_SECOND) % NANOS_PER_SECOND == 0
  {
  }

  /** What survives a write and a read: everything but the sub-second part of the duration. */
  function Persisted(a: Answer): Answer {
    a.(duration := Seconds(a.duration) * NANOS_PER_SECOND)
  }

  /** Answers the codec can carry: 64-bit seconds, and a response that is one non-empty field. */
  predicate Encodable(a: Answer) {
    && LONG_MIN <= a.timestamp <= LONG_MAX
    && LONG_MIN <= Seconds(a.duration) <= LONG_MAX
    && |a.response| > 0 && TAB !in a.response
  }

  lemma ShowIntNoTab(n: int)
    ensures TAB !in ShowInt(n) && |ShowInt(n)| > 0
  {
    ShowIntChars(n);
  }

  /** The fields of an encoded line are the four written ones, the response split at its tabs. */
  lemma EncodeFields(a: Answer)
    ensures Split(Encode(a), TAB)
         == [ShowTimestamp(a.timestamp), ShowInt(Seconds(a.duration)), Marker(a.correct)] + Split(a.response, TAB)
  {
    var x, y, m := ShowTimestamp(a.timestamp), ShowInt(Seconds(a.duration)), Marker(a.correct);
    ShowIntNoTab(a.timestamp);
    ShowIntNoTab(Seconds(a.duration));
    SplitThreeFields(x, y, m, a.response, TAB);
  }

  /** Round trip: decoding an encoded answer restores timestamp, correctness and response, and the
      duration truncated to whole seconds. */
  lemma DecodeEncode(a: Answer)
    requires Encodable(a)
    ensures Decode(Encode(a)) == Ok(Persisted(a))
  {
    EncodeFields(a);
    SplitWithoutSeparator(a.response, TAB);
    ParseShowRoundTrip(a.timestamp);
    ParseShowRoundTrip(Seconds(a.duration));
  }

  /** A response holding a tab is cut at its first tab when read back: fields after the fourth are
      ignored. */
  lemma DecodeKeepsFirstSegment(a: Answer)
    requires LONG_MIN <= a.timestamp <= LONG_MAX && LONG_MIN <= Seconds(a.duration) <= LONG_MAX
    requires Split(a.response, TAB) != []
    ensures Decode(Encode(a)).Ok?
    ensures Decode(Encode(a)).value.response == Split(a.response, TAB)[0]
  {
    EncodeFields(a);
    ParseShowRoundTrip(a.timestamp);
    ParseShowRoundTrip(Seconds(a.duration));
  }

  /** An empty response leaves the encoded line with three fields: stringSplit drops the empty
      fourth, and decoding indexes past the end. */
  lemma EmptyResponseFails(a: Answer)
    requires LONG_MIN <= a.timestamp <= LONG_MAX && LONG_MIN <= Seconds(a.duration) <= LONG_MAX
    requires a.response == []
    ensures Decode(Encode(a)) == Err(IndexOutOfBounds)
  {
    EncodeFields(a);
    SplitWithoutSeparator(a.response, TAB);
    ParseShowRoundTrip(a.timestamp);
    ParseShowRoundTrip(Seconds(a.duration));
  }

  /** The tab-separated fields of a line with the empty ones kept, as String.split(TAB, -1) reads
      them: one more field than the line has tabs. */
  function Fields(line: string): (fs: seq<string>)
    ensures |fs| > 0
    decreases |line|
  {
    var i := IndexOf(line, TAB);
    if i < 0 then [line] else [line[..i]] + Fields(line[i + 1..])
  }

  /** A field followed by a tab is the first field of the line. */
  lemma FieldsLeading(x: string, rest: string)
    requires TAB !in x
    ensures Fields(x + [TAB] + rest) == [x] + Fields(rest)
  {
    var line := x + [TAB] + rest;
    assert line[|x|] == TAB;
    assert line[..|x|] == x && line[|x| + 1..] == rest;
  }

  /** The line-decoding constructor with the empty fields kept: the correction of Decode, which
      loses an empty response. */
  function DecodeKeepingEmpty(line: string): Result<Answer> {
    var fields := Fields(line);
    match ParseTimestamp(fields[0])
    case None => Err(DateTimeParse)
    case Some(timestamp) =>
      if |fields| < 2 then Err(IndexOutOfBounds)
      else match ParseLong(fields[1])
        case None => Err(NumberFormat)
        case Some(seconds) =>
          if |fields| < 4 then Err(IndexOutOfBounds)
          else Ok(Answer(timestamp, seconds * NANOS_PER_SECOND, fields[2] == "r", fields[3]))
  }

  /** Round trip with the empty fields kept: every record whose response is free of tabs, the empty
      response included, reads back as persistence keeps it. */
  lemma DecodeKeepingEmptyEncode(a: Answer)
    requires LONG_MIN <= a.timestamp <= LONG_MAX && LONG_MIN <= Seconds(a.duration) <= LONG_MAX
    requires TAB !in a.response
    ensures DecodeKeepingEmpty(Encode(a)) == Ok(Persisted(a))
  {
    EncodeFieldsKept(a);
    ParseShowRoundTrip(a.timestamp);
    ParseShowRoundTrip(Seconds(a.duration));
  }

  /** With the empty fields kept, an encoded line has exactly the four written fields. */
  lemma EncodeFieldsKept(a: Answer)
    requires TAB !in a.response
    ensures Fields(Encode(a))
         == [ShowTimestamp(a.timestamp), ShowInt(Seconds(a.duration)), Marker(a.correct), a.response]
  {
    var x, y, m := ShowTimestamp(a.timestamp), ShowInt(Seconds(a.duration)), Marker(a.correct);
    ShowIntNoTab(a.timestamp);
    ShowIntNoTab(Seconds(a.duration));
    assert TAB !in m;
    assert Encode(a) == x + [TAB] + (y + [TAB] + (m + [TAB] + a.response));
    FieldsFour(x, y, m, a.response);
  }

  /** Four tab-free fields joined by tabs split back into those four. */
  lemma FieldsFour(x: string, y: string, m: string, r: string)
    requires TAB !in x && TAB !in y && TAB !in m && TAB !in r
    ensures Fields(x + [TAB] + (y + [TAB] + (m + [TAB] + r))) == [x, y, m, r]
  {
    FieldsOne(r);
    FieldsBefore(m, r, [r]);
    FieldsBefore(y, m + [TAB] + r, [m] + [r]);
    FieldsBefore(x, y + [TAB] + (m + [TAB] + r), [y] + ([m] + [r]));
    FourListed(x, y, m, r);
  }

  /** The four fields as one list. */
  lemma FourListed(x: string, y: string, m: string, r: string)
    ensures [x] + ([y] + ([m] + [r])) == [x, y, m, r]
  {
  }

  /** A line without a tab is one field. */
  lemma FieldsOne(r: string)
    requires TAB !in r
    ensures Fields(r) == [r]
  {
  }

  /** A tab-free field and a tab put one field in front of the rest's fields. */
  lemma FieldsBefore(x: string, rest: string, fs: seq<string>)
    requires TAB !in x && Fields(rest) == fs
    ensures Fields(x + [TAB] + rest) == [x] + fs
  {
    FieldsLeading(x, rest);
  }

  /** Where Decode reads a record back, the corrected decoder reads the same record. */
  lemma DecodeKeepingEmptyAgrees(a: Answer)
    requires Encodable(a)
    ensures DecodeKeepingEmpty(Encode(a)) == Decode(Encode(a))
  {
    DecodeKeepingEmptyEncode(a);
    DecodeEncode(a);
  }

  /** Any marker other than "r" reads as a wrong answer rather than an error. */
  lemma AnyOtherMarkerIsWrong(t: int, seconds: int, marker: string, response: string)
    requires LONG_MIN <= t <= LONG_MAX && LONG_MIN <= seconds <= LONG_MAX
    requires |marker| > 0 && TAB !in marker && marker != "r"
    requires |response| > 0 && TAB !in response
    ensures Decode(ShowInt(t) + [TAB] + ShowInt(seconds) + [TAB] + marker + [TAB] + response)
         == Ok(Answer(t, seconds * NANOS_PER_SECOND, false, response))
  {
    var x, y := ShowInt(t), ShowInt(seconds);
    ShowIntNoTab(t);
    ShowIntNoTab(seconds);
    SplitThreeFields(x, y, marker, response, TAB);
    SplitWithoutSeparator(response, TAB);
    ParseShowRoundTrip(t);
    ParseShowRoundTrip(seconds);
  }
}
