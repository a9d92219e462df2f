/** Quiz.java and StaticQuestionQuiz.java: choosing the questions of a quiz from a student's
    histories, and the session that asks them one after another and records each answer. */
module Quizzes {
  import opened Wrappers
  import opened Text
  import opened AnswerRecords
  import opened Histories
  import opened Students
  import Questions
  import FileUtilities
  import Sorting

  // Selection by tags

  /** getTaggedQuestionHistories: the histories whose question has every tag, in order. */
  function Tagged(hs: seq<StaticQuestionHistory>, tags: seq<string>): seq<StaticQuestionHistory>
    reads set i | 0 <= i < |hs| :: hs[i].question
  {
    if hs == [] then []
    else Tagged(hs[..|hs| - 1], tags) + (if hs[|hs| - 1].question.HasTags(tags) then [hs[|hs| - 1]] else [])
  }

  lemma TaggedSnoc(hs: seq<StaticQuestionHistory>, tags: seq<string>, i: nat)
    requires i < |hs|
    ensures hs[i].question.HasTags(tags) ==> Tagged(hs[..i + 1], tags) == Tagged(hs[..i], tags) + [hs[i]]
    ensures !hs[i].question.HasTags(tags) ==> Tagged(hs[..i + 1], tags) == Tagged(hs[..i], tags)
  {
    assert hs[..i + 1][..i] == hs[..i];
    assert Tagged(hs[..i], tags) + [] == Tagged(hs[..i], tags);
  }

  /** Exactly the histories whose question carries all the tags. */
  lemma {:induction false} TaggedMeaning(hs: seq<StaticQuestionHistory>, tags: seq<string>)
    ensures forall h :: h in Tagged(hs, tags) <==> h in hs && h.question.HasTags(tags)
  {
    if hs != [] {
      TaggedMeaning(hs[..|hs| - 1], tags);
      assert hs == hs[..|hs| - 1] + [hs[|hs| - 1]];
    }
  }

  /** The filter keeps order: filtering a concatenation filters each part. */
  lemma {:induction false} TaggedAppend(a: seq<StaticQuestionHistory>, b: seq<StaticQuestionHistory>, tags: seq<string>)
    ensures Tagged(a + b, tags) == Tagged(a, tags) + Tagged(b, tags)
    decreases |b|
  {
    if b == [] {
      assert a + b == a;
    } else {
      var n := |b| - 1;
      assert (a + b)[..|a| + n] == a + b[..n];
      TaggedAppend(a, b[..n], tags);
    }
  }

  /** With no tags every history is kept. */
  lemma {:induction false} TaggedNoTags(hs: seq<StaticQuestionHistory>)
    ensures Tagged(hs, []) == hs
  {
    if hs != [] {
      TaggedNoTags(hs[..|hs| - 1]);
      assert hs == hs[..|hs| - 1] + [hs[|hs| - 1]];
    }
  }

  // Ordering the pool: Collections.sort with compareTo by mastery

  /** Each history paired with its mastery at now. */
  function Keyed(pool: seq<StaticQuestionHistory>, now: int): (ps: seq<(real, StaticQuestionHistory)>)
    reads pool
    ensures |ps| == |pool|
  {
    seq(|pool|, i reads pool requires 0 <= i < |pool| => (Mastery(pool[i].responses, now), pool[i]))
  }

  /** The pool after Collections.sort: by mastery, ascending, equal masteries in pool order. */
  function SortedPool(pool: seq<StaticQuestionHistory>, now: int): seq<StaticQuestionHistory>
    reads pool
  {
    Sorting.Seconds(Sorting.SortByKey(Keyed(pool, now)))
  }

  /** The histories with mastery m, in order. */
  function AtMastery(pool: seq<StaticQuestionHistory>, m: real, now: int): seq<StaticQuestionHistory>
    reads pool
  {
    Sorting.Seconds(Sorting.WithKey(Keyed(pool, now), m))
  }

  /** Pairs whose keys are their histories' masteries are their own Keyed form. */
  lemma KeyedSeconds(ps: seq<(real, StaticQuestionHistory)>, now: int)
    requires forall i :: 0 <= i < |ps| ==> ps[i].0 == Mastery(ps[i].1.responses, now)
    ensures Keyed(Sorting.Seconds(ps), now) == ps
  {
  }

  lemma SortKeepsKeys(pool: seq<StaticQuestionHistory>, now: int)
    ensures var s := Sorting.SortByKey(Keyed(pool, now));
      forall i :: 0 <= i < |s| ==> s[i].0 == Mastery(s[i].1.responses, now)
  {
    var k := Keyed(pool, now);
    var s := Sorting.SortByKey(k);
    Sorting.SortByKeyCorrect(k);
    forall i | 0 <= i < |s|
      ensures s[i].0 == Mastery(s[i].1.responses, now)
    {
      assert s[i] in multiset(k);
    }
  }

  /** The sorted pool holds the same histories, ascending by mastery, and the histories of any one
      mastery keep their order (Collections.sort is stable). */
  lemma SortedPoolCorrect(pool: seq<StaticQuestionHistory>, now: int)
    ensures multiset(SortedPool(pool, now)) == multiset(pool)
    ensures var s := SortedPool(pool, now);
      forall i, j :: 0 <= i < j < |s| ==> Mastery(s[i].responses, now) <= Mastery(s[j].responses, now)
    ensures forall m :: AtMastery(SortedPool(pool, now), m, now) == AtMastery(pool, m, now)
  {
    var k := Keyed(pool, now);
    var s := Sorting.SortByKey(k);
    Sorting.SortByKeyCorrect(k);
    Sorting.SortSeconds(k);
    assert Sorting.Seconds(k) == pool;
    SortKeepsKeys(pool, now);
    KeyedSeconds(s, now);
    assert Keyed(SortedPool(pool, now), now) == s;
  }

  // Building the quiz

  /** quizSize: numToAsk, or the pool size when numToAsk is larger; a negative numToAsk asks
      nothing. */
  function QuizSize(numToAsk: int, poolSize: nat): (n: nat)
    ensures n <= poolSize
    ensures numToAsk >= 0 ==> n <= numToAsk
    ensures n == poolSize || n == numToAsk || (numToAsk < 0 && n == 0)
  {
    if numToAsk > poolSize then poolSize else if numToAsk < 0 then 0 else numToAsk
  }

  function QuestionsOf(hs: seq<StaticQuestionHistory>): (qs: seq<Questions.StaticQuestion>)
    ensures |qs| == |hs|
  {
    seq(|hs|, i requires 0 <= i < |hs| => hs[i].question)
  }

  lemma QuestionsOfSnoc(hs: seq<StaticQuestionHistory>, i: nat)
    requires i < |hs|
    ensures QuestionsOf(hs[..i + 1]) == QuestionsOf(hs[..i]) + [hs[i].question]
  {
  }

  type Shuffler = seq<Questions.StaticQuestion> -> seq<Questions.StaticQuestion>

  /** Collections.shuffle with the given random draws. */
  function Shuffles(draws: seq<nat>): Shuffler {
    qs => Sorting.Shuffle(qs, draws)
  }

  /** makeQuiz's result: the questions of the first quizSize histories of the sorted pool,
      shuffled with the given draws. */
  function QuizOf(sortedPool: seq<StaticQuestionHistory>, numToAsk: int, draws: seq<nat>): seq<Questions.StaticQuestion> {
    Shuffles(draws)(QuestionsOf(sortedPool[..QuizSize(numToAsk, |sortedPool|)]))
  }

  /** The quiz has min(numToAsk, pool size) questions, and they are the questions of the least
      mastered histories, each as often as it appears there. */
  lemma QuizOfMeaning(sortedPool: seq<StaticQuestionHistory>, numToAsk: int, draws: seq<nat>)
    ensures |QuizOf(sortedPool, numToAsk, draws)| == QuizSize(numToAsk, |sortedPool|)
    ensures multiset(QuizOf(sortedPool, numToAsk, draws)) ==
      multiset(QuestionsOf(sortedPool[..QuizSize(numToAsk, |sortedPool|)]))
  {
    Sorting.ShufflePermutes(QuestionsOf(sortedPool[..QuizSize(numToAsk, |sortedPool|)]), draws);
  }

  /** Every question asked belongs to a history at least as little mastered as any history left
      out of the quiz. */
  lemma QuizLeastMastered(pool: seq<StaticQuestionHistory>, numToAsk: int, draws: seq<nat>, now: int, q: Questions.StaticQuestion)
    requires q in QuizOf(SortedPool(pool, now), numToAsk, draws)
    ensures var s := SortedPool(pool, now);
      exists i :: 0 <= i < QuizSize(numToAsk, |s|) && s[i].question == q &&
        forall j :: QuizSize(numToAsk, |s|) <= j < |s| ==> Mastery(s[i].responses, now) <= Mastery(s[j].responses, now)
  {
    var s := SortedPool(pool, now);
    var n := QuizSize(numToAsk, |s|);
    QuizOfMeaning(s, numToAsk, draws);
    SortedPoolCorrect(pool, now);
    assert q in multiset(QuestionsOf(s[..n]));
    var i :| 0 <= i < n && QuestionsOf(s[..n])[i] == q;
    assert s[i].question == q;
  }

  // Merging the histories of more tags into the pool

  /** pool.indexOf(h) != -1: some entry has the same question text. */
  predicate PoolHas(pool: seq<StaticQuestionHistory>, h: StaticQuestionHistory) {
    exists i :: 0 <= i < |pool| && h.Equals(pool[i])
  }

  /** The loop of moreTags: each history is added unless the pool, as it has grown so far,
      already holds one with the same question text. */
  function Merge(pool: seq<StaticQuestionHistory>, hs: seq<StaticQuestionHistory>): seq<StaticQuestionHistory> {
    if hs == [] then pool
    else
      var m := Merge(pool, hs[..|hs| - 1]);
      if PoolHas(m, hs[|hs| - 1]) then m else m + [hs[|hs| - 1]]
  }

  /** No two entries share a question text. */
  predicate TextsUnique(pool: seq<StaticQuestionHistory>) {
    forall i, j :: 0 <= i < j < |pool| ==> !pool[i].Equals(pool[j])
  }

  /** Merging keeps the old pool as a prefix, covers every new history by text, adds only new
      histories, and adds none whose text is already present. */
  lemma {:induction false} MergeMeaning(pool: seq<StaticQuestionHistory>, hs: seq<StaticQuestionHistory>)
    ensures pool <= Merge(pool, hs)
    ensures forall h :: h in hs ==> PoolHas(Merge(pool, hs), h)
    ensures forall h :: h in Merge(pool, hs) ==> h in pool || h in hs
    ensures TextsUnique(pool) ==> TextsUnique(Merge(pool, hs))
  {
    if hs != [] {
      var n := |hs| - 1;
      MergeMeaning(pool, hs[..n]);
      assert hs == hs[..n] + [hs[n]];
      var m := Merge(pool, hs[..n]);
      if !PoolHas(m, hs[n]) {
        forall h | h in hs
          ensures PoolHas(m + [hs[n]], h)
        {
          if h in hs[..n] {
            var i :| 0 <= i < |m| && h.Equals(m[i]);
            assert (m + [hs[n]])[i] == m[i];
          } else {
            assert (m + [hs[n]])[|m|] == hs[n];
          }
        }
      }
    }
  }

  // The quiz session

  /** The number of histories about question q. */
  function Hits(hs: seq<StaticQuestionHistory>, q: Questions.StaticQuestion): nat {
    if hs == [] then 0 else Hits(hs[..|hs| - 1], q) + (if hs[|hs| - 1].question.Equals(q) then 1 else 0)
  }

  lemma HitsSnoc(hs: seq<StaticQuestionHistory>, q: Questions.StaticQuestion, i: nat)
    requires i < |hs|
    ensures Hits(hs[..i + 1], q) == Hits(hs[..i], q) + (if hs[i].question.Equals(q) then 1 else 0)
  {
    assert hs[..i + 1][..i] == hs[..i];
  }

  /** A history about q at position i counts for every longer prefix. */
  lemma {:induction false} HitsAfter(hs: seq<StaticQuestionHistory>, q: Questions.StaticQuestion, i: nat, k: nat)
    requires i < k <= |hs| && hs[i].question.Equals(q)
    ensures Hits(hs[..k], q) >= 1
    decreases k
  {
    HitsSnoc(hs, q, k - 1);
    if k - 1 > i {
      HitsAfter(hs, q, i, k - 1);
    }
  }

  /** One append of the same text to one file. */
  type Appender = FileUtilities.Files -> Result<FileUtilities.Files>

  function Appends(path: string, text: string): Appender {
    f => FileUtilities.AppendFile(f, path, text)
  }

  /** n appends in a row; the first failure is the failure. */
  function Repeat(files: FileUtilities.Files, append: Appender, n: nat): Result<FileUtilities.Files> {
    if n == 0 then Ok(files)
    else
      match Repeat(files, append, n - 1)
      case Err(e) => Err(e)
      case Ok(f) => append(f)
  }

  /** The file after n appends of the same text. */
  function AppendTimes(files: FileUtilities.Files, path: string, text: string, n: nat): Result<FileUtilities.Files> {
    Repeat(files, Appends(path, text), n)
  }

  lemma AppendTimesSnoc(files: FileUtilities.Files, path: string, text: string, n: nat, current: FileUtilities.Files,
                        appended: Result<FileUtilities.Files>)
    requires AppendTimes(files, path, text, n) == Ok(current)
    requires appended == FileUtilities.AppendFile(current, path, text)
    ensures AppendTimes(files, path, text, n + 1) == appended
  {
  }

  /** The records of each history. */
  function ResponsesOf(hs: seq<StaticQuestionHistory>): (rs: seq<seq<Answer>>)
    reads hs
    ensures |rs| == |hs| && forall k :: 0 <= k < |hs| ==> rs[k] == hs[k].responses
  {
    seq(|hs|, k reads hs requires 0 <= k < |hs| => hs[k].responses)
  }

  /** A line ending in EOL can be appended any number of times once the file reads back: only
      the first append can fail, with the read's own failure. */
  lemma {:induction false} AppendTimesMeaning(files: FileUtilities.Files, path: string, text: string, n: nat)
    requires |text| > 0 && text[|text| - 1] == EOL
    ensures AppendTimes(files, path, text, n).Ok? <==> n == 0 || FileUtilities.FromFileCleaned(files, path).Ok?
    ensures AppendTimes(files, path, text, n).Err? ==> AppendTimes(files, path, text, n).error == FileUtilities.FromFileCleaned(files, path).error
    ensures n > 0 && AppendTimes(files, path, text, n).Ok? ==> FileUtilities.FromFileCleaned(AppendTimes(files, path, text, n).value, path).Ok?
  {
    if n > 0 {
      AppendTimesMeaning(files, path, text, n - 1);
      if n == 1 {
        if FileUtilities.FromFileCleaned(files, path).Ok? {
          FileUtilities.AppendKeepsReadable(files, path, text);
        }
      } else if AppendTimes(files, path, text, n - 1).Ok? {
        FileUtilities.AppendKeepsReadable(AppendTimes(files, path, text, n - 1).value, path, text);
      }
    }
  }

  /** Whether recordAnswer adds the record to history k: it is about q, and either every append
      goes through or k is the first history about q, whose append fails. */
  predicate Records(hs: seq<StaticQuestionHistory>, q: Questions.StaticQuestion, k: nat, written: bool)
    requires k <= |hs|
  {
    k < |hs| && hs[k].question.Equals(q) && (written || Hits(hs[..k], q) == 0)
  }

  /** The records after recordAnswer: rec added to the histories it Records, before[k] being
      history k's records beforehand. */
  predicate Recorded(hs: seq<StaticQuestionHistory>, before: seq<seq<Answer>>, q: Questions.StaticQuestion,
                     rec: Answer, written: bool)
    reads hs
  {
    |before| == |hs| &&
    forall k :: 0 <= k < |hs| ==> hs[k].responses == before[k] + (if Records(hs, q, k, written) then [rec] else [])
  }

  /** The answer record of recordAnswer: the response, the time since the question was shown in
      nanoseconds, and its correctness, stamped now. */
  function Response(answer: string, start: int, correct: bool, now: int): Answer {
    NewAnswer(answer, (now - start) * NANOS_PER_SECOND, correct, now)
  }

  class StaticQuestionQuiz {
    const student: Student
    var quiz: seq<Questions.StaticQuestion>
    /** None for a custom quiz, whose constructor leaves the pool unset. */
    var pool: Option<seq<StaticQuestionHistory>>
    var numToAsk: int
    var quizIndex: nat
    /** When the current question was shown; None until getNextQuestionText is first called. */
    var start: Option<int>

    /** The constructor from a number of questions and tags: the tagged histories form the pool,
        from which makeQuiz draws. */
    constructor (inNumToAsk: int, inStudent: Student, tags: seq<string>, now: int, draws: seq<nat>)
      ensures student == inStudent && numToAsk == inNumToAsk && quizIndex == 0 && start == None
      ensures pool == Some(old(SortedPool(Tagged(inStudent.questionHistories, tags), now)))
      ensures quiz == QuizOf(pool.value, numToAsk, draws)
    {
      var tagged := Tagged(inStudent.questionHistories, tags);
      var p := [];
      for i := 0 to |tagged|
        invariant p == tagged[..i]
      {
        p := p + [tagged[i]];
      }
      assert tagged[..|tagged|] == tagged;
      // makeQuiz, on the pool just gathered
      var sorted := SortedPool(p, now);
      var chosen := FirstQuestions(sorted, inNumToAsk);
      student := inStudent;
      quiz := Sorting.Shuffle(chosen, draws);
      quizIndex := 0;
      numToAsk := inNumToAsk;
      pool := Some(sorted);
      start := None;
    }

    /** The custom-quiz constructor: every history's question is asked once for each line of the
        cleaned file that equals its text, the histories taken in the student's order. A file
        that cannot be read is the failure. */
    static method Custom(inStudent: Student, pathToCustomQuiz: string, files: FileUtilities.Files)
      returns (r: Result<StaticQuestionQuiz>)
      ensures FileUtilities.FromFileCleaned(files, pathToCustomQuiz).Err? ==>
        r == Err(FileUtilities.FromFileCleaned(files, pathToCustomQuiz).error)
      ensures FileUtilities.FromFileCleaned(files, pathToCustomQuiz).Ok? ==>
        && r.Ok? && fresh(r.value)
        && r.value.student == inStudent && r.value.pool == None && r.value.numToAsk == 0
        && r.value.quizIndex == 0 && r.value.start == None
        && r.value.quiz == CustomSelection(inStudent.questionHistories,
             Utilities.Split(FileUtilities.FromFileCleaned(files, pathToCustomQuiz).value, EOL))
    {
      var text := FileUtilities.FromFileCleaned(files, pathToCustomQuiz);
      if text.Err? {
        return Err(text.error);
      }
      var questionTexts := Utilities.Split(text.value, EOL);
      var selected := SelectCustom(inStudent.questionHistories, questionTexts);
      var made := new StaticQuestionQuiz.FromSelection(inStudent, selected);
      return Ok(made);
    }

    /** The outer loop of the custom-quiz constructor, over the student's histories. */
    static method SelectCustom(hs: seq<StaticQuestionHistory>, questionTexts: seq<string>)
      returns (selected: seq<Questions.StaticQuestion>)
      ensures selected == CustomSelection(hs, questionTexts)
    {
      selected := [];
      for i := 0 to |hs|
        invariant selected == CustomSelection(hs[..i], questionTexts)
      {
        assert hs[..i + 1][..i] == hs[..i];
        var more := CopiesOf(hs[i].question, questionTexts);
        selected := selected + more;
      }
      assert hs[..|hs|] == hs;
    }

    /** The inner loop, over the lines of the file. */
    static method CopiesOf(q: Questions.StaticQuestion, questionTexts: seq<string>)
      returns (more: seq<Questions.StaticQuestion>)
      ensures more == Copies(q, questionTexts)
    {
      more := [];
      for j := 0 to |questionTexts|
        invariant more == Copies(q, questionTexts[..j])
      {
        assert questionTexts[..j + 1][..j] == questionTexts[..j];
        if q.question == questionTexts[j] {
          more := more + [q];
        }
      }
      assert questionTexts[..|questionTexts|] == questionTexts;
    }

    /** The state the custom-quiz constructor ends in. */
    constructor FromSelection(inStudent: Student, selected: seq<Questions.StaticQuestion>)
      ensures student == inStudent && quiz == selected && pool == None && numToAsk == 0
      ensures quizIndex == 0 && start == None
    {
      student := inStudent;
      quiz := selected;
      pool := None;
      numToAsk := 0;
      quizIndex := 0;
      start := None;
    }

    /** getStudent: the student the quiz was made for. */
    method GetStudent() returns (s: Student)
      ensures s == student
    {
      s := student;
    }

    /** getTaggedQuestionHistories, on the quiz's student. */
    method GetTaggedQuestionHistories(tags: seq<string>) returns (r: seq<StaticQuestionHistory>)
      ensures r == Tagged(student.questionHistories, tags)
    {
      r := TaggedHistories(student.questionHistories, tags);
    }

    /** The loop of getTaggedQuestionHistories. */
    static method TaggedHistories(hs: seq<StaticQuestionHistory>, tags: seq<string>) returns (r: seq<StaticQuestionHistory>)
      ensures r == Tagged(hs, tags)
    {
      r := [];
      for i := 0 to |hs|
        invariant r == Tagged(hs[..i], tags)
      {
        TaggedSnoc(hs, tags, i);
        if hs[i].question.HasTags(tags) {
          r := r + [hs[i]];
        }
      }
      assert hs[..|hs|] == hs;
    }

    /** makeQuiz: sort the pool by mastery, take its first quizSize questions and shuffle them. */
    method MakeQuiz(now: int, draws: seq<nat>)
      requires pool.Some?
      modifies this
      ensures pool == Some(old(SortedPool(pool.value, now)))
      ensures quiz == QuizOf(pool.value, numToAsk, draws)
      ensures numToAsk == old(numToAsk) && quizIndex == old(quizIndex) && start == old(start)
    {
      var sorted := SortedPool(pool.value, now);
      var chosen := FirstQuestions(sorted, numToAsk);
      quiz := Sorting.Shuffle(chosen, draws);
      pool := Some(sorted);
    }

    /** The loop of makeQuiz: quizSize is numToAsk, or the pool size when numToAsk is larger,
        and the questions of the first quizSize histories are taken in order. */
    static method FirstQuestions(sorted: seq<StaticQuestionHistory>, numToAsk: int)
      returns (chosen: seq<Questions.StaticQuestion>)
      ensures chosen == QuestionsOf(sorted[..QuizSize(numToAsk, |sorted|)])
    {
      var quizSize;
      if numToAsk > |sorted| {
        quizSize := |sorted|;
      } else {
        quizSize := numToAsk;
      }
      chosen := [];
      var i := 0;
      while i < quizSize
        invariant 0 <= i <= QuizSize(numToAsk, |sorted|)
        invariant chosen == QuestionsOf(sorted[..i])
      {
        QuestionsOfSnoc(sorted, i);
        chosen := chosen + [sorted[i].question];
        i := i + 1;
      }
    }

    /** moreTags: the histories of the new tags not yet in the pool by question text join it,
        and the quiz is made again. A custom quiz has no pool: the first history to add fails
        with a null pointer before anything changes, and with nothing to add it is makeQuiz
        that fails, after clearing the quiz. */
    method MoreTags(tags: seq<string>, now: int, draws: seq<nat>) returns (failure: Option<Failure>)
      modifies this
      ensures numToAsk == old(numToAsk) && quizIndex == old(quizIndex) && start == old(start)
      ensures old(pool).Some? ==>
        && failure == None
        && pool == Some(old(SortedPool(Merge(pool.value, Tagged(student.questionHistories, tags)), now)))
        && quiz == QuizOf(pool.value, numToAsk, draws)
      ensures old(pool).None? ==>
        && failure == Some(NullPointer) && pool == None
        && quiz == (if old(Tagged(student.questionHistories, tags)) == [] then [] else old(quiz))
    {
      ghost var wanted := Tagged(student.questionHistories, tags);
      var tagged := GetTaggedQuestionHistories(tags);
      assert tagged == wanted;
      if pool.None? {
        if |tagged| == 0 {
          quiz := [];
        }
        return Some(NullPointer);
      }
      var p := MergeHistories(pool.value, tagged);
      // makeQuiz, on the merged pool
      var sorted := SortedPool(p, now);
      assert sorted == old(SortedPool(p, now));
      var chosen := FirstQuestions(sorted, numToAsk);
      quiz := Sorting.Shuffle(chosen, draws);
      pool := Some(sorted);
      return None;
    }

    /** The loop of moreTags: each history not yet in the pool by question text joins it. */
    static method MergeHistories(pool: seq<StaticQuestionHistory>, tagged: seq<StaticQuestionHistory>)
      returns (p: seq<StaticQuestionHistory>)
      ensures p == Merge(pool, tagged)
    {
      p := pool;
      for i := 0 to |tagged|
        invariant p == Merge(pool, tagged[..i])
      {
        assert tagged[..i + 1][..i] == tagged[..i];
        if !PoolHas(p, tagged[i]) {
          p := p + [tagged[i]];
        }
      }
      assert tagged[..|tagged|] == tagged;
    }

    /** getNextQuestionText: the text at quizIndex, which stays where it is; only the start time
        is set, and past the end of the quiz the call fails. */
    method GetNextQuestionText(now: int) returns (r: Result<string>)
      modifies this
      ensures quiz == old(quiz) && pool == old(pool) && quizIndex == old(quizIndex) && numToAsk == old(numToAsk)
      ensures quizIndex < |quiz| ==> r == Ok(quiz[quizIndex].question) && start == Some(now)
      ensures quizIndex >= |quiz| ==> r == Err(IndexOutOfBounds) && start == old(start)
    {
      if quizIndex >= |quiz| {
        return Err(IndexOutOfBounds);
      }
      var text := quiz[quizIndex].question;
      start := Some(now);
      return Ok(text);
    }

    /** recordAnswer: check the answer against the current question, add one record to every
        history about that question and to that question's file, and move on to the next
        question. With no start time it fails with a null pointer, past the end of the quiz with
        an index failure, and when the file cannot be read with that failure: then only the
        first history about the question has the record, and the quiz stays on the question. */
    method RecordAnswer(answer: string, now: int, files: FileUtilities.Files)
      returns (r: Result<bool>, newFiles: FileUtilities.Files)
      requires Distinct(student.questionHistories)
      modifies this, student.questionHistories
      ensures quiz == old(quiz) && pool == old(pool) && numToAsk == old(numToAsk) && start == old(start)
      ensures old(start).None? ==>
        r == Err(NullPointer) && newFiles == files && quizIndex == old(quizIndex)
        && ResponsesOf(student.questionHistories) == old(ResponsesOf(student.questionHistories))
      ensures old(start).Some? && old(quizIndex) >= |quiz| ==>
        r == Err(IndexOutOfBounds) && newFiles == files && quizIndex == old(quizIndex)
        && ResponsesOf(student.questionHistories) == old(ResponsesOf(student.questionHistories))
      ensures old(start).Some? && old(quizIndex) < |quiz| ==>
        var q := quiz[old(quizIndex)];
        var correct := Questions.Accepts(q.correctAnswers, q.ignoreCapitalization, q.ignoreChars, answer);
        var rec := Response(answer, start.value, correct, now);
        var written := AppendTimes(files, HistoryPath(student.filepath, q.question), Encode(rec) + [EOL], Hits(student.questionHistories, q));
        && Recorded(student.questionHistories, old(ResponsesOf(student.questionHistories)), q, rec, written.Ok?)
        && (written.Ok? ==> r == Ok(correct) && newFiles == written.value && quizIndex == old(quizIndex) + 1)
        && (written.Err? ==> r == Err(written.error) && newFiles == files && quizIndex == old(quizIndex))
    {
      newFiles := files;
      if start.None? {
        return Err(NullPointer), files;
      }
      if quizIndex >= |quiz| {
        return Err(IndexOutOfBounds), files;
      }
      var q := quiz[quizIndex];
      var correct := q.CheckAnswer(answer);
      var path := HistoryPath(student.filepath, q.question);
      var failure;
      assert Response(answer, start.value, correct, now) == NewAnswer(answer, (now - start.value) * NANOS_PER_SECOND, correct, now);
      ghost var rec := NewAnswer(answer, (now - start.value) * NANOS_PER_SECOND, correct, now);
      failure, newFiles := RecordAll(student.questionHistories, q, answer, (now - start.value) * NANOS_PER_SECOND, correct, now,
                                     path, files, rec, Encode(rec) + [EOL]);
      if failure.Some? {
        return Err(failure.value), newFiles;
      }
      quizIndex := quizIndex + 1;
      return Ok(correct), newFiles;
    }

    /** The loop of recordAnswer: addResponse on every history about q, all to the same file. The
        first failing append ends the loop with its failure. */
    static method RecordAll(hs: seq<StaticQuestionHistory>, q: Questions.StaticQuestion, answer: string, duration: int,
                            correct: bool, now: int, path: string, files: FileUtilities.Files,
                            ghost rec: Answer, ghost line: string)
      returns (failure: Option<Failure>, newFiles: FileUtilities.Files)
      requires Distinct(hs)
      requires rec == NewAnswer(answer, duration, correct, now) && line == Encode(rec) + [EOL]
      modifies hs
      ensures var written := AppendTimes(files, path, line, Hits(hs, q));
        && Recorded(hs, old(ResponsesOf(hs)), q, rec, written.Ok?)
        && (written.Ok? ==> failure == None && newFiles == written.value)
        && (written.Err? ==> failure == Some(written.error) && newFiles == files)
    {
      ghost var before := ResponsesOf(hs);
      ghost var n := 0;
      newFiles := files;
      ExpectedStart(before, hs, q, rec);
      for i := 0 to |hs|
        invariant n == Hits(hs[..i], q)
        invariant AppendTimes(files, path, line, n) == Ok(newFiles)
        invariant ResponsesOf(hs) == Expected(before, hs, q, rec, i)
      {
        var stopped;
        stopped, newFiles, n := RecordStep(hs, i, q, answer, duration, correct, now, path, newFiles, files, n, before, rec, line);
        if stopped.Some? {
          return stopped, files;
        }
      }
      assert hs[..|hs|] == hs;
      RecordedAfterLoop(hs, before, q, rec, files, path, line, newFiles);
      return None, newFiles;
    }

    /** One turn of the loop of recordAnswer, at history i: its record if it is about q. */
    static method RecordStep(hs: seq<StaticQuestionHistory>, i: nat, q: Questions.StaticQuestion, answer: string,
                             duration: int, correct: bool, now: int, path: string, current: FileUtilities.Files,
                             ghost files: FileUtilities.Files, ghost n: nat, ghost before: seq<seq<Answer>>,
                             ghost rec: Answer, ghost line: string)
      returns (stopped: Option<Failure>, next: FileUtilities.Files, ghost n': nat)
      requires i < |hs| && Distinct(hs) && |before| == |hs|
      requires rec == NewAnswer(answer, duration, correct, now) && line == Encode(rec) + [EOL]
      requires n == Hits(hs[..i], q) && AppendTimes(files, path, line, n) == Ok(current)
      requires ResponsesOf(hs) == Expected(before, hs, q, rec, i)
      modifies hs[i]
      ensures stopped.None? ==>
        && n' == Hits(hs[..i + 1], q) && AppendTimes(files, path, line, n') == Ok(next)
        && ResponsesOf(hs) == Expected(before, hs, q, rec, i + 1)
      ensures stopped.Some? ==>
        && AppendTimes(files, path, line, Hits(hs, q)).Err?
        && stopped == Some(AppendTimes(files, path, line, Hits(hs, q)).error)
        && Recorded(hs, before, q, rec, false)
    {
      HitsSnoc(hs, q, i);
      ExpectedStep(before, hs, q, rec, i);
      next, n' := current, n;
      if hs[i].question.Equals(q) {
        assert hs[i].responses == before[i] by {
          assert ResponsesOf(hs)[i] == hs[i].responses;
        }
        var appended := RecordOne(hs, i, answer, duration, correct, now, path, current, files, n, rec, line);
        if appended.Err? {
          RecordedAfterFailure(hs, before, q, rec, i, files, path, line, n);
          return Some(appended.error), current, n;
        }
        next, n' := appended.value, n + 1;
      }
      return None, next, n';
    }

    /** One addResponse of the loop, the n-th to the same file. */
    static method RecordOne(hs: seq<StaticQuestionHistory>, i: nat, answer: string, duration: int, correct: bool, now: int,
                            path: string, current: FileUtilities.Files, ghost files: FileUtilities.Files, ghost n: nat,
                            ghost rec: Answer, ghost line: string)
      returns (appended: Result<FileUtilities.Files>)
      requires i < |hs| && Distinct(hs)
      requires rec == NewAnswer(answer, duration, correct, now) && line == Encode(rec) + [EOL]
      requires AppendTimes(files, path, line, n) == Ok(current)
      modifies hs[i]
      ensures ResponsesOf(hs) == old(ResponsesOf(hs))[i := old(hs[i].responses) + [rec]]
      ensures appended == AppendTimes(files, path, line, n + 1)
    {
      appended := hs[i].AddResponse(answer, duration, correct, now, path, current);
      AppendTimesSnoc(files, path, line, n, current, appended);
    }

    /** getLastCorrect: the correct answers of the question before quizIndex. */
    method GetLastCorrect() returns (r: Result<seq<string>>)
      ensures 0 < quizIndex <= |quiz| ==> r == Ok(quiz[quizIndex - 1].correctAnswers)
      ensures quizIndex == 0 || quizIndex > |quiz| ==> r == Err(IndexOutOfBounds)
    {
      if quizIndex == 0 || quizIndex > |quiz| {
        return Err(IndexOutOfBounds);
      }
      return Ok(quiz[quizIndex - 1].correctAnswers);
    }

    /** getQuiz: the questions of the quiz, in the order they are asked. */
    method GetQuiz() returns (qs: seq<Questions.StaticQuestion>)
      ensures qs == quiz
    {
      qs := quiz;
    }
  }

  /** The records inside recordAnswer's loop after i histories: rec added to those about q. */
  function Expected(before: seq<seq<Answer>>, hs: seq<StaticQuestionHistory>, q: Questions.StaticQuestion, rec: Answer,
                    i: nat): (rs: seq<seq<Answer>>)
    requires |before| == |hs|
    ensures |rs| == |hs|
  {
    seq(|hs|, k requires 0 <= k < |hs| => before[k] + (if k < i && hs[k].question.Equals(q) then [rec] else []))
  }

  lemma ExpectedStart(before: seq<seq<Answer>>, hs: seq<StaticQuestionHistory>, q: Questions.StaticQuestion, rec: Answer)
    requires |before| == |hs|
    ensures Expected(before, hs, q, rec, 0) == before
  {
    forall k | 0 <= k < |hs|
      ensures Expected(before, hs, q, rec, 0)[k] == before[k]
    {
      assert before[k] + [] == before[k];
    }
  }

  lemma ExpectedStep(before: seq<seq<Answer>>, hs: seq<StaticQuestionHistory>, q: Questions.StaticQuestion, rec: Answer,
                     i: nat)
    requires |before| == |hs| && i < |hs|
    ensures hs[i].question.Equals(q) ==>
      Expected(before, hs, q, rec, i + 1) == Expected(before, hs, q, rec, i)[i := before[i] + [rec]]
    ensures !hs[i].question.Equals(q) ==> Expected(before, hs, q, rec, i + 1) == Expected(before, hs, q, rec, i)
    ensures Expected(before, hs, q, rec, i)[i] == before[i]
  {
    assert before[i] + [] == before[i];
  }

  /** With every append through, each history about q has the record. */
  lemma RecordedAfterLoop(hs: seq<StaticQuestionHistory>, before: seq<seq<Answer>>, q: Questions.StaticQuestion, rec: Answer,
                          files: FileUtilities.Files, path: string, line: string, current: FileUtilities.Files)
    requires |before| == |hs|
    requires ResponsesOf(hs) == Expected(before, hs, q, rec, |hs|)
    requires AppendTimes(files, path, line, Hits(hs, q)) == Ok(current)
    ensures Recorded(hs, before, q, rec, true)
  {
    forall k | 0 <= k < |hs|
      ensures hs[k].responses == before[k] + (if hs[k].question.Equals(q) then [rec] else [])
    {
      assert ResponsesOf(hs)[k] == hs[k].responses;
    }
  }

  /** An append inside recordAnswer's loop fails only at the first history about the question,
      and then with the read failure of the file as it was; only that history has the record. */
  lemma RecordedAfterFailure(hs: seq<StaticQuestionHistory>, before: seq<seq<Answer>>, q: Questions.StaticQuestion, rec: Answer,
                             i: nat, files: FileUtilities.Files, path: string, line: string, n: nat)
    requires i < |hs| && hs[i].question.Equals(q) && |before| == |hs|
    requires |line| > 0 && line[|line| - 1] == EOL
    requires n == Hits(hs[..i], q)
    requires ResponsesOf(hs) == Expected(before, hs, q, rec, i + 1)
    requires AppendTimes(files, path, line, n).Ok? && AppendTimes(files, path, line, n + 1).Err?
    ensures AppendTimes(files, path, line, Hits(hs, q)) == AppendTimes(files, path, line, n + 1)
    ensures Recorded(hs, before, q, rec, false)
  {
    forall k | 0 <= k < |hs|
      ensures hs[k].responses == before[k] + (if k <= i && hs[k].question.Equals(q) then [rec] else [])
    {
      assert ResponsesOf(hs)[k] == hs[k].responses;
    }
    AppendTimesMeaning(files, path, line, n);
    AppendTimesMeaning(files, path, line, n + 1);
    HitsAfter(hs, q, i, |hs|);
    assert hs[..|hs|] == hs;
    AppendTimesMeaning(files, path, line, Hits(hs, q));
    forall k | i < k < |hs|
      ensures Hits(hs[..k], q) >= 1
    {
      HitsAfter(hs, q, i, k);
    }
    forall k | 0 <= k < i
      ensures !hs[k].question.Equals(q)
    {
      if hs[k].question.Equals(q) {
        HitsAfter(hs, q, k, i);
      }
    }
  }

  // The custom quiz

  /** One copy of q for every line equal to its text. */
  function Copies(q: Questions.StaticQuestion, lines: seq<string>): seq<Questions.StaticQuestion> {
    if lines == [] then []
    else Copies(q, lines[..|lines| - 1]) + (if q.question == lines[|lines| - 1] then [q] else [])
  }

  /** The custom quiz's questions: the copies of each history's question, histories in order. */
  function CustomSelection(hs: seq<StaticQuestionHistory>, lines: seq<string>): seq<Questions.StaticQuestion> {
    if hs == [] then []
    else CustomSelection(hs[..|hs| - 1], lines) + Copies(hs[|hs| - 1].question, lines)
  }

  /** The number of lines equal to a text. */
  function Occurrences(lines: seq<string>, text: string): nat {
    if lines == [] then 0
    else Occurrences(lines[..|lines| - 1], text) + (if lines[|lines| - 1] == text then 1 else 0)
  }

  /** Each question is repeated once per line that names it. */
  lemma {:induction false} CopiesMeaning(q: Questions.StaticQuestion, lines: seq<string>)
    ensures |Copies(q, lines)| == Occurrences(lines, q.question)
    ensures forall p :: p in Copies(q, lines) ==> p == q
  {
    if lines != [] {
      CopiesMeaning(q, lines[..|lines| - 1]);
    }
  }

  /** The custom quiz asks exactly the history questions whose text is one of the lines. */
  lemma {:induction false} CustomSelectionMeaning(hs: seq<StaticQuestionHistory>, lines: seq<string>, p: Questions.StaticQuestion)
    ensures p in CustomSelection(hs, lines) <==>
      (exists k :: 0 <= k < |hs| && hs[k].question == p) && p.question in lines
  {
    if hs != [] {
      var n := |hs| - 1;
      var last := Copies(hs[n].question, lines);
      CustomSelectionMeaning(hs[..n], lines, p);
      CopiesMeaning(hs[n].question, lines);
      OccurrencesPositive(lines, hs[n].question.question);
      assert CustomSelection(hs, lines) == CustomSelection(hs[..n], lines) + last;
      if p in CustomSelection(hs[..n], lines) {
        var k :| 0 <= k < n && hs[..n][k].question == p;
        assert hs[k].question == p;
      } else if p in last {
        assert hs[n].question == p;
      }
      if (exists k :: 0 <= k < |hs| && hs[k].question == p) && p.question in lines {
        var k :| 0 <= k < |hs| && hs[k].question == p;
        if k < n {
          assert hs[..n][k].question == p;
        } else {
          assert Occurrences(lines, hs[n].question.question) > 0;
          assert last[0] in last;
        }
      }
    }
  }

  lemma {:induction false} OccurrencesPositive(lines: seq<string>, text: string)
    ensures Occurrences(lines, text) > 0 <==> text in lines
  {
    if lines != [] {
      var n := |lines| - 1;
      OccurrencesPositive(lines[..n], text);
      assert lines == lines[..n] + [lines[n]];
    }
  }
}
