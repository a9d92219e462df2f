# EducationApplication quizzing engine, modelled in Dafny

EducationApplication is a console study tool. A class has a bank of static questions, read from
category files named in an index. Each student has one history file per question: a header line,
then one tab-separated answer record per line. The engine gives a student quizzes of the questions
they have mastered least. It records every answer in the matching history and file. It measures
mastery from recent accuracy, spaced-repetition waiting times and the days since the last correct
answer. It also renders a response-history report and a progress table with text progress bars.

This project models that engine and proves properties of it. The modules follow the Java classes:

- `AnswerRecords`: QuestionAnswerRecord (a class with setters) and the line codec of
  StaticQuestionAnswerRecord.
- `Histories`: StaticQuestionHistory and QuestionHistory.compareTo. The record ledger is a class.
  Waiting time, windowed accuracy, days since the last correct answer and mastery are functions.
  The Java loops are methods proved against those functions.
- `Questions`: Question and StaticQuestion. These cover the line grammar, tags, checkAnswer and
  toString.
- `Utilities`, `Text` and `Numerals`: stringSplit, isPresent and the java.lang.String and
  Long.parseLong operations the codecs rely on.
- `Sorting` and `Quizzes`:
  - Quiz.getTaggedQuestionHistories.
  - StaticQuestionQuiz's pool and quiz. The pool uses a stable sort by mastery, then the first
    quizSize entries are shuffled.
  - Its cursor: getNextQuestionText, recordAnswer and getLastCorrect.
- `Students`: Student's loading, which matches history files to questions, and its mean
  masteries.
- `Engine`: QuizzingEngine's constructor, quizzes, tag list, history report and progress table.
- `FileUtilities`, `UserInterface` and `Bytes`: the text layer.
  - The escaping and path-compliance chains.
  - Label lookup, armor blocks, and comment and blank-line removal.
  - makeTable with its column fitting and cell wrapping, makeProgressBar, and the option-matching
    rule of the menus.
  - ByteToHex and ByteToString.

The model takes the world outside the program as parameters:

- File contents are `FileUtilities.Files`, a map from each path to the text fromFile returns for
  it, one character per byte. Reads fail with `FileNotFound`, and writes return the new map.
  A write keeps each character's low byte only, as DataOutputStream.writeBytes does, so the map
  then holds `FileUtilities.Written` of the text.
- The clock is `now`, in whole seconds.
- The random generator of Collections.shuffle is a sequence of draws.

Exceptions the Java code throws become `Err` values of `Wrappers.Result`, such as
`IndexOutOfBounds` and `MissingFormatWidth`. A Java loop that never ends becomes `Err(Diverges)`
or `None`. Doubles are `real`, and a 0/0 NaN is `None`.

Where the source has a defect listed under "## Findings", the model computes with the corrected
behaviour, and so do the members built on it. These members therefore do not return what the
program as written returns. With getDaysSinceLastCorrect's loop as written, for instance, every
history of two or more records has mastery 0 in the program. The members built on a correction:

- `Histories.StaticQuestionHistory.GetPercentMastered`, `Students.Student.GetPercentMastered`,
  `Students.Student.GetPercentMasteredWithTag`, `Engine.QuizzingEngine.GetPercentMastered` and
  `Engine.QuizzingEngine.ProgressReport` build on `Histories.StaticQuestionHistory.GetDaysSinceLastCorrect`
  and `Histories.StaticQuestionHistory.GetPercentCorrect`.
- The mastery order of `Histories.StaticQuestionHistory.CompareTo`, `Quizzes.Keyed`,
  `Quizzes.SortedPoolCorrect`, `Quizzes.StaticQuestionQuiz.MakeQuiz` and
  `Engine.QuizzingEngine.GetAutoStaticQuiz` builds on the same two.
- `Questions.ParseLine` and `Questions.StaticQuestion.FromLine` read the case flag as intended
  (`Questions.CapsFieldRead`), and `Questions.StaticQuestion.ToString` writes the line that
  `Questions.DecodeEncode` reads back. Nothing decodes the text of a history, so
  `Histories.StaticQuestionHistory.ToString` and the report built from it (`Engine.Texts`,
  `Engine.HistoryReport`, `Engine.QuizzingEngine.GetHistory`) title each history with
  `Questions.StaticQuestion.ToStringAsWritten`, the question's toString as the program writes it.
- `UserInterface.MakeTable` and, through it, `Engine.QuizzingEngine.ProgressReport` build on the
  row count of `UserInterface.FormatLineWithWrap`.

The as-written member named in each row of "## Findings" states what the program does instead.
The record decoder is an exception, as the history text above is. The loading constructor keeps `AnswerRecords.Decode` as
written, so an empty response makes a history unloadable in the model as in the program
(`Histories.EmptyResponseBreaksHistory`). The corrected decoder, `AnswerRecords.DecodeKeepingEmpty`,
is stated beside it and reads every record the written one reads the same way
(`AnswerRecords.DecodeKeepingEmptyAgrees`).

Question equality is the text comparison of StaticQuestion.equals, written as the predicates
`Questions.StaticQuestion.Equals` and `Histories.StaticQuestionHistory.Equals`. The pool and
recording lemmas below are stated with it.

## Model

| member | source | states |
|---|---|---|
| AnswerRecords.QuestionAnswerRecord.constructor | QuestionAnswerRecord.java:37-41 | a new record takes the clock reading as its timestamp and keeps the given duration and correctness |
| AnswerRecords.QuestionAnswerRecord.Default | QuestionAnswerRecord.java:47-51 | the default record is stamped LocalDateTime.MIN, lasts zero and is incorrect |
| AnswerRecords.QuestionAnswerRecord.GetTimestamp | QuestionAnswerRecord.java:63-65 | returns the stored timestamp |
| AnswerRecords.QuestionAnswerRecord.SetTimestamp | QuestionAnswerRecord.java:71-73 | replaces the timestamp and leaves duration and correctness as they were |
| AnswerRecords.QuestionAnswerRecord.GetDuration | QuestionAnswerRecord.java:79-81 | returns the stored duration |
| AnswerRecords.QuestionAnswerRecord.SetDuration | QuestionAnswerRecord.java:87-89 | replaces the duration and leaves timestamp and correctness as they were |
| AnswerRecords.QuestionAnswerRecord.GetCorrect | QuestionAnswerRecord.java:95-97 | returns the stored correctness |
| AnswerRecords.QuestionAnswerRecord.SetCorrect | QuestionAnswerRecord.java:103-105 | replaces the correctness and leaves timestamp and duration as they were |
| AnswerRecords.NewAnswer | StaticQuestionAnswerRecord.java:36-39 | a new answer carries the given response, duration and correctness, stamped with the clock reading |
| AnswerRecords.DecodeFields | StaticQuestionAnswerRecord.java:45-54 | a line with fewer than four fields never decodes; a decoded answer is correct exactly when the third field is "r", its response is the fourth field, and its duration is whole seconds |
| AnswerRecords.EncodeFields | StaticQuestionAnswerRecord.java:68-73 | the encoded line splits into timestamp, whole seconds, the r/w marker and the response's own fields |
| AnswerRecords.DecodeEncode | StaticQuestionAnswerRecord.java:45-73 | decoding an encoded answer gives back timestamp, correctness and response, and the duration cut to whole seconds |
| AnswerRecords.DecodeKeepsFirstSegment | StaticQuestionAnswerRecord.java:45-73 | a response containing a tab comes back cut at its first tab |
| AnswerRecords.EmptyResponseFails | StaticQuestionAnswerRecord.java:45-52 | the line of a record with an empty response has three fields and decodes to IndexOutOfBounds |
| AnswerRecords.FieldsLeading | StaticQuestionAnswerRecord.java:46 | with empty fields kept, a tab-free field followed by a tab is the first field of the line |
| AnswerRecords.EncodeFieldsKept | StaticQuestionAnswerRecord.java:46 | with empty fields kept, a written record whose response is free of tabs has exactly four fields: timestamp, seconds, marker and response, the empty response included |
| AnswerRecords.DecodeKeepingEmptyEncode | StaticQuestionAnswerRecord.java:45-53 | with empty fields kept, every record whose response is free of tabs, the empty response included, decodes back as persistence keeps it |
| AnswerRecords.DecodeKeepingEmptyAgrees | StaticQuestionAnswerRecord.java:45-53 | wherever the decoder as written reads a record back, the corrected decoder reads the same record |
| AnswerRecords.AnyOtherMarkerIsWrong | StaticQuestionAnswerRecord.java:49-52 | any marker other than "r" reads as a wrong answer, not an error |
| Bytes.Unsigned | ByteUtilities.java:35 | the byte's unsigned reading is below 256 and congruent to the byte modulo 256 |
| Bytes.DigitValue | ByteUtilities.java:35 | a character's hexadecimal value is a digit value or -1 |
| Bytes.DigitValueOfHexDigit | ByteUtilities.java:35 | reading back an uppercase digit gives its value |
| Bytes.ByteToHex | ByteUtilities.java:32-38 | the text has two characters per byte, the high then the low nibble of each byte's unsigned value, in order |
| Bytes.UnHexOfHex | ByteUtilities.java:32-38 | the hexadecimal text reads back as exactly the original bytes |
| Bytes.HexIsUppercaseDigits | ByteUtilities.java:32-38 | every character written is 0-9 or A-F |
| Bytes.Widened | ByteUtilities.java:67 | the (char) cast gives a 16-bit value congruent to the byte, equal to it for non-negative bytes |
| Bytes.ByteToString | ByteUtilities.java:64-70 | one character per byte, each the byte widened with its sign to 16 bits, in order |
| Bytes.NarrowedWidened | ByteUtilities.java:64-70 | narrowing each character back to a byte gives the original bytes |
| Numerals.ParseLong | StaticQuestionAnswerRecord.java:48 | Long.parseLong accepts only a value within the 64-bit range |
| Numerals.Digits | StaticQuestionAnswerRecord.java:70 | the decimal rendering of a count is non-empty and all digits |
| Numerals.ParseShowRoundTrip | StaticQuestionAnswerRecord.java:48-70 | Long.parseLong of the decimal rendering of any 64-bit value gives the value back |
| Numerals.ShowIntChars | StaticQuestionAnswerRecord.java:70 | a decimal rendering is non-empty and holds only digits and a leading minus sign |
| Text.IndexOf | Utilities.java:38-40 | indexOf gives the first position of the character, -1 exactly when it is absent |
| Text.Find | FileUtilities.java:106-107 | indexOf from a start position gives -1 or a position at or after the start where the pattern occurs |
| Text.FindSkips | FileUtilities.java:106-107 | the occurrence found is the first one at or after the start, and -1 means there is none |
| Text.RemoveChar | StaticQuestion.java:100 | replacing a character by the empty string leaves no copy of it and adds no character |
| Text.ToLower | StaticQuestion.java:98 | lower-casing keeps the length and folds each ASCII capital |
| Text.ReplaceOneChar | FileUtilities.java:200-205 | replacing a one-character target is character-by-character substitution |
| Text.ReplaceCharMembers | FileUtilities.java:200-205 | a character occurs after substitution exactly when it occurs in the text and is not the target, or occurs in the replacement and the target occurs in the text |
| Text.ReplaceCharByNothing | StaticQuestion.java:100 | replacing a character by nothing deletes it |
| Utilities.StringSplit | Utilities.java:35-49 | the loop returns Split of the input: the non-empty runs between separators, in order |
| Utilities.StringSplitChar | Utilities.java:57-59 | the char overload returns the same pieces as the one-character string overload |
| Utilities.ToArray | Utilities.java:44-47 | the array copied out holds the collected pieces in order |
| Utilities.IsPresent | Utilities.java:67-87 | the search answers true exactly when some element equals the target |
| Utilities.AppendTerminated | StaticQuestion.java:137-151 | accumulating each piece followed by the separator gives the terminated join of the pieces |
| Utilities.SplitAroundSeparator | Utilities.java:35-49 | a separator cuts the text into two parts split independently, so leading, trailing and doubled separators vanish |
| Utilities.SplitValid | Utilities.java:38-43 | no piece is empty and no piece holds the separator |
| Utilities.SplitKeepsContent | Utilities.java:35-49 | the pieces concatenated are the input with every separator removed |
| Utilities.SplitWithoutSeparator | Utilities.java:42-43 | a text without the separator is one piece, an empty text none |
| Utilities.SplitAvoids | Utilities.java:35-49 | a character absent from the text is absent from every piece |
| Utilities.SplitJoin | Utilities.java:35-49 | splitting pieces joined by the separator gives back the pieces when they are non-empty and separator-free |
| Utilities.SplitJoinTerminated | Utilities.java:35-49 | splitting pieces each followed by the separator gives back the pieces |
| Utilities.SplitEmptyThird | Utilities.java:38-39 | an empty field between two separators produces no piece |
| Questions.IsStatic | Question.java:109-114 | a line is static exactly when its first character is 's'; an empty line is an out-of-bounds error |
| Questions.StripIsKeep | StaticQuestion.java:99-101 | deleting each ignored character in turn keeps exactly the characters that are not ignored, in order |
| Questions.StripInsertion | StaticQuestion.java:99-101 | an ignored character inserted anywhere is deleted again |
| Questions.IgnoredInsertion | StaticQuestion.java:96-113 | inserting an ignored character (after lower-casing, when case is ignored) leaves the normal form of a response unchanged |
| Questions.AcceptsStoredAnswers | StaticQuestion.java:96-113 | every stored correct answer is accepted verbatim, and so is one with an ignored character inserted |
| Questions.ParseLine | StaticQuestion.java:48-81 | a decoded line had both braces, and its tags start with "Question" and end with "StaticQuestion" |
| Questions.ParseAt | StaticQuestion.java:48-81 | once the braces are found, the decoder reads the pre-brace fields, the answers between the braces and the tags after them |
| Questions.ParsedFields | StaticQuestion.java:54-73 | fewer than four pre-brace fields is an out-of-bounds error; otherwise the fields, answers and tags are the ones read |
| Questions.IgnoreField | StaticQuestion.java:63-70 | the ignore field is read character by character, "**" standing for no ignored characters |
| Questions.ParseLayout | StaticQuestion.java:48-81 | a laid-out line decodes to its prefix's fields, its answers and its tags |
| Questions.ParseLaidOut | StaticQuestion.java:48-81 | a brace-free prefix, answers between braces and tags after decode to the pieces of each part |
| Questions.PrefixFields | StaticQuestion.java:155 | the text before the braces splits into the type marker, case flag, ignore field and question, an empty ignore field vanishing |
| Questions.DecodeEncode | StaticQuestion.java:48-157 | the intended encoder's line decodes back to the same question |
| Questions.AssembleEncoded | StaticQuestion.java:54-81 | the fields, answers and explicit tags of a well-formed question assemble back to it |
| Questions.CapsFieldRead | StaticQuestion.java:56-59 | the case-flag field "y" reads back as the flag when compared as a string |
| Questions.TagsReassemble | StaticQuestion.java:76-80 | the two implicit tags around the explicit ones give back the tag list |
| Questions.CaseFlagLostAsWritten | StaticQuestion.java:56-59 | comparing the field with the character 'y' loses the case flag: a question ignoring capitalization reads back without it |
| Questions.EncodeAsWrittenEmptyIgnoreFails | StaticQuestion.java:145-156 | toString as written leaves an empty ignore field, which the decoder cannot read back |
| Questions.EncodeAsWrittenDuplicatesTags | StaticQuestion.java:141-156 | toString as written writes the implicit tags too, so they come back twice |
| Questions.EncodeParts | StaticQuestion.java:136-157 | the encoded line is the type marker, case flag, ignore field, question, the braced answers and the tags, tab-separated |
| Questions.DecodedTagsValid | StaticQuestion.java:76-80 | the tag list of a well-formed question consists of non-empty, tab-free tags |
| Questions.StaticQuestion.constructor | StaticQuestion.java:37-42 | the new question holds the given answers, text and options, and its tag list is just "Question" |
| Questions.StaticQuestion.AddTag | Question.java:69-71 | the tag is appended at the end, duplicates included |
| Questions.StaticQuestion.AddTags | StaticQuestion.java:77-79 | the tags read from the line are appended in order |
| Questions.StaticQuestion.HasTag | Question.java:84-89 | true exactly when some tag equals the target |
| Questions.StaticQuestion.HasTags | Question.java:96-102 | true exactly when every target is a tag; true for no targets |
| Questions.StaticQuestion.FromLine | StaticQuestion.java:48-81 | the decoding constructor fails exactly as the line decoder does and otherwise yields a fresh question holding the decoded data |
| Questions.StaticQuestion.Transform | StaticQuestion.java:97-101 | the normalisation loop gives the optional lower-casing followed by deletion of the ignored characters |
| Questions.StaticQuestion.CheckAnswer | StaticQuestion.java:96-113 | true exactly when the normalised response equals some normalised correct answer |
| Questions.StaticQuestion.ToString | StaticQuestion.java:136-157 | the text written is the intended encoding of the question |
| Questions.StaticQuestion.ToStringAsWritten | StaticQuestion.java:136-157 | the text written is toString as the program writes it: the ignored characters verbatim and every tag, the implicit two included |
| Sorting.InsertByKey | StaticQuestionQuiz.java:100 | inserting one pair into the sorted list adds exactly one entry |
| Sorting.InsertSorted | StaticQuestionQuiz.java:100 | inserting into a list sorted by key keeps it sorted |
| Sorting.InsertStable | StaticQuestionQuiz.java:100 | insertion keeps the entries of every other key in order and puts the new one last among its own key |
| Sorting.InsertPermutes | StaticQuestionQuiz.java:100 | insertion adds exactly the new pair to the multiset of entries |
| Sorting.SortByKeyCorrect | StaticQuestionQuiz.java:100 | Collections.sort orders by key, keeps every entry, and keeps entries of equal key in their original order (stability) |
| Sorting.SortSeconds | StaticQuestionQuiz.java:100 | sorting the keyed pairs only reorders the histories |
| Sorting.Draw | StaticQuestionQuiz.java:111 | each random draw lies below its bound |
| Sorting.ShufflePermutes | StaticQuestionQuiz.java:111 | whatever the random draws, Collections.shuffle only reorders the quiz |
| Quizzes.TaggedSnoc | Quiz.java:43-53 | one more history is kept by the filter exactly when its question has all the tags |
| Quizzes.TaggedMeaning | Quiz.java:43-53 | getTaggedQuestionHistories keeps exactly the histories whose question has every tag |
| Quizzes.TaggedAppend | Quiz.java:43-53 | the filter keeps order: filtering a concatenation filters each part |
| Quizzes.TaggedNoTags | Quiz.java:39-40 | an empty tag array keeps every history |
| Quizzes.Keyed | QuestionHistory.java:61-69 | each history of the pool is keyed by its mastery, the order compareTo sorts by |
| Quizzes.SortKeepsKeys | StaticQuestionQuiz.java:100 | the sorted pairs still carry their own histories' masteries as keys |
| Quizzes.SortedPoolCorrect | StaticQuestionQuiz.java:100 | the sorted pool holds the same histories, ascending by mastery, histories of equal mastery in pool order |
| Quizzes.QuizSize | StaticQuestionQuiz.java:102-106 | the quiz size is numToAsk, or the pool size when numToAsk is larger |
| Quizzes.QuestionsOf | StaticQuestionQuiz.java:108-109 | one question per history taken |
| Quizzes.QuizOfMeaning | StaticQuestionQuiz.java:98-112 | the quiz has min(numToAsk, pool size) questions: those of the first histories of the sorted pool, reordered |
| Quizzes.QuizLeastMastered | StaticQuestionQuiz.java:98-112 | every question asked belongs to a history no more mastered than any history left out |
| Quizzes.MergeMeaning | StaticQuestionQuiz.java:87-91 | merging keeps the old pool as a prefix, covers every new history by question text, adds only new histories, and adds no duplicate text |
| Quizzes.HitsAfter | StaticQuestionQuiz.java:135-140 | a history about the question at position i counts for every longer prefix |
| Quizzes.AppendTimesMeaning | StaticQuestionHistory.java:64-69 | appending a line to one file any number of times fails exactly when the file cannot be read, with that failure, and leaves a readable file |
| Quizzes.ExpectedStart | StaticQuestionQuiz.java:135 | before the loop no history has the new record |
| Quizzes.RecordedAfterLoop | StaticQuestionQuiz.java:135-140 | with every append through, each history about the question has the record appended and the others are unchanged |
| Quizzes.RecordedAfterFailure | StaticQuestionQuiz.java:135-140 | an append fails only at the first history about the question; then only that history has the record |
| Quizzes.CopiesMeaning | StaticQuestionQuiz.java:51-54 | a question is copied once per line equal to its text, and nothing else is copied |
| Quizzes.CustomSelectionMeaning | StaticQuestionQuiz.java:48-56 | the custom quiz asks exactly the history questions whose text is one of the file's lines |
| Quizzes.OccurrencesPositive | StaticQuestionQuiz.java:51-54 | a text occurs a positive number of times exactly when it is one of the lines |
| Quizzes.StaticQuestionQuiz.constructor | StaticQuestionQuiz.java:66-79 | the pool is the tagged histories sorted by mastery and the quiz is made from it; index 0, no start time |
| Quizzes.StaticQuestionQuiz.Custom | StaticQuestionQuiz.java:42-57 | an unreadable file is the failure; otherwise the quiz holds the custom selection of the file's lines, with no pool |
| Quizzes.StaticQuestionQuiz.SelectCustom | StaticQuestionQuiz.java:48-56 | the outer loop over the histories gathers the custom selection |
| Quizzes.StaticQuestionQuiz.CopiesOf | StaticQuestionQuiz.java:51-54 | the inner loop gathers one copy of the question per matching line |
| Quizzes.StaticQuestionQuiz.FromSelection | StaticQuestionQuiz.java:43-45 | the custom quiz starts with the selected questions at index 0, with no pool |
| Quizzes.StaticQuestionQuiz.GetStudent | Quiz.java:73-75 | returns the student the quiz was made for |
| Quizzes.StaticQuestionQuiz.GetTaggedQuestionHistories | Quiz.java:43-53 | returns the student's histories whose question has every tag, in order |
| Quizzes.StaticQuestionQuiz.TaggedHistories | Quiz.java:44-48 | the filtering loop gives the tagged histories |
| Quizzes.StaticQuestionQuiz.MakeQuiz | StaticQuestionQuiz.java:98-112 | the pool is sorted by mastery and the quiz is the shuffled questions of its first quizSize histories |
| Quizzes.StaticQuestionQuiz.FirstQuestions | StaticQuestionQuiz.java:102-109 | the loop takes the questions of the first quizSize histories of the sorted pool |
| Quizzes.StaticQuestionQuiz.MoreTags | StaticQuestionQuiz.java:87-93 | the new tagged histories not yet in the pool join it and the quiz is made again; a quiz without a pool fails with a null pointer |
| Quizzes.StaticQuestionQuiz.MergeHistories | StaticQuestionQuiz.java:88-91 | the loop adds each history whose question text is not yet in the pool |
| Quizzes.StaticQuestionQuiz.GetNextQuestionText | StaticQuestionQuiz.java:118-122 | returns the text at quizIndex and records the start time; past the end it is an index failure |
| Quizzes.StaticQuestionQuiz.RecordAnswer | StaticQuestionQuiz.java:130-143 | checks the answer, adds one record to every history about the current question and to its file, and advances; no start time, past the end, or an unreadable file each fail as stated |
| Quizzes.StaticQuestionQuiz.RecordAll | StaticQuestionQuiz.java:135-140 | the loop appends the record to every history about the question, and the line to its file once per such history |
| Quizzes.StaticQuestionQuiz.RecordStep | StaticQuestionQuiz.java:135-140 | one turn of the loop adds the record at a history about the question and leaves the others unchanged |
| Quizzes.StaticQuestionQuiz.RecordOne | StaticQuestionHistory.java:64-69 | addResponse appends the record to one history and the line to the file |
| Quizzes.StaticQuestionQuiz.GetLastCorrect | StaticQuestionQuiz.java:149-151 | returns the correct answers of the question before quizIndex; at index 0 it is an index failure |
| Quizzes.StaticQuestionQuiz.GetQuiz | StaticQuestionQuiz.java:157-159 | returns the quiz's questions in the order they are asked |
| Histories.CorrectTimes | StaticQuestionHistory.java:121-122 | the timestamps of the correct records, never more than the records |
| Histories.MaxGapIsMaximum | StaticQuestionHistory.java:121-129 | the largest span is at least every span between consecutive correct answers and equals one of them |
| Histories.CorrectTimesEmpty | StaticQuestionHistory.java:114-120 | there are no correct timestamps exactly when no record is correct |
| Histories.PercentCorrect | StaticQuestionHistory.java:133-152 | the accuracy lies in [0, 1] and is 0 for a window without answers, as documented |
| Histories.Mastery | StaticQuestionHistory.java:75-90 | mastery is never negative and is 0 for an empty history |
| Histories.Compare | QuestionHistory.java:61-69 | compareTo is -1, 0 or 1 as the first mastery is smaller, equal or larger; with NaN on either side it is 0 |
| Histories.EncodeAll | StaticQuestionHistory.java:176-177 | one encoded line per record, in order |
| Histories.PersistedAll | StaticQuestionHistory.java:51-53 | each record as a write and read keep it |
| Histories.StaticQuestionHistory.constructor | StaticQuestionHistory.java:35-38 | a new history holds the question and no records |
| Histories.StaticQuestionHistory.Load | StaticQuestionHistory.java:46-54 | an unreadable file or a line that does not decode is the failure; otherwise the records are those of every line after the first |
| Histories.StaticQuestionHistory.DecodeLines | StaticQuestionHistory.java:51-53 | the loop decodes one record per line, in order, stopping at the first failure |
| Histories.StaticQuestionHistory.GetQuestion | QuestionHistory.java:52-54 | returns the question given at construction |
| Histories.StaticQuestionHistory.AddResponse | StaticQuestionHistory.java:64-69 | one record stamped now is appended to the list; the file then holds its cleaned text and the record's line, as writeBytes stores them |
| Histories.StaticQuestionHistory.GetWaitingTime | StaticQuestionHistory.java:111-131 | 0 when no record is correct, else the longest span between consecutive correct answers times 1.2, truncated, plus 1 |
| Histories.StaticQuestionHistory.FirstCorrect | StaticQuestionHistory.java:112-120 | the first loop finds a correct record exactly when there is one, and takes the first |
| Histories.StaticQuestionHistory.LongestSpan | StaticQuestionHistory.java:121-129 | the second loop finds the largest span between consecutive correct answers |
| Histories.StaticQuestionHistory.GetPercentCorrect | StaticQuestionHistory.java:139-152 | the accuracy over the window, as documented (0 for an empty window) |
| Histories.StaticQuestionHistory.GetPercentCorrectAsWritten | StaticQuestionHistory.java:139-152 | right / (right + wrong), undefined (NaN) for an empty window |
| Histories.StaticQuestionHistory.CountWindow | StaticQuestionHistory.java:140-149 | the loop counts the right and the wrong answers at most maxDaysAgo days old |
| Histories.StaticQuestionHistory.GetDaysSinceLastCorrect | StaticQuestionHistory.java:92-104 | the age in days of the latest correct record, Integer.MAX_VALUE when there is none, as documented |
| Histories.StaticQuestionHistory.GetDaysSinceLastCorrectAsWritten | StaticQuestionHistory.java:96-104 | the loop as written, with its `i <= 0` condition |
| Histories.StaticQuestionHistory.GetPercentMastered | StaticQuestionHistory.java:75-90 | mastery by the formula, over the documented accuracy and days since the last correct answer |
| Histories.StaticQuestionHistory.CompareTo | QuestionHistory.java:61-69 | compares the two histories' masteries taken at the same instant |
| Histories.StaticQuestionHistory.ToString | StaticQuestionHistory.java:174-179 | a title line naming the question's toString as the program writes it, then one line per record |
| Histories.MasteryParts | StaticQuestionHistory.java:79-89 | a non-empty history with a correct record is scored by the formula accuracy * (1 - days / (2 * wait)), floored at 0 |
| Histories.CorrectTimesPrefix | StaticQuestionHistory.java:121-129 | the correct timestamps of a prefix begin those of the whole list |
| Histories.MaxGapSnoc | StaticQuestionHistory.java:123-126 | one more correct answer: the new span competes with the old maximum |
| Histories.SpanStep | StaticQuestionHistory.java:122-128 | a correct record in the second loop updates the maximum to that of the longer prefix |
| Histories.DecodeAllSuccess | StaticQuestionHistory.java:51-53 | a loaded file has one record per line, each the decoding of its line |
| Histories.DecodeAllFailure | StaticQuestionHistory.java:51-53 | a failed load is the failure of some line |
| Histories.DecodeAllKeepsError | StaticQuestionHistory.java:51-53 | once a prefix fails to decode, the whole file fails with the same error |
| Histories.CorrectTimesAppend | StaticQuestionHistory.java:121-129 | the correct timestamps of a concatenation are those of each part in turn |
| Histories.WaitingTimeZero | StaticQuestionHistory.java:111-131 | the waiting time is 0 exactly when no record is correct, and at least 1 otherwise |
| Histories.WrongAnswerIgnored | StaticQuestionHistory.java:121-129 | a wrong record anywhere changes nothing in the waiting time |
| Histories.OneCorrectWaitsOneDay | StaticQuestionHistory.java:111-131 | a single correct answer among wrong ones gives a wait of one day |
| Histories.WaitingTimeExample | StaticQuestionHistory.java:106-131 | correct answers 2 and then 5 days apart give a wait of (int)(5 * 1.2) + 1 = 7 days |
| Histories.PercentCorrectIsShare | StaticQuestionHistory.java:133-152 | for a non-empty window the accuracy is the right answers' share, and the source's division agrees |
| Histories.WindowCounts | StaticQuestionHistory.java:143-149 | every answer at most maxDaysAgo days old is counted once, as right or as wrong |
| Histories.InWindow | StaticQuestionHistory.java:144-148 | the window holds only answers at most maxDaysAgo days old |
| Histories.DaysSinceLastCorrectIsLatest | StaticQuestionHistory.java:92-95 | as documented: the age of the last correct record, whatever wrong records follow |
| Histories.DaysSinceLastCorrectNever | StaticQuestionHistory.java:92-103 | as documented: Integer.MAX_VALUE when no record is correct |
| Histories.DaysSinceLastCorrectLoopSkips | StaticQuestionHistory.java:97 | as written, the loop never runs for two records: two correct answers given now read as never correct |
| Histories.DaysSinceLastCorrectAsWrittenAgrees | StaticQuestionHistory.java:96-104 | as written, the loop agrees with its documentation on one-record histories |
| Histories.MasteryAsWrittenVanishes | StaticQuestionHistory.java:75-104 | as written, every history of two records or more has mastery 0 |
| Histories.MasteryOfTwoRecentAnswers | StaticQuestionHistory.java:75-104 | two correct answers given now: mastery 1 as documented, 0 as written |
| Histories.PercentCorrectEmptyWindow | StaticQuestionHistory.java:136-151 | an empty window: the source divides 0 by 0 where its documentation promises 0 |
| Histories.NothingInWindow | StaticQuestionHistory.java:143-149 | with every answer too old, both counts are 0 |
| Histories.MasteryAsWrittenUndefined | StaticQuestionHistory.java:75-90 | as written, one correct answer over a week old scores NaN |
| Histories.MasteryIsAccuracy | StaticQuestionHistory.java:83-89 | while the last correct answer is under 2 * wait days old, mastery is the week's accuracy (integer division makes the factor 1) |
| Histories.MasteryExpires | StaticQuestionHistory.java:83-89 | from 2 * wait days after the last correct answer on, mastery is 0 |
| Histories.MasteryAtMostOne | QuestionHistory.java:35-39 | mastery stays at most 1 unless a correct answer is dated far in the future |
| Histories.MasteryOfFutureAnswer | QuestionHistory.java:35-39 | a correct answer dated two days ahead of the clock scores 2, outside the documented range |
| Histories.CompareAntisymmetric | QuestionHistory.java:61-69 | compareTo is antisymmetric, NaN included |
| Histories.CompareReflexive | QuestionHistory.java:61-69 | a history compares equal to itself |
| Histories.EncodeNoEol | StaticQuestionHistory.java:67 | an encoded record is non-empty and holds no end of line when its response holds none |
| Histories.DecodeAllEncoded | StaticQuestionHistory.java:51-53 | records that fit the codec decode back to what persistence keeps of them |
| Histories.LoadAfterAddResponse | StaticQuestionHistory.java:46-69 | for a record whose response is non-empty and free of tabs and ends of line, loading text with its line appended gives the former records followed by the new one |
| Histories.ReadAfterAddResponse | StaticQuestionHistory.java:46-69 | for a file in the form fromFile returns, and a response that after writeBytes is non-empty and free of tabs, ends of line and '#', the file addResponse writes loads back as the former records followed by the new one, its response as writeBytes keeps it |
| Histories.EncodeWritten | StaticQuestionHistory.java:67-68 | of an encoded record only the response can change in the write |
| Histories.TransmittedKeeps | StaticQuestionHistory.java:67-68 | a record comes through the write unchanged exactly when its response is in the form fromFile returns |
| Histories.EmptyResponseBreaksHistory | StaticQuestionHistory.java:64-69 | after an empty answer is recorded, a history that loaded fails to load with IndexOutOfBounds |
| Histories.LoadAfterEmptyResponse | StaticQuestionHistory.java:46-54 | text with a record of empty response appended fails to load with IndexOutOfBounds wherever it loaded before |
| Histories.CommentCutsResponse | StaticQuestionHistory.java:64-69 | a '#' in a response is cut on the next read with the rest of the response, the record keeping its line: it reads back with the text before the '#', or the history fails to load when nothing precedes the '#' |
| Histories.CSharpReadsAsC | StaticQuestionHistory.java:64-69 | the answer "C#" reads back as one record with the response "C" |
| Histories.CommentWritten | StaticQuestionHistory.java:68 | a record whose response is in the form fromFile returns is appended to the cleaned text unchanged |
| Histories.CommentCleaned | FileUtilities.java:319-337 | cleaning cuts an appended record at the first '#' of its response and ends its line |
| Histories.CleanedCut | FileUtilities.java:319-337 | cleaned text, a comment-free line and a comment clean to the text and the line with its end of line |
| Histories.CleanedLineAgain | FileUtilities.java:332-337 | removeBlankLines gives a last line without an end of line its end of line |
| Histories.CleanedReadBack | StaticQuestionHistory.java:68 | a line whose written form holds no comment or end of line, appended to a file, is read back after the file's cleaned text as the write keeps it |
| Histories.DecodeAllLast | StaticQuestionHistory.java:51-53 | decoding one line more: the new line decides once the others decode |
| Histories.LoadHistoryText | StaticQuestionHistory.java:46-54 | the text toString writes loads back to the records as persistence keeps them |
| Histories.TitledLines | StaticQuestionHistory.java:174-178 | a title line followed by terminated lines splits into the title and the lines |
| Students.Claimed | Student.java:60-69 | after the scan of the bank, every unused question with the text is marked used and the rest is unchanged |
| Students.Unused | Student.java:49 | the cloned bank starts with every question unused, in order |
| Students.Masteries | Student.java:104-107 | each history's mastery, in order |
| Students.Student.constructor | Student.java:35-39 | a new student has the given name and directory and no histories |
| Students.Student.Loaded | Student.java:47-56 | the loaded student holds its name, its directory and the histories read |
| Students.Student.Load | Student.java:47-94 | the loading constructor fails exactly when the whole load does, with its failure; otherwise the name is the first line of id.txt and the histories are fresh, distinct and hold what the index's files say; the files end as the load leaves them |
| Students.Student.MatchFiles | Student.java:57-79 | the loop over the index lines makes one history per line, or stops at the first failure |
| Students.Student.MatchFile | Student.java:58-78 | one index line: its question is found in the bank and its file loaded, or the failure is reported |
| Students.Student.ClaimQuestion | Student.java:59-69 | the inner scan settles on the last unused question with the text and marks every such question used |
| Students.Student.CreateBlankFiles | Student.java:80-93 | every question still unused gets a header-only history file and an index line, in bank order |
| Students.Student.BlankFile | Student.java:83-89 | one unused question: its header-only file is written, then its name appended to the index |
| Students.Student.GetPercentMastered | Student.java:100-110 | the mean mastery of all histories, undefined (0/0) with none |
| Students.Student.GetPercentMasteredWithTag | Student.java:117-129 | the mean mastery of the histories whose question has the tag, undefined with none |
| Students.MatchAllKeepsError | Student.java:57-79 | once an index line fails, the later lines are not looked at |
| Students.CreateBlankKeepsFailure | Student.java:81-93 | once a blank file cannot be written, the loop's failure stays that one |
| Students.LastMatchMeaning | Student.java:60-69 | the scan finds a question exactly when an unused one has the text, and it finds the last of them |
| Students.ClaimedExhausts | Student.java:60-69 | after the scan no unused question has the text any more |
| Students.ClaimedStaysUsed | Student.java:60-69 | a scan for another text never makes a used question unused again |
| Students.MatchAllUnfold | Student.java:57-79 | a successful match of the index is a match of all but the last line, then of the last |
| Students.MatchAllLength | Student.java:57-79 | one history is loaded per index line |
| Students.MatchAllEntry | Student.java:57-79 | the history for index line k has the line's text less the extension as its question, and the records of the file the line names |
| Students.MatchAllExhausts | Student.java:57-79 | after matching, no unused question has the text of any index line |
| Students.MatchOneMeaning | Student.java:58-78 | one index line loads exactly when its name has an extension to drop, an unused question has the text and its file reads; a missing question is the "No Question found" failure |
| Students.RepeatedFileFails | Student.java:57-79 | an index that names the same file twice does not load |
| Students.LoadedName | Student.java:51-52 | the name is the text of id.txt up to its first end of line |
| Students.HeaderOnlyFile | Student.java:86-87 | a new history file holds only its header line and loads as a history without records |
| Students.CreateBlankWrites | Student.java:80-93 | each question left unused has a history file holding only the header |
| Students.BlankOneAt | Student.java:83-89 | making one blank file changes that file and the index only |
| Students.ReadHeaderOnly | StaticQuestionHistory.java:46-54 | a header-only history file loads as a history without records |
| Students.SumNonNegative | Student.java:104-107 | the sum of non-negative masteries is non-negative |
| Students.SumAtMostCount | Student.java:104-107 | the sum of masteries at most 1 is at most their count |
| Students.MeanMasteryBounds | Student.java:96-110 | the mean is undefined exactly when there are no histories, never negative, and at most 1 when every mastery is |
| Students.MeanOfMasteries | Student.java:100-110 | sum / count of values in [0, 1] lies in [0, 1] |
| Students.WithTagMeaning | Student.java:121-126 | the histories counted are exactly the student's histories whose question has the tag |
| Students.TaggedMeanUndefined | Student.java:117-129 | the tagged mean is undefined (0/0) exactly when no history has the tag |
| Engine.DispatchStep | QuizzingEngine.java:51-56 | a question line that fails stops the category with its failure; one that decodes puts its question in front of the rest |
| Engine.CategoriesStep | QuizzingEngine.java:48-57 | the first category that fails is the failure; one that reads puts its questions in front of the later ones |
| Engine.HoldsAppend | QuizzingEngine.java:53 | the question objects of two parts hold the decoded questions of the two parts |
| Engine.DispatchMeaning | QuizzingEngine.java:51-56 | a category loads exactly when every line after its first is a static question that decodes, and then holds those questions in order |
| Engine.FirstLineIgnored | QuizzingEngine.java:50-51 | the first line of a category file only names it: whatever it says, the questions are those of the later lines |
| Engine.UnknownTypeFails | QuizzingEngine.java:52-55 | a line after the first that is not a static question stops the load |
| Engine.TaggedWithin | Quiz.java:43-53 | the tagged histories are among the student's histories |
| Engine.TaggedMember | Quiz.java:43-53 | a tagged history is one of the student's and its question has the tags |
| Engine.WithTagWithin | Student.java:121-126 | the histories with one tag are among the student's histories |
| Engine.Contents | QuizzingEngine.java:172-174 | one entry per shown history: its question and its records |
| Engine.Texts | QuizzingEngine.java:173 | one toString per shown history, its title holding the question's toString as the program writes it |
| Engine.ContentsAppend | QuizzingEngine.java:172-174 | the contents of a concatenation are those of each part |
| Engine.TextsAppend | QuizzingEngine.java:172-174 | the texts of a concatenation are those of each part |
| Engine.HistoryReportSnoc | QuizzingEngine.java:165-176 | one more history adds its toString, titled by the question's toString as the program writes it, and a line break at the end of the report exactly when its question has the tags |
| Engine.HistoryReportUntagged | QuizzingEngine.java:165-176 | with no tags the report is the title line, then every history's toString, titled by the question's toString as the program writes it, and a line break |
| Engine.RoundIsNearest | QuizzingEngine.java:77 | Math.round gives the integer nearest, halves rounded up |
| Engine.PercentMasteredBounds | QuizzingEngine.java:76-78 | the percentage is the mean mastery times 100 to within a half, 0 for no histories, and lies in 0..100 while no correct answer is dated far in the future |
| Engine.TagMeans | QuizzingEngine.java:198-200 | one tagged mean mastery per tag, in order |
| Engine.ProgressRows | QuizzingEngine.java:198-204 | one row per tag, in order |
| Engine.ProgressRowsSnoc | QuizzingEngine.java:198-204 | one more tag adds its row at the end |
| Engine.ProgressRowShape | QuizzingEngine.java:199-203 | a row is the tag, the mastery times 100 cut to a whole number within 0..100 followed by "%", and a ten-place bar with a tenth of the percentage filled |
| Engine.ProgressTableRow | QuizzingEngine.java:199-202 | the row of tag i holds the tag and its percentage, within 0..100 |
| Engine.PercentBounds | QuizzingEngine.java:200 | a mastery in [0, 1] truncates to a percentage in 0..100 |
| Engine.TaggedMasteryBounds | Student.java:117-129 | the tagged mean mastery stays within [0, 1] while no correct answer is dated far in the future |
| Engine.ProgressTableShape | QuizzingEngine.java:190-204 | the table has the fixed header, then one three-cell row per tag, the tags in order, each with its percentage in 0..100 |
| Engine.ProgressReportSucceeds | QuizzingEngine.java:190-205 | the table of the progress report always lays out: every row has the header's three cells |
| Engine.FirstIndex | QuizzingEngine.java:151 | where a tag first occurs in the list |
| Engine.FirstOccurrencesMembers | QuizzingEngine.java:147-158 | keeping first occurrences keeps every value and none twice |
| Engine.FirstOccurrencesOrdered | QuizzingEngine.java:147-158 | the values kept are listed in the order of their first occurrence |
| Engine.TagsListedMembers | QuizzingEngine.java:149-150 | a tag is listed exactly when some question has it |
| Engine.AllTagsMeaning | QuizzingEngine.java:147-158 | getAllTags holds a tag exactly when some question has it, holds none twice, and lists them in the order they first occur |
| Engine.PoolForWithin | QuizzingEngine.java:97-103 | the pool draws only on the student's histories |
| Engine.SortedPoolMembers | StaticQuestionQuiz.java:100 | sorting keeps exactly the pool's histories |
| Engine.SortedPoolHas | StaticQuestionQuiz.java:100 | sorting keeps what the pool holds by question text |
| Engine.PoolForMembers | QuizzingEngine.java:97-103 | every history in the pool is one of the student's and has all the tags of one of the lists |
| Engine.PoolForComplete | QuizzingEngine.java:97-103 | every history of the student that has all the tags of one of the lists is in the pool, itself or by its question text |
| Engine.TaggedIncludes | Quiz.java:43-53 | a history whose question has the tags is among the tagged ones |
| Engine.MergeKeeps | StaticQuestionQuiz.java:88-91 | merging keeps what the pool held |
| Engine.MergeAdds | StaticQuestionQuiz.java:88-91 | merging holds every added history, by question text |
| Engine.PoolForSnoc | QuizzingEngine.java:99-101 | one more tag list merges its histories into the pool and sorts it again |
| Engine.PoolForStepHas | QuizzingEngine.java:99-101 | one more tag list keeps every history the pool held and adds every history of the student with its tags |
| Engine.QuizzingEngine.Loaded | QuizzingEngine.java:40-70 | the engine holds its paths, student, question bank and mailer settings |
| Engine.QuizzingEngine.Load | QuizzingEngine.java:40-70 | the question bank, then the student, then the configuration; the first step that fails is the failure; otherwise the engine holds the decoded bank and the loaded student |
| Engine.QuizzingEngine.ReadConfig | QuizzingEngine.java:63-67 | the two configuration files must read; the three labels are looked up in them |
| Engine.QuizzingEngine.LoadBank | QuizzingEngine.java:45-57 | the outer loop over the index's categories gives fresh question objects holding the bank, or the first failure |
| Engine.QuizzingEngine.LoadCategory | QuizzingEngine.java:49-56 | the inner loop gives fresh question objects holding the category's questions, or its failure |
| Engine.QuizzingEngine.LoadLine | QuizzingEngine.java:52-55 | a static line gives a fresh question holding its decoding; an empty line or another type letter is the failure |
| Engine.QuizzingEngine.GetPercentMastered | QuizzingEngine.java:76-78 | the student's mean mastery as a rounded percentage |
| Engine.QuizzingEngine.GetAutoStaticQuiz | QuizzingEngine.java:86-88 | a fresh quiz whose pool is the tagged histories sorted by mastery |
| Engine.QuizzingEngine.GetAutoStaticQuizLists | QuizzingEngine.java:97-103 | an empty array is an index failure; otherwise a fresh quiz whose pool merges every list's histories, made by the last makeQuiz |
| Engine.QuizzingEngine.StartQuiz | QuizzingEngine.java:98 | the quiz on the first tag list |
| Engine.QuizzingEngine.MoreTagsLoop | QuizzingEngine.java:99-101 | moreTags with each later list leaves the pool of all the lists |
| Engine.QuizzingEngine.MoreTagsFrom | QuizzingEngine.java:100 | one moreTags extends the pool by the next list |
| Engine.QuizzingEngine.GetCustomStaticQuiz | QuizzingEngine.java:111-113 | an unreadable file is the failure; otherwise the custom selection of the file's lines |
| Engine.QuizzingEngine.GetAllTags | QuizzingEngine.java:147-158 | the tags of the questions, each kept the first time it is met |
| Engine.QuizzingEngine.AddAbsent | QuizzingEngine.java:150-153 | the inner loop adds each tag of one question unless already present |
| Engine.QuizzingEngine.GetHistory | QuizzingEngine.java:165-176 | the title line, then each tagged history's toString, titled by the question's toString as the program writes it, and a line break |
| Engine.QuizzingEngine.FillProgressTable | QuizzingEngine.java:193-204 | the fixed header, then one row per tag in order |
| Engine.QuizzingEngine.FillRow | QuizzingEngine.java:199-203 | the row of one tag: the tag, its truncated percentage, its bar |
| Engine.QuizzingEngine.ProgressReport | QuizzingEngine.java:190-205 | the laid-out table of every tag's progress, the tags those of getAllTags |
| Engine.TenthFloor | UserInterfaceUtilities.java:333 | the bar that the progress table draws for a whole percentage p, passed as p / 100.0 (QuizzingEngine.java:203), fills p / 10 of its ten places |
| FileUtilities.SpecialIndex | FileUtilities.java:198-205 | the position of a character among the six reserved ones, -1 exactly for any other |
| FileUtilities.TokenShape | FileUtilities.java:200-205 | every token is '@' and capitals, and no two share their second letter |
| FileUtilities.TokenAvoids | FileUtilities.java:200-205 | no token holds a reserved character, nor an '@' after its first |
| FileUtilities.EscapeByUnits | FileUtilities.java:198-207 | the six replacements in turn escape the text one character at a time |
| FileUtilities.RestoreByUnits | FileUtilities.java:214-222 | the six restoring replacements in turn undo that escaping, for text without '@' |
| FileUtilities.RestoreReplaceRoundTrip | FileUtilities.java:198-222 | restoreSpecialFileCharacters gives back what replaceSpecialFileCharacters was given, for text without '@' |
| FileUtilities.EscapedHasNoSpecial | FileUtilities.java:198-207 | escaped text holds no tab, newline, return, '*', '{' or '}' |
| FileUtilities.Literals | FileUtilities.java:200-205 | the reserved characters and tokens are those the replacement calls write |
| FileUtilities.MakePathCompliantComma | FileUtilities.java:229-262 | makePathCompliant turns "," into "@ATCOMMA": its "@COMMA" has its '@' escaped again |
| FileUtilities.UndoPathComplianceAtComma | FileUtilities.java:269-301 | undoPathComplianceReplacements turns "@ATCOMMA" into "@COMMA", not "," |
| FileUtilities.MakePathCompliantCollides | FileUtilities.java:243-251 | "[" and "{" become the same file name |
| FileUtilities.PathComplianceNotInvertible | FileUtilities.java:229-301 | undoing path compliance neither tells "[" from "{" nor gives back "," |
| FileUtilities.FindDataFromLabel | FileUtilities.java:161-171 | the data is the text from the first "LABEL: " to the next EOL and holds no EOL; no label gives none |
| FileUtilities.FindDataFromLabelFound | FileUtilities.java:161-171 | a line "LABEL: DATA" with no earlier label gives DATA |
| FileUtilities.FindDataFromLabelAt | FileUtilities.java:162-170 | once both searches succeed the data is the text between them |
| FileUtilities.FindDataFromLabelUnterminated | FileUtilities.java:165-168 | a label with no EOL after it gives none |
| FileUtilities.FindEncapsulation | FileUtilities.java:127-139 | none exactly when a marker is missing; otherwise the text from the BEGIN marker through the END marker, or an index error when the END marker ends before the BEGIN marker starts |
| FileUtilities.Payload | FileUtilities.java:106-117 | the payload of a block holds no EOL |
| FileUtilities.StripNewlines | FileUtilities.java:109-117 | the loop gives the formatted text with every EOL removed |
| FileUtilities.FromEncapsulation | FileUtilities.java:102-117 | the Base64 text of the first block with the header, or none, or the index error |
| FileUtilities.MadeBlock | FileUtilities.java:127-153 | the block found in a made text is all of it but its final newline |
| FileUtilities.MadePayload | FileUtilities.java:106-117 | the payload of a made block is its inner text without newlines |
| FileUtilities.EncapsulationRoundTrip | FileUtilities.java:102-153 | fromEncapsulation of makeEncapsulation gives the Base64 text back, its newlines removed |
| FileUtilities.StripComments | FileUtilities.java:319-325 | the result holds no '#' |
| FileUtilities.StripCommentsTerminates | FileUtilities.java:319-325 | removeComments ends exactly when every '#' has an EOL after it |
| FileUtilities.StripCommentsCut | FileUtilities.java:321-322 | one pass cuts the text from the first '#' through the next EOL |
| FileUtilities.StripCommentsUnclosed | FileUtilities.java:322 | a first '#' with no EOL after it makes the loop run forever |
| FileUtilities.StripCommentsPrefix | FileUtilities.java:319-325 | text before the first '#' is kept unchanged |
| FileUtilities.CommentRemoved | FileUtilities.java:319-325 | a comment from '#' through its EOL is removed and nothing else is |
| FileUtilities.RemoveComments | FileUtilities.java:319-325 | the loop gives the comment-free text, or runs forever |
| FileUtilities.TerminatedLinesNotBlank | FileUtilities.java:335-336 | non-empty lines each followed by EOL make text with no blank line |
| FileUtilities.BlankLinesRemovedShape | FileUtilities.java:332-338 | removeBlankLines leaves no empty line, ends every line with EOL, and keeps every other character in order |
| FileUtilities.BlankLinesRemovedIdempotent | FileUtilities.java:332-338 | removing blank lines twice is removing them once |
| FileUtilities.RemoveBlankLines | FileUtilities.java:332-338 | the loop gives the non-empty lines, each followed by EOL |
| FileUtilities.RemoveAnnotations | FileUtilities.java:308-312 | comments removed, then blank lines |
| FileUtilities.CleanTextProperties | FileUtilities.java:308-338 | cleaning ends exactly when every '#' has a later EOL; cleaned text has no '#' and no blank line, and cleaning it again changes nothing |
| FileUtilities.FromFileCleaned | FileUtilities.java:80-83 | the cleaned text of the file; a missing file is FileNotFound and an unclosed comment makes the read run forever |
| FileUtilities.AppendFile | FileUtilities.java:91-94 | the file is overwritten with its cleaned text followed by the new text, each character cut to a byte by writeBytes; a failed read changes nothing |
| FileUtilities.AppendWritten | FileUtilities.java:91-94 | appending to a file in the form fromFile returns keeps its cleaned text and adds the new text as the write keeps it |
| FileUtilities.WrittenChar | FileUtilities.java:48-72 | a character comes back from writeBytes and ByteToString unchanged exactly when it is ASCII or in U+FF80..U+FFFF, and always comes back as such a character |
| FileUtilities.WrittenKeeps | FileUtilities.java:48-72 | text comes back from a write unchanged exactly when it is in the form fromFile returns, and written text always comes back in that form |
| FileUtilities.WrittenAppend | FileUtilities.java:48-55 | writing byte by byte distributes over concatenation |
| FileUtilities.WrittenLosesAccent | FileUtilities.java:48-72 | "é" (U+00E9) is written as the byte 0xE9 and read back as U+FFE9 |
| FileUtilities.CleanTextKeepsByteForm | FileUtilities.java:308-312 | cleaning keeps text in the form fromFile returns |
| FileUtilities.StripCommentsAvoids | FileUtilities.java:319-325 | removing comments adds no character |
| FileUtilities.CleanAppendedLine | FileUtilities.java:91-94 | clean text followed by one more comment-free line reads back unchanged |
| FileUtilities.AppendKeepsReadable | FileUtilities.java:91-94 | a readable file stays readable after appending text that ends its line |
| UserInterface.SumInts | UserInterfaceUtilities.java:316-322 | the sum of the array's elements |
| UserInterface.SumStringLengths | UserInterfaceUtilities.java:303-309 | the sum of the strings' lengths |
| UserInterface.TotalLengthIsFlattened | UserInterfaceUtilities.java:303-309 | the lengths add up to the length of the strings joined |
| UserInterface.TotalUpdate | UserInterfaceUtilities.java:228 | narrowing one column by one lowers the sum by one |
| UserInterface.Widths | UserInterfaceUtilities.java:211-219 | one non-negative width per column of the first row |
| UserInterface.ColumnWidthIsMaximum | UserInterfaceUtilities.java:213-219 | every cell fits its column's width, and some cell fills it |
| UserInterface.MeasureColumns | UserInterfaceUtilities.java:211-219 | the measuring loop gives the longest cell of each column, or the index error of a row shorter than the first |
| UserInterface.MeasureRow | UserInterfaceUtilities.java:214-218 | each width grows to its cell's length and no further |
| UserInterface.Widest | UserInterfaceUtilities.java:222-226 | an index of the widths |
| UserInterface.WidestIsFirstMaximum | UserInterfaceUtilities.java:222-226 | the chosen column is the widest, and the first of the widest |
| UserInterface.FittedMeaning | UserInterfaceUtilities.java:221-229 | shrinking keeps the number of columns, widens none, leaves none negative, and ends at TABLE_WIDTH or the original sum if that was smaller |
| UserInterface.FitWidths | UserInterfaceUtilities.java:221-229 | the shrink loop leaves the fitted widths in the array |
| UserInterface.FitStep | UserInterfaceUtilities.java:222-228 | one step narrows a column that is wider than nothing and lowers the sum by one |
| UserInterface.WidestColumn | UserInterfaceUtilities.java:222-226 | the inner loop finds the first widest column |
| UserInterface.FittedPositive | UserInterfaceUtilities.java:221-229 | no column is narrowed to nothing when each starts with some width and there are at most TABLE_WIDTH columns |
| UserInterface.MakeProgressBar | UserInterfaceUtilities.java:330-341 | the bar: '[', the filled places as '=', the rest as spaces, ']' |
| UserInterface.AppendCopies | UserInterfaceUtilities.java:335-338 | each loop appends its count of one character, none for a negative count |
| UserInterface.ProgressBarShape | UserInterfaceUtilities.java:330-341 | for progress in [0, 1] the bar is insideLength + 2 characters, its filled part insideLength × progress cut to a whole number |
| UserInterface.ProgressBarClamped | UserInterfaceUtilities.java:331-332 | progress beyond 1 draws the full bar |
| UserInterface.Select | UserInterfaceUtilities.java:44-47 | the first option whose text matches ignoring case or whose number was typed; none when no option matches |
| UserInterface.FirstMatch | UserInterfaceUtilities.java:133-140 | an index of the options, when one matches |
| UserInterface.FirstMatchMeaning | UserInterfaceUtilities.java:133-140 | the first option that, spaces removed, matches ignoring case or by number; none when none does |
| UserInterface.MultipleSelections | UserInterfaceUtilities.java:125-146 | one index per comma-separated selection of the typed line |
| UserInterface.MatchAll | UserInterfaceUtilities.java:130-146 | one index per selection |
| UserInterface.MatchAllAccepts | UserInterfaceUtilities.java:129-146 | a typed line is accepted exactly when every selection matches some option |
| UserInterface.MatchAllEntry | UserInterfaceUtilities.java:133-140 | each selection is resolved to its first matching option |
| UserInterface.MatchAllStops | UserInterfaceUtilities.java:141-145 | a selection that matches nothing rejects the whole line |
| UserInterface.GetMultipleSelections | UserInterfaceUtilities.java:125-146 | the loop over one typed line gives the indices, or none so the user is asked again |
| UserInterface.FindOption | UserInterfaceUtilities.java:133-140 | the inner loop stops at the first matching option |
| UserInterface.RowsNeeded | UserInterfaceUtilities.java:256-266 | a line takes at least one row |
| UserInterface.RowsNeededCovers | UserInterfaceUtilities.java:256-266 | every cell's pieces fit in the corrected row count |
| UserInterface.RowsNeededLeast | UserInterfaceUtilities.java:256-266 | no smaller count of at least one row holds every cell's pieces |
| UserInterface.RowsNeededFits | UserInterfaceUtilities.java:269-278 | with the corrected count the fill loop fails only on text in a column of width zero |
| UserInterface.Pieces | UserInterfaceUtilities.java:269-286 | one cell of the map per item |
| UserInterface.CountRows | UserInterfaceUtilities.java:259-266 | the corrected row count, or the index error of more items than widths |
| UserInterface.FillColumn | UserInterfaceUtilities.java:270-277 | the pieces of one cell go down its column; it fails exactly when they run past the map |
| UserInterface.FillBlanks | UserInterfaceUtilities.java:281-286 | every place left empty gets the empty string and every other place is kept |
| UserInterface.FillMap | UserInterfaceUtilities.java:266-286 | a fresh map with each cell's piece r in row r, or failure exactly when the pieces do not fit |
| UserInterface.RowOfPieces | UserInterfaceUtilities.java:291-292 | a row of the filled map is the row of pieces |
| UserInterface.Render | UserInterfaceUtilities.java:289-295 | every map row through the template, or MissingFormatWidth for a column of width zero |
| UserInterface.FormatLineWithWrap | UserInterfaceUtilities.java:255-296 | the text of a table row with its cells wrapped over as many lines as its longest cell needs |
| UserInterface.Chunks | UserInterfaceUtilities.java:272-277 | one piece per started column width |
| UserInterface.ChunksRejoin | UserInterfaceUtilities.java:272-277 | the pieces of a cell spell it exactly, and each has between 1 and w characters |
| UserInterface.WrapAsWrittenAtMost | UserInterfaceUtilities.java:259-266 | the row count as written is never more than the cells need |
| UserInterface.AsWrittenAgrees | UserInterfaceUtilities.java:255-296 | where the row count as written works, it gives the corrected text |
| UserInterface.WrapCounterexample | UserInterfaceUtilities.java:259-278 | an eleven-character cell in a column five wide fails as written and takes three lines when corrected |
| UserInterface.LineWidth | UserInterfaceUtilities.java:231-235 | cells that fit their columns make a line as wide as the widths, the bars and the break |
| UserInterface.BlockWidth | UserInterfaceUtilities.java:291-293 | n rows of the map take n full lines |
| UserInterface.PiecesFit | UserInterfaceUtilities.java:272-275 | every piece of a row fits its column |
| UserInterface.OneLine | UserInterfaceUtilities.java:255-296 | cells that fit their columns are not wrapped: the row is a single line |
| UserInterface.TableWidths | UserInterfaceUtilities.java:211-229 | one non-negative width per column of the first row |
| UserInterface.Formatted | UserInterfaceUtilities.java:242-243 | one wrapped text per row |
| UserInterface.MakeTable | UserInterfaceUtilities.java:209-246 | the table text: the header row, a dash for every character of a line but its break, then every other row, or the error of the step that fails |
| UserInterface.LayOut | UserInterfaceUtilities.java:231-245 | the header, the dashes and the rows, with the fitted widths |
| UserInterface.AppendRows | UserInterfaceUtilities.java:242-243 | the last loop appends each row's text in order, stopping at the first that fails |
| UserInterface.RowsStop | UserInterfaceUtilities.java:242-243 | a row that fails fails the table |
| UserInterface.ConcatStopAt | UserInterfaceUtilities.java:242-243 | a text that fails fails the whole concatenation |
| UserInterface.RowsWidth | UserInterfaceUtilities.java:242-243 | the rows are whole lines of the table's width |
| UserInterface.TableShape | UserInterfaceUtilities.java:209-246 | a laid-out table has widths adding up to at most TABLE_WIDTH, a separator one line wide, and is a whole number of lines of that width |
| UserInterface.WrappedRowLength | UserInterfaceUtilities.java:255-296 | a wrapped row is as many lines as its longest cell needs |
| UserInterface.FormatLineSucceeds | UserInterfaceUtilities.java:255-296 | a row no longer than the widths, all positive, always formats |
| UserInterface.TableSucceeds | UserInterfaceUtilities.java:209-246 | a rectangular table of at most TABLE_WIDTH columns whose header cells are not empty always lays out |

## Left out

- File input and output (toFile, fromFile, FileInputStream, DataOutputStream) are not modelled as streams. A file is the text fromFile returns for it, in the `Files` map: one character per byte, widened with its sign (`FileUtilities.ByteForm`). A write replaces that text with what writeBytes keeps of the new text (`FileUtilities.Written`). Lemmas that read back a written file assume the file was in that form, as every file the program reads is. The raw bytes of the original files are not modelled. fileExists and pathExists are not modelled. Neither is QuizzingEngine.checkStudentExistence (QuizzingEngine.java:120-125), which only asks the file system.
- The clock (LocalDateTime.now, Duration.between) is the parameter `now` in whole seconds. Sub-second timestamps are not modelled.
- LocalDateTime.toString and LocalDateTime.parse are replaced by decimal seconds, ShowInt and ParseLong, with a proved round trip. The ISO-8601 text itself is not modelled.
- The random generator behind Collections.shuffle is replaced by a sequence of draws. The swap algorithm is kept, but Random's distribution is not modelled.
- Doubles are `real`. A 0/0 NaN is `None`. Rounding, overflow and the other IEEE-754 effects are not modelled.
- Integer casts of day counts and of `2 * wait` are unbounded integers. Java's 32-bit wrap-around past 2^31 days is not modelled.
- String.toLowerCase folds ASCII letters only. Locale-dependent and non-ASCII case folding are not modelled.
- Strings are sequences of UTF-16 code units. No platform charset is modelled.
- Histories.ReadAfterAddResponse: promises the read-back only when the response, after writeBytes, is non-empty and free of tabs, ends of line and '#'. The source loses data for the other responses. An empty response makes the history unloadable (`Histories.EmptyResponseBreaksHistory`). A '#' cuts the response on the next read (`Histories.CommentCutsResponse`). A tab cuts it at the tab (`AnswerRecords.DecodeKeepsFirstSegment`). A character from U+0080 on, other than U+FF80..U+FFFF, comes back changed (`FileUtilities.WrittenLosesAccent`). Scanner.nextLine never returns an end of line, so that case does not arise.
- Histories.LoadAfterAddResponse: requires the same of the response, on the file text before the write.
- Histories.MasteryAtMostOne: states the documented range [0,1] of getPercentMastered (QuestionHistory.java:35-39) only for histories without an answer dated after `now`. A correct answer dated ahead of the clock scores up to 2 (`Histories.MasteryOfFutureAnswer`). The source stamps every answer with LocalDateTime.now() when it is recorded, so such an answer needs a clock set back or an edited file. The source does not clamp, and neither does the model.
- Numerals.ParseLong: accepts ASCII digits only. Long.parseLong also accepts the other Unicode decimal digits. The program parses only numbers it wrote, which are ASCII.
- UserInterface.Line: the "%n" of the row template (UserInterfaceUtilities.java:235) is taken as "\n". On a platform whose line separator is "\r\n", String.format writes that instead, which is not modelled.
- ByteUtilities.ByteToBase64, Base64ToByte and StringToByte are not modelled (ByteUtilities.java:45-57, 77-79), because they call a platform library. FileUtilities.makeEncapsulation and fromEncapsulation are modelled on the Base64 text, without the decoding step.
- Mailer is not modelled: it is SMTP transport through a foreign mail library. So QuizzingEngine.sendFullHistoryReport and sendProgressReport are modelled only up to the text they would send (GetHistory and ProgressReport). The mailer settings are modelled only as the three looked-up labels.
- QuizzingEngine.isValid, isValidStaticQuiz, getClasses and getStudents are not modelled, because they walk directories and end the process.
- Driver and Initializer are not modelled, being console menus and directory bootstrapping.
- The Scanner and System.out parts of UserInterfaceUtilities are not modelled: the prompt loops of menu, getIntegerInput and getStringInput, and the display methods, yesOrNo and confirmOrCancel. Only one round of each selection rule is modelled (Select, GetMultipleSelections).
- Getters that only return a field, such as QuizzingEngine.getStudent and getQuestions and the Student getters, are field reads in the model.
- UserInterface.FormatLineWithWrap: requires every row to have at least as many cells as there are widths. makeTable's measuring loop already fails on a shorter row, so the missing-argument failure String.format would raise is not modelled.
- UserInterface.MeasureColumns: requires a non-empty table, which MakeTable checks before calling it.
- The progress table and other Java arrays of strings are sequences, because no code aliases them.

## Findings

| source | as written | input that shows it | evidently intended | confidence | as-written member | corrected member |
|---|---|---|---|---|---|---|
| StaticQuestionHistory.java:97 | the backward scan of getDaysSinceLastCorrect tests `i <= 0`, so it runs at most once | two correct answers given today: the loop does not run and the result is Integer.MAX_VALUE, so mastery is 0 | the age of the most recent correct answer, scanning from the end | high, not executed | Histories.StaticQuestionHistory.GetDaysSinceLastCorrectAsWritten, Histories.DaysSinceLastCorrectLoopSkips, Histories.MasteryAsWrittenVanishes | Histories.StaticQuestionHistory.GetDaysSinceLastCorrect, Histories.DaysSinceLastCorrectIsLatest |
| StaticQuestionHistory.java:139-151 | getPercentCorrect returns right / (right + wrong) | no answer in the last 7 days: 0/0 is NaN, where the doc comment promises 0 | 0 for an empty window | high, not executed | Histories.StaticQuestionHistory.GetPercentCorrectAsWritten, Histories.PercentCorrectEmptyWindow, Histories.MasteryAsWrittenUndefined | Histories.StaticQuestionHistory.GetPercentCorrect, Histories.PercentCorrectIsShare |
| StaticQuestion.java:56 | the case field, a String, is compared with the char 'y' | a question line whose case field is "y": it decodes with ignoreCapitalization false | "y" sets ignoreCapitalization | high, not executed | Questions.CaseFlagLostAsWritten | Questions.DecodeEncode |
| StaticQuestion.java:141-156 | toString writes an empty field for no ignored characters, and writes the implicit tags "Question" and "StaticQuestion" | a question with no ignored characters: the line does not decode; any question: the tags read back twice | a line the decoding constructor reads back as the same question | high, not executed | Questions.StaticQuestion.ToStringAsWritten, Questions.EncodeAsWrittenEmptyIgnoreFails, Questions.EncodeAsWrittenDuplicatesTags | Questions.DecodeEncode, Questions.StaticQuestion.ToString |
| StaticQuestionAnswerRecord.java:45-52 | the record line is split with stringSplit, which drops empty fields, and the response is fields[3] | the answer "" (getStringInput returns whatever nextLine reads, UserInterfaceUtilities.java:102-106): the line "ts\tsecs\tw\t" has three fields, so IndexOutOfBounds, and the history and its student no longer load | an empty response read back as "" | high, not executed | AnswerRecords.EmptyResponseFails, Histories.EmptyResponseBreaksHistory | AnswerRecords.DecodeKeepingEmptyEncode, AnswerRecords.DecodeKeepingEmptyAgrees |
| UserInterfaceUtilities.java:259-278 | the map gets length / (width + 1) + 1 rows, but a cell is cut into ceil(length / width) pieces | an eleven-character cell in a column five wide: 2 rows for 3 pieces, an index out of bounds | one map row per piece of the longest cell | high, not executed | UserInterface.WrapCounterexample, UserInterface.WrapAsWrittenAtMost | UserInterface.FormatLineWithWrap, UserInterface.RowsNeededCovers, UserInterface.ChunksRejoin |
