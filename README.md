# IT Passport study site — a verified model of its exam and progress core

This project models, in Dafny, the logic behind an IT Passport exam-practice
web application:

- **Exam engine** (`src/utils/examLogic.ts`):
  - a Fisher–Yates shuffle;
  - assembly of a 100-question mock exam with per-field quotas of 35/20/45;
  - the 1000-point score, overall and per field;
  - the two-part pass rule: total ≥ 600 and every field ≥ 300;
  - the accuracy percentage and the weak-field rule;
  - the study-time and exam-time text formats.
- **Store reducer** (`src/contexts/AppContext.tsx`). It folds answers, study sessions and mock-exam results into the application state. It is modelled by `AppContext.Reduce` and a `Store` object the pages dispatch to.
- **Mock-exam page** (`MockExam.tsx`): setup → in progress → completed, the answer map, the finish and time-up paths, and the answered/unanswered counts. It is modelled by the class `MockExamPage.MockExam`.
- **Study page** (`Study.tsx`): choosing a field, answering once per displayed question, navigation and ending the session. It is modelled by the class `StudyPage.Study`.
- **Countdown component** (`ExamTimer.tsx`): the once-a-second tick and the colour bands. It is modelled by the class `ExamTimerComponent.ExamTimer`.
- **Progress page** (`Progress.tsx`): best score, passed exams, pass rate, weak fields, recommendations, and the history table sorted newest first.

Modelling conventions:
- `Math.random()` becomes an oracle `rand: nat -> nat` read at a running draw counter. Draw `k` picks the index `rand(k) % (i + 1)`, so every index the source can pick can be picked in the model.
- Every clock read (`new Date()`, `Date.now()`) is an integer millisecond value passed in. The reducer's actions carry it as `now`.
- `Math.round(c / t * K)` on non-negative counts is modelled by exact rational rounding, the integer nearest to cK / t with halves rounded up (`JsMath.RoundRatio`). The source computes it in double precision, which can round a true half down (see "## Left out").
- `Math.floor` with a positive divisor is Dafny's `/`. JavaScript's truncating `%` is `JsMath.JsRem`.
- Each page's `useState` variables are the fields of a class and its handlers are methods. The store is the `AppContext.Store` object, which keeps a ghost log of every action dispatched. `Store.Valid()` ties the current state to the fold of that log from the initial state.

The model follows the code as written, including where it departs from what its names, comments or neighbouring code lead one to expect:
- The reducer never updates the per-field counters. `ADD_ANSWER` touches only the global counters, so per-field accuracy stays at its loaded value.
- `calculateScore` counts every answer flagged correct, whatever question id it names. Only the per-field scores ignore answers to questions outside the exam.
- `identifyWeakFields` reports a field with no answers as weak. The Progress page's own weak-field rule does not.
- The countdown has no one-shot guard: `onTimeUp` fires on every tick once the time has run out.

## Model

| member | source | states |
|---|---|---|
| ExamLogic.Quota | src/utils/examLogic.ts:9-13 | each field's quota is at most the exam length |
| ExamLogic.QuotasSumToTotal | src/utils/examLogic.ts:5-13 | the quotas 35 + 20 + 45 add up to the 100 exam questions |
| ExamLogic.OfField | src/utils/examLogic.ts:36-38 | the field filter keeps only questions of that field and never grows the list |
| ExamLogic.OfFieldMultiset | src/utils/examLogic.ts:36-38 | the filter keeps exactly the copies of that field's questions, each as often as in the input |
| ExamLogic.OfFieldAppend | src/utils/examLogic.ts:36-38 | filtering a concatenation is concatenating the filtered parts |
| ExamLogic.OfFieldPermutation | src/utils/examLogic.ts:36-38 | reordering a list reorders each field's filter, keeping its multiset and length |
| ExamLogic.OfFieldUniform | src/utils/examLogic.ts:36-38 | filtering a single-field list keeps all of it for that field and nothing for the others |
| ExamLogic.ReorderedOfField | src/pages/Study/Study.tsx:47-48 | any reordering of a field's questions holds only questions of that field |
| ExamLogic.PartitionByField | src/utils/examLogic.ts:35-39 | the three field filters split any question list: their multisets and lengths add up to the whole |
| ExamLogic.ShuffleQuestions | src/utils/examLogic.ts:24-31 | the result is a permutation of the input (same length and multiset), using one random draw per swap |
| ExamLogic.CreateMockExam | src/utils/examLogic.ts:34-53 | each field contributes exactly min(quota, available) questions; the exam has at most 100 questions and takes no catalog entry more often than it occurs |
| ExamLogic.CollectStep | src/utils/examLogic.ts:44-49 | one pass of the per-field loop extends the per-field counts and the drawn-from-catalog bound to one more field |
| ExamLogic.CollectMultiset | src/utils/examLogic.ts:44-49 | a prefix of a shuffled field list adds no catalog entry more often than it occurs |
| ExamLogic.CollectCounts | src/utils/examLogic.ts:44-49 | appending the chosen questions of one field sets that field's count and leaves the others |
| ExamLogic.SelectionOfField | src/utils/examLogic.ts:44-49 | questions drawn from one field's list all belong to that field |
| ExamLogic.CollectedAll | src/utils/examLogic.ts:51-52 | the final shuffle keeps every per-field count, the length and the catalog bound |
| ExamLogic.ExamIdsDistinct | src/utils/examLogic.ts:34-53 | drawn from a catalog with unique ids, the exam has no duplicate id |
| ExamLogic.NoDuplicates | src/utils/examLogic.ts:34-53 | in a catalog with unique ids every entry occurs exactly once |
| ExamLogic.CountCorrect | src/utils/examLogic.ts:57 | the number of answers flagged correct is at most the number of answers |
| ExamLogic.CountCorrectAppend | src/utils/examLogic.ts:57 | counting correct answers distributes over concatenation |
| ExamLogic.AnswersFor | src/utils/examLogic.ts:76-78 | the kept answers all name a question of the given list, every answer naming one of those questions is kept, and there are no more of them than answers |
| ExamLogic.CalculateScore | src/utils/examLogic.ts:56-64 | 0 for no questions, otherwise correct × 1000 / questions rounded half up |
| ExamLogic.ScoreInRange | src/utils/examLogic.ts:56-64 | the score lies in [0, 1000] when no more answers are correct than there are questions |
| ExamLogic.ScoreExtremes | src/utils/examLogic.ts:56-64 | no correct answer scores 0 and all questions correct scores 1000 |
| ExamLogic.ScoreCountsForeignAnswers | src/utils/examLogic.ts:57 | a correct answer to a question outside the exam still raises the correct count by one and never lowers the score |
| ExamLogic.CalculateFieldScores | src/utils/examLogic.ts:67-87 | each field is scored on its own questions and on the answers naming them; a field without questions scores 0 |
| ExamLogic.FieldScore | src/utils/examLogic.ts:75-83 | one field's score is calculateScore over that field's questions and the answers naming them, at most 1000 when no more of them are correct than there are questions |
| ExamLogic.FieldScoresIgnoreForeignAnswers | src/utils/examLogic.ts:74-78 | an answer to a question outside the exam changes no field score |
| ExamLogic.LowFieldFails | src/utils/examLogic.ts:90-98 | a single field below 300 fails the exam, whatever the total |
| ExamLogic.IsPassingScore | src/utils/examLogic.ts:90-98 | passes iff the total is at least 600 and each of the three field scores is at least 300 |
| ExamLogic.AbsentFieldFails | src/utils/examLogic.ts:80-84 | a field with no question in the exam scores 0 and so fails the exam |
| ExamLogic.CreateMockExamResult | src/utils/examLogic.ts:101-121 | id "exam-" + clock, date = clock, the computed scores, question count, correct count, the answers and time unchanged, passed iff the two-part rule holds |
| ExamLogic.PassedResultCoversEveryField | src/utils/examLogic.ts:106-108 | a passing result has a total of at least 600 and questions from every field |
| ExamLogic.CalculateAccuracy | src/utils/examLogic.ts:124-128 | 0 for no answers, otherwise correct × 100 / answers rounded half up, always within [0, 100] |
| ExamLogic.IdentifyWeakFields | src/utils/examLogic.ts:131-146 | a field is listed iff its accuracy is below 70; the list follows enum order |
| ExamLogic.WeakListMembers | src/utils/examLogic.ts:131-146 | the concatenated per-field singletons hold exactly the fields below 70%, in enum order |
| ExamLogic.UnansweredFieldsAreWeak | src/utils/examLogic.ts:134-138 | with no answers, or for a field the questions do not cover, the field is reported weak |
| ExamLogic.NoAnswersAllWeak | src/utils/examLogic.ts:131-146 | with no answers all three fields are reported, in enum order |
| ExamLogic.FormatStudyTime | src/utils/examLogic.ts:149-157 | the text always ends with the minute unit; from 60 minutes it is the decimal hours, "時間", the decimal minutes below 60 and "分"; below 60 it is the decimal minutes and "分" |
| ExamLogic.StudyTimeRoundTrip | src/utils/examLogic.ts:149-157 | for non-negative minutes the formatted text reads back to the original count; with the format pinned by FormatStudyTime this ties the two directions together |
| ExamLogic.ParseHoursAndMinutes | src/utils/examLogic.ts:154 | the "h時間m分" form reads back as 60h + m |
| ExamLogic.ParseMinutesOnly | src/utils/examLogic.ts:156 | the "m分" form reads back as m |
| ExamLogic.ExamTimeParts | src/utils/examLogic.ts:161-163 | for non-negative seconds, h·3600 + m·60 + s = seconds with m, s in [0, 60) |
| ExamLogic.FormatExamTime | src/utils/examLogic.ts:160-166 | for non-negative seconds the text is digits, ":", two digits, ":", two digits, whose fields are the hours, the minutes and the seconds of ExamTimeParts (minutes and seconds below 60, recombining to the input); below 100 hours it is exactly eight characters |
| ExamLogic.PaddedClockFields | src/utils/examLogic.ts:165 | padded parts joined by colons show those parts in their fields, eight characters wide below 100 hours |
| ExamLogic.JoinedClockFields | src/utils/examLogic.ts:165 | digit parts, minutes and seconds two wide, joined by colons sit in the hour, minute and second fields of the text |
| ExamLogic.ExamTimeRoundTrip | src/utils/examLogic.ts:160-166 | for non-negative seconds the "HH:MM:SS" text reads back to the original seconds; with the fields pinned by FormatExamTime this ties the two directions together |
| ExamLogic.ParseClock | src/utils/examLogic.ts:165 | digit parts joined by colons, minutes and seconds two characters wide, read back to their clock value |
| ExamLogic.ParsePaddedClock | src/utils/examLogic.ts:165 | padded parts with minutes and seconds below 60 read back to the time they denote |
| ExamLogic.PaddedPart | src/utils/examLogic.ts:165 | a padded number is all digits, at least two wide, exactly two below 100, and reads back to itself |
| ExamLogic.ParseClockParts | src/utils/examLogic.ts:165 | a text ending in ":MM:SS" after a digit prefix reads back as its clock value |
| JsMath.RoundHalfUp | src/pages/Study/Study.tsx:136 | Math.round of n / d: the integer nearest to n / d, halves rounded up |
| JsMath.RoundRatio | src/utils/examLogic.ts:63 | Math.round(c / t × K) for counts: the integer nearest to cK / t, halves rounded up |
| JsMath.RoundRatioAtMostScale | src/utils/examLogic.ts:63 | a ratio of at most 1 rounds to at most the scale |
| JsMath.RoundRatioMono | src/utils/examLogic.ts:63 | the rounded ratio grows with the count |
| JsMath.RoundRatioFull | src/utils/examLogic.ts:63 | a full count rounds to exactly the scale |
| JsMath.RoundRatioZero | src/utils/examLogic.ts:63 | a zero count rounds to 0 |
| JsMath.JsRem | src/utils/examLogic.ts:151 | JavaScript's remainder: Euclidean for non-negative dividends, in (−b, 0] for negative ones |
| Text.ParseNatToString | src/utils/examLogic.ts:154 | the decimal text of a natural number reads back to that number |
| Text.NatToString | src/utils/examLogic.ts:154 | Number.toString of a natural number: at least one digit, one digit iff below 10, at most two below 100 |
| Text.IntToString | src/utils/examLogic.ts:111 | the decimal text of an integer, with a leading minus sign when negative |
| Text.PadStart2 | src/utils/examLogic.ts:165 | padStart(2, '0'): the text is kept at the end and preceded by zeros up to width 2 |
| Text.PadStart2Digits | src/utils/examLogic.ts:165 | a padded decimal is all digits, reads back to the number, and is two wide below 100 |
| AppContext.InitialState | src/contexts/AppContext.tsx:23-61 | all counters 0, empty histories, no session, every field's progress zero, last studied = load time |
| AppContext.SessionMinutes | src/contexts/AppContext.tsx:98-100 | whole elapsed minutes, rounded down, of a started session; 0 without one |
| AppContext.Reduce | src/contexts/AppContext.tsx:63-133 | ADD_ANSWER appends the record and counts it (correct iff flagged) leaving the rest; START_SESSION replaces only the session; END_SESSION adds the elapsed minutes and clears it; ADD_MOCK_EXAM_RESULT appends only the result; LOAD_DATA overlays the supplied keys; RESET_DATA gives the initial state; anything else is unchanged; per-field progress changes only on LOAD_DATA or RESET_DATA |
| AppContext.Overlay | src/contexts/AppContext.tsx:121-124 | LOAD_DATA's spread: an empty payload leaves the state as it is; each of the four keys (study progress, answer history, results, current session) is replaced when supplied and kept when omitted |
| AppContext.OverlayTwice | src/contexts/AppContext.tsx:121-124 | loading the same payload twice gives the state of loading it once |
| AppContext.LatestResult | src/pages/MockExam/MockExam.tsx:69 | no latest result iff there are no results; otherwise it is the last result and one of them |
| AppContext.AddedResultIsLatest | src/contexts/AppContext.tsx:115-119 | after ADD_MOCK_EXAM_RESULT the last result is the one added |
| AppContext.RunAppend | src/contexts/AppContext.tsx:63-133 | dispatching a + b is dispatching a, then b |
| AppContext.RunSnoc | src/contexts/AppContext.tsx:63-133 | dispatching one more action is one more reducer step |
| AppContext.ReduceKeepsConsistent | src/contexts/AppContext.tsx:65-131 | every action except LOAD_DATA keeps answered = history length and correct = correct records in the history |
| AppContext.RunKeepsConsistent | src/contexts/AppContext.tsx:65-131 | any run without LOAD_DATA keeps the counters in step with the history, so correct ≤ answered |
| AppContext.InitialConsistent | src/contexts/AppContext.tsx:23-61 | the initial state's counters agree with its empty history |
| AppContext.FieldProgressNeverUpdated | src/contexts/AppContext.tsx:65-85 | without LOAD_DATA the per-field progress never leaves its all-zero value |
| AppContext.ResultsOnlyGrow | src/contexts/AppContext.tsx:65-119 | without LOAD_DATA or RESET_DATA earlier results and answers are never removed or reordered |
| AppContext.Store.constructor | src/contexts/AppContext.tsx:23-61 | the store starts in the initial state with nothing dispatched |
| AppContext.Store.Dispatch | src/contexts/AppContext.tsx:63-133 | the new state is the reducer applied to the old state; the action is logged |
| ExamTimerComponent.ColorBand | src/components/ExamTimer/ExamTimer.tsx:48-58 | red iff at most 600 s, yellow iff in (600, 1800], green iff above 1800 |
| ExamTimerComponent.ShowsUrgentMessage | src/components/ExamTimer/ExamTimer.tsx:87 | the urgent message shows only with time left and in the red band |
| ExamTimerComponent.UrgentMessageInRedBand | src/components/ExamTimer/ExamTimer.tsx:87 | the urgent message shows exactly in the red band, except at zero |
| ExamTimerComponent.NextRemaining | src/components/ExamTimer/ExamTimer.tsx:24-39 | one tick takes one second off and never goes below 0 |
| ExamTimerComponent.RemainingAfterClosedForm | src/components/ExamTimer/ExamTimer.tsx:23-44 | after n ticks max(r − n, 0) seconds are left |
| ExamTimerComponent.TimeUpsClosedForm | src/components/ExamTimer/ExamTimer.tsx:23-44 | n ticks from r call onTimeUp max(0, n − max(r − 1, 0)) times |
| ExamTimerComponent.TimeUpRepeats | src/components/ExamTimer/ExamTimer.tsx:31-34 | a 165-minute countdown first calls onTimeUp on tick 9900 and again on every later tick |
| ExamTimerComponent.ExamTimer.constructor | src/components/ExamTimer/ExamTimer.tsx:17-18 | the whole time is left and no warning is shown |
| ExamTimerComponent.ExamTimer.Tick | src/components/ExamTimer/ExamTimer.tsx:24-40 | warning iff the new time ≤ 1800; at or below 0 onTimeUp fires and the time is 0, otherwise onTimeChange gets the new, positive time; ticks only while running |
| MockExamPage.BuildAnswerRecords | src/pages/MockExam/MockExam.tsx:46-52 | one record per exam question, in exam order, with its id, the recorded choice (−1 if none), correct iff the choice is the right one |
| MockExamPage.Answered | src/pages/MockExam/MockExam.tsx:213 | the answered questions all have a recorded choice |
| MockExamPage.Unanswered | src/pages/MockExam/MockExam.tsx:165 | the unanswered questions have no recorded choice |
| MockExamPage.AnsweredSplit | src/pages/MockExam/MockExam.tsx:165 | answered and unanswered questions add up to the exam length |
| MockExamPage.AnsweredMatchesKeys | src/pages/MockExam/MockExam.tsx:164 | with unique ids, the answered questions are as many as the answer keys that are exam ids |
| MockExamPage.KeysStep | src/pages/MockExam/MockExam.tsx:164 | one more exam question with a new id adds one answered key iff it was answered |
| MockExamPage.AnsweredPlusUnanswered | src/pages/MockExam/MockExam.tsx:164-165 | the answered count and the unanswered list add up to the exam length when every key is an exam id |
| MockExamPage.CorrectOnlyIfAnswered | src/pages/MockExam/MockExam.tsx:48-49 | when correct answers are option indices (≥ 0), only answered questions can count as correct |
| MockExamPage.MockExam.constructor | src/pages/MockExam/MockExam.tsx:13-18 | the page starts in setup with no exam, answers, time or dialog |
| MockExamPage.MockExam.StartExam | src/pages/MockExam/MockExam.tsx:21-28 | a fresh exam with the per-field counts of createMockExam, first question, no answers, no time spent, in progress, a new 165-minute countdown |
| MockExamPage.MockExam.BeginExam | src/pages/MockExam/MockExam.tsx:23-27 | the state updates of startExam once the exam is drawn |
| MockExamPage.MockExam.HandleAnswer | src/pages/MockExam/MockExam.tsx:31-37 | only the current question's entry is set or overwritten; every other recorded choice, the exam, index, time, countdown and dialog flag are unchanged |
| MockExamPage.MockExam.GoToQuestion | src/pages/MockExam/MockExam.tsx:40-42 | the index becomes the one given; exam, answers, time, countdown and dialog flag are unchanged |
| MockExamPage.MockExam.Previous | src/pages/MockExam/MockExam.tsx:246 | the index becomes max(0, index − 1) and stays within the exam; nothing else changes |
| MockExamPage.MockExam.Next | src/pages/MockExam/MockExam.tsx:258 | the index becomes min(length − 1, index + 1) and stays within the exam; nothing else changes |
| MockExamPage.MockExam.RequestFinish | src/pages/MockExam/MockExam.tsx:190 | the confirmation dialog opens; exam, index, answers, time and countdown are unchanged |
| MockExamPage.MockExam.CancelFinish | src/pages/MockExam/MockExam.tsx:283 | the confirmation dialog closes; exam, index, answers, time and countdown are unchanged |
| MockExamPage.MockExam.FinishExam | src/pages/MockExam/MockExam.tsx:45-57 | the result is built from one record per exam question; exactly one ADD_MOCK_EXAM_RESULT is dispatched and becomes the latest result; the page completes with exam, answers, time, index and dialog flag kept |
| MockExamPage.MockExam.HandleTimeUp | src/pages/MockExam/MockExam.tsx:60-62 | time-up takes the finish path: the same result, one ADD_MOCK_EXAM_RESULT, which becomes the latest; the page completes with exam, answers, time, index and dialog flag kept |
| MockExamPage.MockExam.HandleTimeChange | src/pages/MockExam/MockExam.tsx:65-67 | the time spent is 165 × 60 minus the time left |
| MockExamPage.MockExam.OnTick | src/pages/MockExam/MockExam.tsx:183-187 | a tick either keeps the exam running with one more second spent, or finishes it once at most one second was left with the result finishExam builds from the exam, answers and time spent so far (the limit minus that last value); either way exam, answers, index and dialog flag are kept |
| MockExamPage.MockExam.Retake | src/pages/MockExam/MockExam.tsx:381 | the page returns to setup; exam, answers, index, time and dialog flag are kept and no countdown runs |
| MockExamPage.MockExam.AnswerCountsCoverExam | src/pages/MockExam/MockExam.tsx:164-165 | on a page with unique exam ids the header's count and the unanswered list cover the exam exactly |
| StudyPage.SessionAccuracy | src/pages/Study/Study.tsx:198 | 0 before any answer, otherwise correct × 100 / answered rounded half up, within [0, 100] |
| StudyPage.FieldCardAccuracy | src/pages/Study/Study.tsx:135-137 | 0 for a field without answers, otherwise its correct × 100 / answered rounded half up |
| StudyPage.FieldCardsShowZero | src/pages/Study/Study.tsx:134-137 | without loaded data every field card shows 0%, since no action updates the per-field counters |
| StudyPage.Study.constructor | src/pages/Study/Study.tsx:10-18 | the page starts with no field, no questions and zeroed statistics |
| StudyPage.Study.HandleFieldSelect | src/pages/Study/Study.tsx:45-57 | the questions are a shuffle of exactly the chosen field's catalog questions; index, selection, result and statistics reset; START_SESSION dispatched |
| StudyPage.Study.ShowField | src/pages/Study/Study.tsx:46-53 | the page-state updates of handleFieldSelect |
| StudyPage.Study.HandleAnswer | src/pages/Study/Study.tsx:60-86 | no-op while the result shows; otherwise one ADD_ANSWER, correct iff the choice is the right one, statistics +1 answered and +1 correct iff correct; at most one answer per display |
| StudyPage.Study.HandleNext | src/pages/Study/Study.tsx:89-95 | moves on, clearing selection and result, only before the last question |
| StudyPage.Study.HandlePrevious | src/pages/Study/Study.tsx:98-104 | moves back, clearing selection and result, only after the first question |
| StudyPage.Study.HandleEndSession | src/pages/Study/Study.tsx:107-115 | END_SESSION dispatched and all local study state reset |
| ProgressPage.BestScore | src/pages/Progress/Progress.tsx:12-14 | the maximum result score, reached by some result; 0 without results |
| ProgressPage.PassedExams | src/pages/Progress/Progress.tsx:15 | the count of passed results: 0 iff none passed, never above the number of results |
| ProgressPage.PassedExamsAppend | src/pages/Progress/Progress.tsx:15 | the count over a concatenation is the sum of the counts; an empty list counts 0 and a single result 1 iff it passed, so the count is the filter's length |
| ProgressPage.PassRate | src/pages/Progress/Progress.tsx:269 | passed × 100 / results rounded half up, 0 without results, at most 100 |
| ProgressPage.WeakFields | src/pages/Progress/Progress.tsx:42-44 | a field is listed iff it has answers and a stored accuracy below 70, in key order |
| ProgressPage.WeakListMembers | src/pages/Progress/Progress.tsx:42-44 | the filtered key list holds exactly the weak fields, in key order |
| ProgressPage.WeakFieldRulesDisagree | src/pages/Progress/Progress.tsx:42-44 | without loaded data the panel lists no field while identifyWeakFields with no answers lists all three |
| ProgressPage.NoWeakFieldsWithoutLoad | src/pages/Progress/Progress.tsx:42-44 | without loaded data the weak-field panel is empty |
| ProgressPage.Recommendations | src/pages/Progress/Progress.tsx:323-350 | "basics" iff answered < 50; "try a mock exam" iff no results and answered ≥ 20; "in range" iff accuracy ≥ 80 and none passed; "pass level" iff some passed |
| ProgressPage.PageRecommendations | src/pages/Progress/Progress.tsx:11 | the cards from the store: "basics" iff stored answered < 50; "try a mock exam" iff no results and answered ≥ 20; "in range" iff calculateAccuracy of the whole history ≥ 80 and none passed; "pass level" iff some passed |
| ProgressPage.FreshStoreRecommendsBasics | src/pages/Progress/Progress.tsx:323-350 | a freshly loaded store shows the "basics" card and no other |
| ProgressPage.RecommendationCases | src/pages/Progress/Progress.tsx:323-350 | "in range" and "pass level" never show together, nor "try a mock exam" and "pass level"; no card shows iff ≥ 50 answers, some results, none passed and accuracy < 80 |
| ProgressPage.SortByDate | src/pages/Progress/Progress.tsx:219-220 | the array is sorted by date in the given direction (newest first for the table, oldest first for the chart's sort in ProgressChart.tsx:73-75) and is a permutation of what it held |
| ProgressPage.SwapDown | src/pages/Progress/Progress.tsx:220 | one insertion step keeps the order outside the moving element and the contents |
| ProgressPage.InsertionDone | src/pages/Progress/Progress.tsx:220 | once the moving element has found its place the prefix is in order |
| ProgressPage.OldestFirstUnique | src/components/ProgressChart/ProgressChart.tsx:73-75 | results with strictly increasing dates have only one oldest-first order, their own |
| ProgressPage.RenderHistoryAsWritten | src/pages/Progress/Progress.tsx:122-220 | the table rows are newest first and the chart's points oldest first, both permutations of the results; the store's list is left in the chart's order without any action, and the list is unchanged whenever its dates already strictly increase |
| ProgressPage.RenderReordersResults | src/components/ProgressChart/ProgressChart.tsx:73-75 | two results stored newer first: after the render the store's list is swapped and its last result is the newer one, not the one added last |
| ProgressPage.RenderHistory | src/pages/Progress/Progress.tsx:193-220 | the rows newest first and the chart's points oldest first, both permutations of the results, built from copies so the store is untouched and stays valid |

## Left out

- Rendering: JSX markup, CSS classes, routing, the question card and the field charts are presentation only. The score-trend chart is not: its in-place sort is part of ProgressPage.RenderHistoryAsWritten. The chart's labels and points are not modelled, only the order it leaves behind.
- Persistence: the localStorage load and save effects and JSON (de)serialisation are browser I/O. Loaded data enters only as an arbitrary LOAD_DATA payload.
- Scheduling: `setInterval`, effect cleanup, StrictMode double effects and stale closures are not modelled. Each elapsed second is one explicit `ExamTimer.Tick`, and the countdown exists only while the exam is in progress, as it is only rendered then.
- Floating point: every `Math.round` of a ratio is computed exactly on integers. The timer's `progressPercentage`, the pie and page percentages and the "mm分ss秒" texts are display-only.
- Clock reads: `Date.now()` and `new Date()` in `createMockExamResult`, and the `timestamp: new Date()` that finishExam gives each answer record (src/pages/MockExam/MockExam.tsx:50), are one value `now` in MockExamPage.BuildAnswerRecords and ExamLogic.CreateMockExamResult. The source reads the clock once per record and twice more for the result; the model takes all these reads as one value.
- Dates: a result's date is an integer timestamp, so `new Date(b.date).getTime()` in the history sort is that integer.
- JsMath.RoundRatio: rounds the exact ratio, while the source rounds the double-precision product `c / t * K`. A ratio whose true product is exactly half an integer can land just below it in doubles, so the source rounds down where the model rounds up. For example, 23 of 40 gives 57.49999999999999 in doubles, so the source shows 57 and the model 58. The two can differ only when cK / t is exactly half an integer, and then by one.
- ExamLogic.CalculateAccuracy: inherits the JsMath.RoundRatio gap, so a displayed percentage can be one higher than the source's. Where the exact percentage is 69.5 or 79.5, the weak-field and "in range" decisions built on it can differ as well.
- StudyPage.SessionAccuracy: the same one-point gap in the displayed session accuracy.
- StudyPage.FieldCardAccuracy: the same one-point gap, through JsMath.RoundHalfUp.
- ProgressPage.PassRate: the same one-point gap in the displayed pass rate.
- ProgressPage.RenderHistoryAsWritten: when the results are not in date order, the in-place sorts change the store's list without a logged action, so afterwards `Store.Valid()` need not hold. Later actions in the program build on the reordered list; the model stops at the render. The corrected ProgressPage.RenderHistory changes nothing, so a valid store stays valid.
- ExamLogic.ShuffleQuestions: states the permutation, not the uniform distribution of Math.random-driven shuffles, which is probabilistic. The input is a Dafny sequence, so the source's copy-then-shuffle leaves it untouched by construction.
- ExamLogic.CreateMockExam: states the per-field counts and the catalog bound, not the randomness of the selection.
- ProgressPage.SortByDate: does not state stability for equal dates, which the ECMAScript sort guarantees. So the model does not pin the order that the page leaves among results with equal dates (the source leaves them in the order they were added), and ProgressPage.RenderHistoryAsWritten promises an unchanged list only when the dates strictly increase.
- MockExamPage.MockExam.GoToQuestion: like the source, it accepts any index. Only the previous and next buttons clamp, and the list buttons pass positions inside the exam.
- MockExamPage.MockExam.FinishExam: like the source, it leaves the confirmation flag set, so after finishing from the dialog a later exam starts with the dialog open. This is modelled, not corrected.
- MockExamPage.MockExam.OnTick: an exam that runs out on its own records 165 × 60 − 1 = 9899 seconds, the last value reported before expiry. This is modelled as written.
- A mock-exam result's time is in seconds, as the page computes and the history table displays it. The type declaration's comment calls it minutes.
- Performance details: a study-mode answer record's `timeSpent` is always 0, as in the source. The `StudyStats` type is unused by the core.

## Findings

| source | as written | input that shows it | evidently intended | confidence | as-written member | corrected member |
|---|---|---|---|---|---|---|
| src/pages/Progress/Progress.tsx:219-220 | the history table, and then the score-trend chart (src/components/ProgressChart/ProgressChart.tsx:73-75), call `.sort` directly on the store's `mockExamResults` array. Rendering the page therefore reorders shared state without a dispatch, leaving the list oldest first | results stored out of date order, newer first (the clock was set back between two exams): after the progress page renders, the store's list is swapped and its last element is no longer the result added last. Results whose dates strictly increase are left as they are | sort copies (`[...mockExamResults].sort(...)`) so that rendering leaves the store unchanged | not executed; medium | ProgressPage.RenderReordersResults | ProgressPage.RenderHistory |
