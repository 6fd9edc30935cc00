// The mock-exam page (src/pages/MockExam/MockExam.tsx): setup, answering,
// navigation, the countdown and the recorded result. The page's `useState`
// variables are the fields of `MockExam`; its handlers are the methods. The
// countdown component exists only while the exam is in progress, as it is
// only rendered then.
module MockExamPage {
  import opened Types
  import opened JsMath
  import ExamLogic
  import opened AppContext
  import opened ExamTimerComponent

  datatype ExamState = Setup | InProgress | Completed

  /** The exam time in seconds (165 minutes). */
  const TIME_LIMIT_SECONDS: int := ExamLogic.TIME_LIMIT_MINUTES * 60

  /** `answers[id] ?? -1`: the recorded choice, or -1 for an unanswered question. */
  function RecordedAnswer(answers: map<string, int>, id: string): int {
    if id in answers then answers[id] else -1
  }

  /** The record finishExam writes for one question. */
  function RecordFor(q: Question, answers: map<string, int>, now: int): AnswerRecord {
    var selected := RecordedAnswer(answers, q.id);
    AnswerRecord(q.id, selected, selected == q.correctAnswer, now, 0)
  }

  /** The records finishExam builds: one per exam question, in exam order. */
  function BuildAnswerRecords(questions: seq<Question>, answers: map<string, int>, now: int): (records: seq<AnswerRecord>)
    ensures |records| == |questions|
    ensures forall i :: 0 <= i < |questions| ==>
      && records[i].questionId == questions[i].id
      && records[i].selectedAnswer == RecordedAnswer(answers, questions[i].id)
      && (records[i].isCorrect <==> RecordedAnswer(answers, questions[i].id) == questions[i].correctAnswer)
  {
    if questions == [] then []
    else BuildAnswerRecords(questions[..|questions| - 1], answers, now) + [RecordFor(questions[|questions| - 1], answers, now)]
  }

  /** `questions.filter(q => q.id in answers)` */
  function Answered(qs: seq<Question>, answers: map<string, int>): (r: seq<Question>)
    ensures forall i :: 0 <= i < |r| ==> r[i].id in answers
  {
    if qs == [] then []
    else if qs[|qs| - 1].id in answers then Answered(qs[..|qs| - 1], answers) + [qs[|qs| - 1]]
    else Answered(qs[..|qs| - 1], answers)
  }

  /** `questions.filter(q => !(q.id in answers))`: the unanswered questions. */
  function Unanswered(qs: seq<Question>, answers: map<string, int>): (r: seq<Question>)
    ensures forall i :: 0 <= i < |r| ==> r[i].id !in answers
  {
    if qs == [] then []
    else if qs[|qs| - 1].id !in answers then Unanswered(qs[..|qs| - 1], answers) + [qs[|qs| - 1]]
    else Unanswered(qs[..|qs| - 1], answers)
  }

  function IdSet(qs: seq<Question>): set<string> {
    set i | 0 <= i < |qs| :: qs[i].id
  }

  lemma {:induction false} AnsweredSplit(qs: seq<Question>, answers: map<string, int>)
    ensures |Answered(qs, answers)| + |Unanswered(qs, answers)| == |qs|
    decreases |qs|
  {
    if qs != [] {
      AnsweredSplit(qs[..|qs| - 1], answers);
    }
  }

  lemma IdSetSnoc(init: seq<Question>, q: Question)
    ensures IdSet(init + [q]) == IdSet(init) + {q.id}
  {
    var qs := init + [q];
    forall id | id in IdSet(qs) ensures id in IdSet(init) + {q.id} {
      var i :| 0 <= i < |qs| && qs[i].id == id;
      if i < |init| {
        assert qs[i] == init[i];
        assert init[i].id in IdSet(init);
      }
    }
    forall id | id in IdSet(init) + {q.id} ensures id in IdSet(qs) {
      if id == q.id {
        assert qs[|init|].id in IdSet(qs);
      } else {
        var i :| 0 <= i < |init| && init[i].id == id;
        assert qs[i] == init[i];
        assert qs[i].id in IdSet(qs);
      }
    }
  }

  /** With unique ids, the answered questions are as many as the answer keys that are exam ids. */
  lemma {:induction false} AnsweredMatchesKeys(qs: seq<Question>, answers: map<string, int>)
    requires ExamLogic.DistinctIds(qs)
    ensures |Answered(qs, answers)| == |answers.Keys * IdSet(qs)|
    decreases |qs|
  {
    if qs == [] {
      assert IdSet(qs) == {};
    } else {
      var init, q := qs[..|qs| - 1], qs[|qs| - 1];
      assert qs == init + [q];
      DistinctIdsInit(qs);
      AnsweredMatchesKeys(init, answers);
      KeysStep(init, q, answers);
    }
  }

  /** Dropping the last question keeps the ids distinct, and its id is new. */
  lemma DistinctIdsInit(qs: seq<Question>)
    requires qs != [] && ExamLogic.DistinctIds(qs)
    ensures ExamLogic.DistinctIds(qs[..|qs| - 1])
    ensures qs[|qs| - 1].id !in IdSet(qs[..|qs| - 1])
  {
    var init := qs[..|qs| - 1];
    forall i | 0 <= i < |init| ensures init[i].id != qs[|qs| - 1].id {
      assert qs[i] == init[i];
    }
  }

  /** One more question with a new id adds one answered key iff it is answered. */
  lemma KeysStep(init: seq<Question>, q: Question, answers: map<string, int>)
    requires q.id !in IdSet(init)
    ensures |answers.Keys * IdSet(init + [q])| == |answers.Keys * IdSet(init)| + if q.id in answers then 1 else 0
  {
    IdSetSnoc(init, q);
    var before := answers.Keys * IdSet(init);
    if q.id in answers {
      assert answers.Keys * IdSet(init + [q]) == before + {q.id};
    } else {
      assert answers.Keys * IdSet(init + [q]) == before;
    }
  }

  /**
   * The header's answered count (`Object.keys(answers).length`) and the
   * unanswered list add up to the exam length whenever every answer key is
   * the id of an exam question and ids are unique.
   */
  lemma AnsweredPlusUnanswered(qs: seq<Question>, answers: map<string, int>)
    requires ExamLogic.DistinctIds(qs)
    requires forall id :: id in answers ==> ExamLogic.HasQuestionId(qs, id)
    ensures |answers| + |Unanswered(qs, answers)| == |qs|
  {
    AnsweredSplit(qs, answers);
    AnsweredMatchesKeys(qs, answers);
    assert answers.Keys * IdSet(qs) == answers.Keys by {
      forall id | id in answers ensures id in IdSet(qs) {
        var i :| 0 <= i < |qs| && qs[i].id == id;
      }
    }
  }

  /**
   * An unanswered question is recorded as -1, so when every correct answer is
   * a real option index (>= 0) only answered questions can count as correct.
   */
  lemma {:induction false} CorrectOnlyIfAnswered(qs: seq<Question>, answers: map<string, int>, now: int)
    requires forall i :: 0 <= i < |qs| ==> qs[i].correctAnswer >= 0
    ensures ExamLogic.CountCorrect(BuildAnswerRecords(qs, answers, now)) <= |Answered(qs, answers)|
    decreases |qs|
  {
    if qs != [] {
      var init := qs[..|qs| - 1];
      CorrectOnlyIfAnswered(init, answers, now);
      var records := BuildAnswerRecords(qs, answers, now);
      assert records[..|records| - 1] == BuildAnswerRecords(init, answers, now);
    }
  }

  class MockExam {
    const store: Store
    /** The bundled question catalog (questions.json). */
    const catalog: seq<Question>
    var examState: ExamState
    var questions: seq<Question>
    var currentQuestionIndex: int
    var answers: map<string, int>
    var timeSpent: int
    var showConfirmDialog: bool
    /** The mounted countdown, present exactly while the exam is in progress. */
    var timer: ExamTimer?
    /** Draws taken from the random oracle so far. */
    var draws: nat

    /**
     * The page's invariant: the store is consistent, the countdown is mounted
     * exactly while the exam is in progress, every answer key is an exam
     * question id, the exam comes from the catalog, and while the countdown
     * runs the time spent is the limit minus the time left.
     */
    ghost predicate Valid()
      reads this, store, timer
    {
      && Mounted()
      && (timer != null ==> timer.timeRemaining > 0 && timeSpent == TIME_LIMIT_SECONDS - timer.timeRemaining)
    }

    /** Valid() without the agreement between the time spent and the countdown. */
    ghost predicate Mounted()
      reads this, store, timer
    {
      && store.Valid()
      && (examState == InProgress <==> timer != null)
      && (timer != null ==> timer.isRunning && timer.totalTimeMinutes == ExamLogic.TIME_LIMIT_MINUTES)
      && (forall id :: id in answers ==> ExamLogic.HasQuestionId(questions, id))
      && multiset(questions) <= multiset(catalog)
    }

    constructor(store: Store, catalog: seq<Question>)
      requires store.Valid()
      ensures Valid()
      ensures this.store == store && this.catalog == catalog
      ensures examState == Setup && questions == [] && currentQuestionIndex == 0
      ensures answers == map[] && timeSpent == 0 && !showConfirmDialog && timer == null
    {
      this.store := store;
      this.catalog := catalog;
      examState := Setup;
      questions := [];
      currentQuestionIndex := 0;
      answers := map[];
      timeSpent := 0;
      showConfirmDialog := false;
      timer := null;
      draws := 0;
    }

    /**
     * startExam: a fresh exam from the catalog, first question, no answers,
     * no time spent, a new 165-minute countdown. The confirmation flag is
     * left as it was.
     */
    method StartExam(rand: nat -> nat)
      requires Valid() && examState == Setup
      modifies this
      ensures Valid()
      ensures examState == InProgress && currentQuestionIndex == 0 && answers == map[] && timeSpent == 0
      ensures forall f: ExamField :: |ExamLogic.OfField(questions, f)| == ExamLogic.Selected(catalog, f)
      ensures |questions| <= ExamLogic.TOTAL_QUESTIONS
      ensures multiset(questions) <= multiset(catalog)
      ensures ExamLogic.DistinctIds(catalog) ==> ExamLogic.DistinctIds(questions)
      ensures fresh(timer) && timer.timeRemaining == TIME_LIMIT_SECONDS && !timer.isWarning
      ensures showConfirmDialog == old(showConfirmDialog)
    {
      var exam, k := ExamLogic.CreateMockExam(catalog, rand, draws);
      if ExamLogic.DistinctIds(catalog) {
        ExamLogic.ExamIdsDistinct(catalog, exam);
      }
      draws := k;
      BeginExam(exam);
    }

    /** The state updates of startExam once the exam is drawn. */
    method BeginExam(exam: seq<Question>)
      requires Valid() && examState == Setup
      requires multiset(exam) <= multiset(catalog)
      modifies this
      ensures Valid()
      ensures questions == exam && examState == InProgress && currentQuestionIndex == 0
      ensures answers == map[] && timeSpent == 0
      ensures fresh(timer) && timer.timeRemaining == TIME_LIMIT_SECONDS && !timer.isWarning
      ensures showConfirmDialog == old(showConfirmDialog) && draws == old(draws)
    {
      questions := exam;
      currentQuestionIndex := 0;
      answers := map[];
      timeSpent := 0;
      examState := InProgress;
      timer := new ExamTimer(ExamLogic.TIME_LIMIT_MINUTES, true);
    }

    /** handleAnswer: records (or replaces) the choice for the current question only. */
    method HandleAnswer(answerIndex: int)
      requires Valid() && examState == InProgress
      requires 0 <= currentQuestionIndex < |questions|
      modifies this
      ensures Valid()
      ensures answers == old(answers)[old(questions[currentQuestionIndex]).id := answerIndex]
      ensures forall id :: id != old(questions[currentQuestionIndex]).id ==>
        RecordedAnswer(answers, id) == RecordedAnswer(old(answers), id)
      ensures examState == old(examState) && questions == old(questions) && timer == old(timer)
      ensures currentQuestionIndex == old(currentQuestionIndex) && timeSpent == old(timeSpent)
      ensures showConfirmDialog == old(showConfirmDialog) && draws == old(draws)
    {
      var current := questions[currentQuestionIndex];
      answers := answers[current.id := answerIndex];
    }

    /** goToQuestion: the question list buttons pass their own position. */
    method GoToQuestion(index: int)
      requires Valid()
      modifies this
      ensures Valid()
      ensures currentQuestionIndex == index
      ensures examState == old(examState) && questions == old(questions) && answers == old(answers)
      ensures timer == old(timer) && timeSpent == old(timeSpent)
      ensures showConfirmDialog == old(showConfirmDialog) && draws == old(draws)
    {
      currentQuestionIndex := index;
    }

    /** The "previous" button: goToQuestion(max(0, index - 1)). */
    method Previous()
      requires Valid()
      modifies this
      ensures Valid()
      ensures currentQuestionIndex == Max(0, old(currentQuestionIndex) - 1)
      ensures 0 <= old(currentQuestionIndex) < |questions| ==> 0 <= currentQuestionIndex < |questions|
      ensures examState == old(examState) && questions == old(questions) && answers == old(answers)
      ensures timer == old(timer) && timeSpent == old(timeSpent)
      ensures showConfirmDialog == old(showConfirmDialog) && draws == old(draws)
    {
      GoToQuestion(Max(0, currentQuestionIndex - 1));
    }

    /** The "next" button: goToQuestion(min(length - 1, index + 1)); -1 for an empty exam. */
    method Next()
      requires Valid()
      modifies this
      ensures Valid()
      ensures currentQuestionIndex == Min(|questions| - 1, old(currentQuestionIndex) + 1)
      ensures 0 <= old(currentQuestionIndex) < |questions| ==> 0 <= currentQuestionIndex < |questions|
      ensures examState == old(examState) && questions == old(questions) && answers == old(answers)
      ensures timer == old(timer) && timeSpent == old(timeSpent)
      ensures showConfirmDialog == old(showConfirmDialog) && draws == old(draws)
    {
      GoToQuestion(Min(|questions| - 1, currentQuestionIndex + 1));
    }

    /** The "finish" button opens the confirmation dialog. */
    method RequestFinish()
      requires Valid() && examState == InProgress
      modifies this
      ensures Valid() && showConfirmDialog
      ensures examState == old(examState) && answers == old(answers) && timer == old(timer)
      ensures questions == old(questions) && currentQuestionIndex == old(currentQuestionIndex)
      ensures timeSpent == old(timeSpent) && draws == old(draws)
    {
      showConfirmDialog := true;
    }

    /** The dialog's cancel button closes it. */
    method CancelFinish()
      requires Valid() && examState == InProgress
      modifies this
      ensures Valid() && !showConfirmDialog
      ensures examState == old(examState) && answers == old(answers) && timer == old(timer)
      ensures questions == old(questions) && currentQuestionIndex == old(currentQuestionIndex)
      ensures timeSpent == old(timeSpent) && draws == old(draws)
    {
      showConfirmDialog := false;
    }

    /**
     * finishExam: builds one record per exam question, scores them,
     * dispatches exactly one ADD_MOCK_EXAM_RESULT and shows the result
     * screen, whose latest result is the one just added. The countdown
     * unmounts. The confirmation flag is left as it was.
     */
    method FinishExam(now: int) returns (result: MockExamResult)
      requires Mounted() && examState == InProgress
      modifies this, store
      ensures Valid()
      ensures result == ExamLogic.CreateMockExamResult(BuildAnswerRecords(questions, answers, now), questions, timeSpent, now)
      ensures store.dispatched == old(store.dispatched) + [AddMockExamResult(result)]
      ensures store.state == old(store.state).(mockExamResults := old(store.state).mockExamResults + [result])
      ensures LatestResult(store.state.mockExamResults) == Some(result)
      ensures examState == Completed && timer == null
      ensures questions == old(questions) && answers == old(answers) && timeSpent == old(timeSpent)
      ensures showConfirmDialog == old(showConfirmDialog) && currentQuestionIndex == old(currentQuestionIndex)
      ensures draws == old(draws)
    {
      result := ExamLogic.CreateMockExamResult(BuildAnswerRecords(questions, answers, now), questions, timeSpent, now);
      Complete(result);
    }

    /** The ADD_MOCK_EXAM_RESULT dispatch of finishExam and the switch to the result screen. */
    method Complete(result: MockExamResult)
      requires Mounted() && examState == InProgress
      modifies this, store
      ensures Valid()
      ensures store.dispatched == old(store.dispatched) + [AddMockExamResult(result)]
      ensures store.state == old(store.state).(mockExamResults := old(store.state).mockExamResults + [result])
      ensures LatestResult(store.state.mockExamResults) == Some(result)
      ensures examState == Completed && timer == null
      ensures questions == old(questions) && answers == old(answers) && timeSpent == old(timeSpent)
      ensures showConfirmDialog == old(showConfirmDialog) && currentQuestionIndex == old(currentQuestionIndex)
      ensures draws == old(draws)
    {
      var exam, chosen, spent := questions, answers, timeSpent;
      var dialog, index, drawn := showConfirmDialog, currentQuestionIndex, draws;
      examState := Completed;
      timer := null;
      AddedResultIsLatest(store.state, result, store.loadedAt);
      store.Dispatch(AddMockExamResult(result));
      assert questions == exam && answers == chosen && timeSpent == spent;
      assert showConfirmDialog == dialog && currentQuestionIndex == index && draws == drawn;
    }

    /** handleTimeUp: the same path as finishing by hand. */
    method HandleTimeUp(now: int) returns (result: MockExamResult)
      requires Mounted() && examState == InProgress
      modifies this, store
      ensures Valid()
      ensures result == ExamLogic.CreateMockExamResult(BuildAnswerRecords(questions, answers, now), questions, timeSpent, now)
      ensures store.dispatched == old(store.dispatched) + [AddMockExamResult(result)]
      ensures examState == Completed && timer == null
      ensures store.state == old(store.state).(mockExamResults := old(store.state).mockExamResults + [result])
      ensures LatestResult(store.state.mockExamResults) == Some(result)
      ensures questions == old(questions) && answers == old(answers) && timeSpent == old(timeSpent)
      ensures showConfirmDialog == old(showConfirmDialog) && currentQuestionIndex == old(currentQuestionIndex)
      ensures draws == old(draws)
    {
      result := FinishExam(now);
    }

    /** handleTimeChange: the time spent is the limit minus the time left. */
    method HandleTimeChange(timeRemaining: int)
      modifies this
      ensures timeSpent == TIME_LIMIT_SECONDS - timeRemaining
      ensures examState == old(examState) && questions == old(questions) && answers == old(answers)
      ensures timer == old(timer) && currentQuestionIndex == old(currentQuestionIndex)
      ensures showConfirmDialog == old(showConfirmDialog) && draws == old(draws)
    {
      timeSpent := TIME_LIMIT_SECONDS - timeRemaining;
    }

    /**
     * One second of the countdown, with its callbacks routed to the page.
     * A tick that expires the time finishes the exam with the time spent as
     * last reported, which is the limit minus the time that was left before
     * the tick (9899 seconds when the countdown ran out on its own).
     */
    method OnTick(now: int) returns (finished: Option<MockExamResult>)
      requires Valid() && examState == InProgress
      modifies this, store, timer
      ensures Valid()
      ensures finished.None? ==>
        examState == InProgress && timer == old(timer) && store.dispatched == old(store.dispatched)
        && timeSpent == old(timeSpent) + 1
      ensures finished.Some? ==>
        && old(timer.timeRemaining) <= 1
        && examState == Completed
        && store.dispatched == old(store.dispatched) + [AddMockExamResult(finished.value)]
        && finished.value == ExamLogic.CreateMockExamResult(
             BuildAnswerRecords(old(questions), old(answers), now), old(questions), old(timeSpent), now)
        && finished.value.timeSpent == TIME_LIMIT_SECONDS - old(timer.timeRemaining)
        && LatestResult(store.state.mockExamResults) == Some(finished.value)
      ensures questions == old(questions) && answers == old(answers)
      ensures currentQuestionIndex == old(currentQuestionIndex) && showConfirmDialog == old(showConfirmDialog)
      ensures draws == old(draws)
    {
      var timeUp, changed := timer.Tick();
      if timeUp {
        var result := HandleTimeUp(now);
        finished := Some(result);
      } else {
        HandleTimeChange(changed.value);
        finished := None;
      }
    }

    /** The result screen's "retake" button returns to the setup screen. */
    method Retake()
      requires Valid() && examState == Completed
      modifies this
      ensures Valid() && examState == Setup
      ensures questions == old(questions) && answers == old(answers) && showConfirmDialog == old(showConfirmDialog)
      ensures currentQuestionIndex == old(currentQuestionIndex) && timeSpent == old(timeSpent)
      ensures timer == null && draws == old(draws)
    {
      examState := Setup;
    }

    /** The header's answered count and the unanswered list cover the exam exactly. */
    lemma AnswerCountsCoverExam()
      requires Valid() && ExamLogic.DistinctIds(questions)
      ensures |answers| + |Unanswered(questions, answers)| == |questions|
    {
      AnsweredPlusUnanswered(questions, answers);
    }
  }
}
