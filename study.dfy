// The field-by-field study page (src/pages/Study/Study.tsx): choosing a
// field, answering one question at a time, moving between questions and
// ending the session. The page's `useState` variables are the fields of
// `Study`; its handlers are the methods.
module StudyPage {
  import opened Types
  import opened JsMath
  import ExamLogic
  import opened AppContext

  datatype SessionStats = SessionStats(answered: int, correct: int)

  /** The session's accuracy as displayed: rounded percentage, 0 before any answer. */
  function SessionAccuracy(stats: SessionStats): (acc: int)
    requires 0 <= stats.correct <= stats.answered
    ensures 0 <= acc <= 100
    ensures stats.answered == 0 ==> acc == 0
    ensures stats.answered > 0 ==>
      2 * stats.answered * acc <= 2 * stats.correct * 100 + stats.answered < 2 * stats.answered * acc + 2 * stats.answered
  {
    if stats.answered > 0 then
      RoundRatioAtMostScale(stats.correct, stats.answered, 100);
      RoundRatio(stats.correct, stats.answered, 100)
    else 0
  }

  /** A field card's accuracy, from that field's stored counters; 0 when it has none. */
  function FieldCardAccuracy(fp: FieldProgress): (acc: int)
    ensures fp.answeredQuestions <= 0 ==> acc == 0
    ensures fp.answeredQuestions > 0 ==>
      2 * fp.answeredQuestions * acc <= 2 * fp.correctAnswers * 100 + fp.answeredQuestions
      < 2 * fp.answeredQuestions * acc + 2 * fp.answeredQuestions
  {
    if fp.answeredQuestions > 0 then RoundHalfUp(fp.correctAnswers * 100, fp.answeredQuestions) else 0
  }

  /**
   * As no reducer action updates the per-field counters, every field card
   * shows 0% for as long as nothing has been loaded from storage.
   */
  lemma FieldCardsShowZero(actions: seq<Action>, loadedAt: int, f: ExamField)
    requires NoLoad(actions)
    ensures FieldCardAccuracy(Run(InitialState(loadedAt), actions, loadedAt).studyProgress.fieldProgress.Get(f)) == 0
  {
    FieldProgressNeverUpdated(InitialState(loadedAt), actions, loadedAt);
  }

  class Study {
    const store: Store
    /** The bundled question catalog (questions.json). */
    const catalog: seq<Question>
    var selectedField: Option<ExamField>
    var currentQuestionIndex: int
    var questions: seq<Question>
    var selectedAnswer: Option<int>
    var showResult: bool
    var sessionStats: SessionStats
    /** Draws taken from the random oracle so far. */
    var draws: nat
    /** ADD_ANSWER actions dispatched since the current question was last displayed afresh. */
    ghost var answersThisDisplay: nat

    /**
     * The page's invariant: the store is consistent; the session counts
     * satisfy 0 <= correct <= answered; the index stays inside the question
     * list (0 when it is empty); without a field there are no questions and
     * nothing to show; with a field the list is that field's catalog
     * questions; and an answer is dispatched at most once per display,
     * exactly when its result is showing.
     */
    ghost predicate Valid()
      reads this, store
    {
      && store.Valid()
      && 0 <= sessionStats.correct <= sessionStats.answered
      && 0 <= currentQuestionIndex < Max(1, |questions|)
      && (selectedField.None? ==>
            questions == [] && selectedAnswer.None? && !showResult && sessionStats == SessionStats(0, 0))
      && (selectedField.Some? ==> multiset(questions) == multiset(ExamLogic.OfField(catalog, selectedField.value)))
      && answersThisDisplay <= 1
      && (showResult <==> answersThisDisplay == 1)
    }

    constructor(store: Store, catalog: seq<Question>)
      requires store.Valid()
      ensures Valid()
      ensures this.store == store && this.catalog == catalog
      ensures selectedField == None && questions == [] && currentQuestionIndex == 0
      ensures selectedAnswer == None && !showResult && sessionStats == SessionStats(0, 0)
    {
      this.store := store;
      this.catalog := catalog;
      selectedField := None;
      currentQuestionIndex := 0;
      questions := [];
      selectedAnswer := None;
      showResult := false;
      sessionStats := SessionStats(0, 0);
      draws := 0;
      answersThisDisplay := 0;
    }

    /**
     * handleFieldSelect: the field's catalog questions, shuffled; first
     * question, no selection, no result, zeroed session counts; then
     * START_SESSION is dispatched.
     */
    method HandleFieldSelect(field: ExamField, rand: nat -> nat, now: int)
      requires Valid()
      modifies this, store
      ensures Valid()
      ensures selectedField == Some(field)
      ensures multiset(questions) == multiset(ExamLogic.OfField(catalog, field))
      ensures forall i :: 0 <= i < |questions| ==> questions[i].field == field
      ensures currentQuestionIndex == 0 && selectedAnswer == None && !showResult
      ensures sessionStats == SessionStats(0, 0)
      ensures store.dispatched == old(store.dispatched) + [StartSession(field, now)]
    {
      var shuffled, k := ExamLogic.ShuffleQuestions(ExamLogic.OfField(catalog, field), rand, draws);
      ExamLogic.ReorderedOfField(catalog, field, shuffled);
      store.Dispatch(StartSession(field, now));
      draws := k;
      ShowField(field, shuffled);
    }

    /** The page-state updates of handleFieldSelect once the field's questions are shuffled. */
    method ShowField(field: ExamField, shuffled: seq<Question>)
      requires Valid()
      requires multiset(shuffled) == multiset(ExamLogic.OfField(catalog, field))
      modifies this
      ensures Valid()
      ensures selectedField == Some(field) && questions == shuffled
      ensures currentQuestionIndex == 0 && selectedAnswer == None && !showResult
      ensures sessionStats == SessionStats(0, 0) && draws == old(draws)
    {
      selectedField := Some(field);
      questions := shuffled;
      currentQuestionIndex := 0;
      selectedAnswer := None;
      showResult := false;
      sessionStats := SessionStats(0, 0);
      answersThisDisplay := 0;
    }

    /**
     * handleAnswer: ignored while the result is showing. Otherwise the choice
     * is kept, one ADD_ANSWER whose record is correct iff the choice is the
     * question's answer is dispatched, the session counts grow by one answer
     * (and one correct answer iff correct), and the result is shown.
     */
    method HandleAnswer(answerIndex: int, now: int)
      requires Valid() && selectedField.Some?
      requires 0 <= currentQuestionIndex < |questions|
      modifies this, store
      ensures Valid()
      ensures old(showResult) ==>
        && store.dispatched == old(store.dispatched)
        && selectedAnswer == old(selectedAnswer) && sessionStats == old(sessionStats) && showResult
      ensures !old(showResult) ==>
        var q := old(questions[currentQuestionIndex]);
        && store.dispatched == old(store.dispatched)
             + [AddAnswer(AnswerRecord(q.id, answerIndex, answerIndex == q.correctAnswer, now, 0), now)]
        && selectedAnswer == Some(answerIndex)
        && sessionStats.answered == old(sessionStats.answered) + 1
        && sessionStats.correct == old(sessionStats.correct) + (if answerIndex == q.correctAnswer then 1 else 0)
        && showResult
      ensures questions == old(questions) && currentQuestionIndex == old(currentQuestionIndex)
      ensures selectedField == old(selectedField)
    {
      if showResult {
        return;
      }
      selectedAnswer := Some(answerIndex);
      var current := questions[currentQuestionIndex];
      var isCorrect := answerIndex == current.correctAnswer;
      var record := AnswerRecord(current.id, answerIndex, isCorrect, now, 0);
      store.Dispatch(AddAnswer(record, now));
      sessionStats := SessionStats(sessionStats.answered + 1, sessionStats.correct + if isCorrect then 1 else 0);
      showResult := true;
      answersThisDisplay := answersThisDisplay + 1;
    }

    /** handleNext: moves on (clearing selection and result) only when not at the last question. */
    method HandleNext()
      requires Valid()
      modifies this
      ensures Valid()
      ensures old(currentQuestionIndex) < |questions| - 1 ==>
        currentQuestionIndex == old(currentQuestionIndex) + 1 && selectedAnswer == None && !showResult
      ensures old(currentQuestionIndex) >= |questions| - 1 ==>
        currentQuestionIndex == old(currentQuestionIndex) && selectedAnswer == old(selectedAnswer)
        && showResult == old(showResult)
      ensures questions == old(questions) && sessionStats == old(sessionStats) && selectedField == old(selectedField)
    {
      if currentQuestionIndex < |questions| - 1 {
        currentQuestionIndex := currentQuestionIndex + 1;
        selectedAnswer := None;
        showResult := false;
        answersThisDisplay := 0;
      }
    }

    /** handlePrevious: moves back (clearing selection and result) only when not at the first question. */
    method HandlePrevious()
      requires Valid()
      modifies this
      ensures Valid()
      ensures old(currentQuestionIndex) > 0 ==>
        currentQuestionIndex == old(currentQuestionIndex) - 1 && selectedAnswer == None && !showResult
      ensures old(currentQuestionIndex) <= 0 ==>
        currentQuestionIndex == old(currentQuestionIndex) && selectedAnswer == old(selectedAnswer)
        && showResult == old(showResult)
      ensures questions == old(questions) && sessionStats == old(sessionStats) && selectedField == old(selectedField)
    {
      if currentQuestionIndex > 0 {
        currentQuestionIndex := currentQuestionIndex - 1;
        selectedAnswer := None;
        showResult := false;
        answersThisDisplay := 0;
      }
    }

    /** handleEndSession: END_SESSION is dispatched and the page returns to field selection. */
    method HandleEndSession(now: int)
      requires Valid()
      modifies this, store
      ensures Valid()
      ensures store.dispatched == old(store.dispatched) + [EndSession(now)]
      ensures selectedField == None && questions == [] && currentQuestionIndex == 0
      ensures selectedAnswer == None && !showResult && sessionStats == SessionStats(0, 0)
    {
      store.Dispatch(EndSession(now));
      selectedField := None;
      questions := [];
      currentQuestionIndex := 0;
      selectedAnswer := None;
      showResult := false;
      sessionStats := SessionStats(0, 0);
      answersThisDisplay := 0;
    }
  }
}
