// The application-wide store (src/contexts/AppContext.tsx): the state shape,
// the actions, the initial state and the reducer, plus the store object that
// the pages dispatch to. Clock reads (`new Date()`) inside the reducer are the
// `now` carried by the action; the initial state's `lastStudied` is the time
// the module was loaded, `loadedAt`.
module AppContext {
  import opened Types
  import ExamLogic

  datatype Session = Session(startTime: Option<int>, field: Option<ExamField>, questionsAnswered: int)

  datatype AppState = AppState(
    studyProgress: StudyProgress,
    answerHistory: seq<AnswerRecord>,
    mockExamResults: seq<MockExamResult>,
    currentSession: Session)

  /** `Partial<AppState>`: the top-level keys a LOAD_DATA payload may carry. */
  datatype PartialState = PartialState(
    studyProgress: Option<StudyProgress>,
    answerHistory: Option<seq<AnswerRecord>>,
    mockExamResults: Option<seq<MockExamResult>>,
    currentSession: Option<Session>)

  /** The actions; `Other` stands for any object whose `type` none of the cases names. */
  datatype Action =
    | AddAnswer(record: AnswerRecord, now: int)
    | StartSession(field: ExamField, now: int)
    | EndSession(now: int)
    | AddMockExamResult(result: MockExamResult)
    | LoadData(payload: PartialState)
    | ResetData
    | Other

  const ZeroFieldProgress := FieldProgress(0, 0, 0, 0, [])

  const NoSession := Session(None, None, 0)

  function InitialState(loadedAt: int): (s: AppState)
    ensures s.answerHistory == [] && s.mockExamResults == [] && s.currentSession == NoSession
    ensures s.studyProgress.answeredQuestions == 0 && s.studyProgress.correctAnswers == 0
    ensures s.studyProgress.totalQuestions == 0 && s.studyProgress.studyTime == 0
    ensures forall f: ExamField :: s.studyProgress.fieldProgress.Get(f) == ZeroFieldProgress
    ensures s.studyProgress.lastStudied == loadedAt
  {
    AppState(
      StudyProgress(0, 0, 0, FieldTable(ZeroFieldProgress, ZeroFieldProgress, ZeroFieldProgress), 0, loadedAt),
      [], [], NoSession)
  }

  /** Whole minutes of a session, rounded down; 0 when no session was started. */
  function SessionMinutes(session: Session, now: int): (minutes: int)
    ensures session.startTime.None? ==> minutes == 0
    ensures session.startTime.Some? ==>
      60000 * minutes <= now - session.startTime.value < 60000 * minutes + 60000
  {
    match session.startTime
    case None => 0
    case Some(start) => (now - start) / 60000   // Math.floor: the divisor is positive
  }

  /** `{ ...state, ...payload }` restricted to the keys the payload supplies. */
  function Overlay(s: AppState, p: PartialState): (r: AppState)
    ensures p == PartialState(None, None, None, None) ==> r == s
    ensures p.studyProgress.Some? ==> r.studyProgress == p.studyProgress.value
    ensures p.studyProgress.None? ==> r.studyProgress == s.studyProgress
    ensures p.currentSession.Some? ==> r.currentSession == p.currentSession.value
    ensures p.currentSession.None? ==> r.currentSession == s.currentSession
    ensures p.answerHistory.Some? ==> r.answerHistory == p.answerHistory.value
    ensures p.answerHistory.None? ==> r.answerHistory == s.answerHistory
    ensures p.mockExamResults.Some? ==> r.mockExamResults == p.mockExamResults.value
    ensures p.mockExamResults.None? ==> r.mockExamResults == s.mockExamResults
  {
    AppState(
      if p.studyProgress.Some? then p.studyProgress.value else s.studyProgress,
      if p.answerHistory.Some? then p.answerHistory.value else s.answerHistory,
      if p.mockExamResults.Some? then p.mockExamResults.value else s.mockExamResults,
      if p.currentSession.Some? then p.currentSession.value else s.currentSession)
  }

  /** Loading the same saved payload twice gives the state of loading it once. */
  lemma OverlayTwice(s: AppState, p: PartialState)
    ensures Overlay(Overlay(s, p), p) == Overlay(s, p)
  {
  }

  /** appReducer. */
  function Reduce(s: AppState, a: Action, loadedAt: int): (r: AppState)
    // ADD_ANSWER: append the record, count it (and count it correct iff it is), stamp lastStudied
    ensures a.AddAnswer? ==>
      && r.answerHistory == s.answerHistory + [a.record]
      && r.studyProgress.answeredQuestions == s.studyProgress.answeredQuestions + 1
      && r.studyProgress.correctAnswers == s.studyProgress.correctAnswers + (if a.record.isCorrect then 1 else 0)
      && r.studyProgress.lastStudied == a.now
      && r.currentSession.questionsAnswered == s.currentSession.questionsAnswered + 1
      && r.currentSession.startTime == s.currentSession.startTime
      && r.currentSession.field == s.currentSession.field
      && r.studyProgress.fieldProgress == s.studyProgress.fieldProgress
      && r.studyProgress.totalQuestions == s.studyProgress.totalQuestions
      && r.studyProgress.studyTime == s.studyProgress.studyTime
      && r.mockExamResults == s.mockExamResults
    // START_SESSION: a fresh session for the field, nothing else touched
    ensures a.StartSession? ==>
      r == s.(currentSession := Session(Some(a.now), Some(a.field), 0))
    // END_SESSION: credit the elapsed whole minutes and clear the session
    ensures a.EndSession? ==>
      && r.studyProgress == s.studyProgress.(studyTime := s.studyProgress.studyTime + SessionMinutes(s.currentSession, a.now))
      && r.currentSession == NoSession
      && r.answerHistory == s.answerHistory && r.mockExamResults == s.mockExamResults
    // ADD_MOCK_EXAM_RESULT: append to the results, nothing else touched
    ensures a.AddMockExamResult? ==>
      r == s.(mockExamResults := s.mockExamResults + [a.result])
    ensures a.LoadData? ==> r == Overlay(s, a.payload)
    ensures a.ResetData? ==> r == InitialState(loadedAt)
    ensures a.Other? ==> r == s
    // only loading or resetting replaces per-field progress
    ensures !a.LoadData? && !a.ResetData? ==> r.studyProgress.fieldProgress == s.studyProgress.fieldProgress
  {
    match a
    case AddAnswer(record, now) =>
      var p := s.studyProgress;
      var progress := p.(
        answeredQuestions := p.answeredQuestions + 1,
        correctAnswers := if record.isCorrect then p.correctAnswers + 1 else p.correctAnswers,
        lastStudied := now);
      s.(
        answerHistory := s.answerHistory + [record],
        studyProgress := progress,
        currentSession := s.currentSession.(questionsAnswered := s.currentSession.questionsAnswered + 1))
    case StartSession(field, now) =>
      s.(currentSession := Session(Some(now), Some(field), 0))
    case EndSession(now) =>
      s.(
        studyProgress := s.studyProgress.(studyTime := s.studyProgress.studyTime + SessionMinutes(s.currentSession, now)),
        currentSession := NoSession)
    case AddMockExamResult(result) =>
      s.(mockExamResults := s.mockExamResults + [result])
    case LoadData(payload) => Overlay(s, payload)
    case ResetData => InitialState(loadedAt)
    case Other => s
  }

  /** The most recent exam result (the last one added), which the mock-exam page shows. */
  function LatestResult(results: seq<MockExamResult>): (latest: Option<MockExamResult>)
    ensures latest.None? <==> results == []
    ensures latest.Some? ==> latest.value in results && latest.value == results[|results| - 1]
  {
    if results == [] then None else Some(results[|results| - 1])
  }

  /** After ADD_MOCK_EXAM_RESULT the latest result is the one just added. */
  lemma AddedResultIsLatest(s: AppState, r: MockExamResult, loadedAt: int)
    ensures Reduce(s, AddMockExamResult(r), loadedAt) == s.(mockExamResults := s.mockExamResults + [r])
    ensures LatestResult(Reduce(s, AddMockExamResult(r), loadedAt).mockExamResults) == Some(r)
  {
    assert Reduce(s, AddMockExamResult(r), loadedAt).mockExamResults == s.mockExamResults + [r];
  }

  /** Dispatching a sequence of actions in order. */
  function Run(s: AppState, actions: seq<Action>, loadedAt: int): AppState
    decreases |actions|
  {
    if actions == [] then s else Run(Reduce(s, actions[0], loadedAt), actions[1..], loadedAt)
  }

  lemma {:induction false} RunAppend(s: AppState, a: seq<Action>, b: seq<Action>, loadedAt: int)
    ensures Run(s, a + b, loadedAt) == Run(Run(s, a, loadedAt), b, loadedAt)
    decreases |a|
  {
    if a != [] {
      assert (a + b)[1..] == a[1..] + b;
      RunAppend(Reduce(s, a[0], loadedAt), a[1..], b, loadedAt);
    } else {
      assert a + b == b;
    }
  }

  /** Dispatching one more action is one more reducer step. */
  lemma RunSnoc(s: AppState, a: seq<Action>, x: Action, loadedAt: int)
    ensures Run(s, a + [x], loadedAt) == Reduce(Run(s, a, loadedAt), x, loadedAt)
  {
    RunAppend(s, a, [x], loadedAt);
  }

  /** The aggregate counters agree with the answer history. */
  predicate Consistent(s: AppState) {
    && s.studyProgress.answeredQuestions == |s.answerHistory|
    && s.studyProgress.correctAnswers == ExamLogic.CountCorrect(s.answerHistory)
  }

  predicate NoLoad(actions: seq<Action>) {
    forall i :: 0 <= i < |actions| ==> !actions[i].LoadData?
  }

  /** Every action except LOAD_DATA keeps the counters in step with the history. */
  lemma ReduceKeepsConsistent(s: AppState, a: Action, loadedAt: int)
    requires Consistent(s) && !a.LoadData?
    ensures Consistent(Reduce(s, a, loadedAt))
  {
    if a.AddAnswer? {
      ExamLogic.CountCorrectAppend(s.answerHistory, [a.record]);
    }
  }

  /**
   * From a consistent state (the initial state is one), any run without
   * LOAD_DATA keeps answeredQuestions = |answerHistory| and correctAnswers
   * equal to the correct records in it, hence correctAnswers <= answeredQuestions.
   */
  lemma {:induction false} RunKeepsConsistent(s: AppState, actions: seq<Action>, loadedAt: int)
    requires Consistent(s) && NoLoad(actions)
    ensures Consistent(Run(s, actions, loadedAt))
    ensures Run(s, actions, loadedAt).studyProgress.correctAnswers <= Run(s, actions, loadedAt).studyProgress.answeredQuestions
    decreases |actions|
  {
    if actions != [] {
      ReduceKeepsConsistent(s, actions[0], loadedAt);
      RunKeepsConsistent(Reduce(s, actions[0], loadedAt), actions[1..], loadedAt);
    }
  }

  lemma InitialConsistent(loadedAt: int)
    ensures Consistent(InitialState(loadedAt))
  {
  }

  /** Without LOAD_DATA, the per-field progress never leaves its initial all-zero value. */
  lemma {:induction false} FieldProgressNeverUpdated(s: AppState, actions: seq<Action>, loadedAt: int)
    requires forall f: ExamField :: s.studyProgress.fieldProgress.Get(f) == ZeroFieldProgress
    requires NoLoad(actions)
    ensures forall f: ExamField :: Run(s, actions, loadedAt).studyProgress.fieldProgress.Get(f) == ZeroFieldProgress
    decreases |actions|
  {
    if actions != [] {
      FieldProgressNeverUpdated(Reduce(s, actions[0], loadedAt), actions[1..], loadedAt);
    }
  }

  /** Without LOAD_DATA or RESET_DATA, earlier results are never removed or reordered. */
  lemma {:induction false} ResultsOnlyGrow(s: AppState, actions: seq<Action>, loadedAt: int)
    requires forall i :: 0 <= i < |actions| ==> !actions[i].LoadData? && !actions[i].ResetData?
    ensures s.mockExamResults <= Run(s, actions, loadedAt).mockExamResults
    ensures s.answerHistory <= Run(s, actions, loadedAt).answerHistory
    decreases |actions|
  {
    if actions != [] {
      ResultsOnlyGrow(Reduce(s, actions[0], loadedAt), actions[1..], loadedAt);
    }
  }

  /**
   * The store behind `useReducer`: the current state and, as ghost
   * bookkeeping, every action dispatched so far.
   */
  class Store {
    const loadedAt: int
    var state: AppState
    ghost var dispatched: seq<Action>

    ghost predicate Valid()
      reads this
    {
      state == Run(InitialState(loadedAt), dispatched, loadedAt)
    }

    constructor(loadedAt: int)
      ensures Valid()
      ensures this.loadedAt == loadedAt && state == InitialState(loadedAt) && dispatched == []
    {
      this.loadedAt := loadedAt;
      state := InitialState(loadedAt);
      dispatched := [];
    }

    method Dispatch(a: Action)
      requires Valid()
      modifies this
      ensures Valid()
      ensures state == Reduce(old(state), a, loadedAt)
      ensures dispatched == old(dispatched) + [a]
    {
      RunSnoc(InitialState(loadedAt), dispatched, a, loadedAt);
      state := Reduce(state, a, loadedAt);
      dispatched := dispatched + [a];
    }
  }
}
