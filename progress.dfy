// The progress page (src/pages/Progress/Progress.tsx): the summary figures
// derived from the store, the study recommendations, and the exam history
// table, whose rows are the results sorted newest first.
module ProgressPage {
  import opened Types
  import opened JsMath
  import ExamLogic
  import opened AppContext

  /** `Math.max(...results.map(r => r.score))`, or 0 when there are no results. */
  function BestScore(results: seq<MockExamResult>): (best: int)
    ensures results == [] ==> best == 0
    ensures forall i :: 0 <= i < |results| ==> results[i].score <= best
    ensures results != [] ==> exists i :: 0 <= i < |results| && results[i].score == best
    decreases |results|
  {
    if results == [] then 0
    else if |results| == 1 then results[0].score
    else
      var rest := BestScore(results[..|results| - 1]);
      var last := results[|results| - 1].score;
      assert exists i :: 0 <= i < |results| - 1 && results[i].score == rest;
      Max(rest, last)
  }

  /** `results.filter(r => r.passed).length` */
  function PassedExams(results: seq<MockExamResult>): (n: nat)
    ensures n <= |results|
    ensures n == 0 <==> forall i :: 0 <= i < |results| ==> !results[i].passed
    decreases |results|
  {
    if results == [] then 0
    else PassedExams(results[..|results| - 1]) + (if results[|results| - 1].passed then 1 else 0)
  }

  /** Counting passed exams distributes over concatenation, one per passed result. */
  lemma {:induction false} PassedExamsAppend(a: seq<MockExamResult>, b: seq<MockExamResult>)
    ensures PassedExams(a + b) == PassedExams(a) + PassedExams(b)
    ensures PassedExams([]) == 0
    ensures forall r :: PassedExams([r]) == if r.passed then 1 else 0
    decreases |b|
  {
    if b != [] {
      var init := b[..|b| - 1];
      assert (a + b)[..|a + b| - 1] == a + init;
      PassedExamsAppend(a, init);
    } else {
      assert a + b == a;
    }
    forall r ensures PassedExams([r]) == if r.passed then 1 else 0 {
      assert [r][..0] == [];
    }
  }

  /** The pass rate shown under the history: rounded percentage of passed exams, 0 with no exams. */
  function PassRate(results: seq<MockExamResult>): (rate: nat)
    ensures rate <= 100
    ensures results == [] ==> rate == 0
    ensures results != [] ==>
      2 * |results| * rate <= 2 * PassedExams(results) * 100 + |results| < 2 * |results| * rate + 2 * |results|
  {
    if results == [] then 0
    else
      RoundRatioAtMostScale(PassedExams(results), |results|, 100);
      RoundRatio(PassedExams(results), |results|, 100)
  }

  /** The "weak fields" panel: the fields with some answers and a stored accuracy below 70, in key order. */
  function WeakFields(progress: FieldTable<FieldProgress>): (weak: seq<ExamField>)
    ensures forall f: ExamField :: f in weak <==>
      progress.Get(f).answeredQuestions > 0 && progress.Get(f).accuracy < ExamLogic.WEAK_ACCURACY
    ensures forall i :: 0 <= i < |weak| - 1 ==> weak[i].Ordinal() < weak[i + 1].Ordinal()
  {
    var s := if IsWeak(progress.strategy) then [Strategy] else [];
    var m := if IsWeak(progress.management) then [Management] else [];
    var t := if IsWeak(progress.technology) then [Technology] else [];
    WeakListMembers(progress, s, m, t);
    s + m + t
  }

  predicate IsWeak(p: FieldProgress) {
    p.answeredQuestions > 0 && p.accuracy < ExamLogic.WEAK_ACCURACY
  }

  lemma WeakListMembers(progress: FieldTable<FieldProgress>, s: seq<ExamField>, m: seq<ExamField>, t: seq<ExamField>)
    requires s == if IsWeak(progress.strategy) then [Strategy] else []
    requires m == if IsWeak(progress.management) then [Management] else []
    requires t == if IsWeak(progress.technology) then [Technology] else []
    ensures forall f: ExamField :: f in s + m + t <==> IsWeak(progress.Get(f))
    ensures forall i :: 0 <= i < |s + m + t| - 1 ==> (s + m + t)[i].Ordinal() < (s + m + t)[i + 1].Ordinal()
  {
    forall f: ExamField ensures f in s + m + t <==> IsWeak(progress.Get(f)) {
      assert f in s + m + t <==> f in s || f in m || f in t;
      match f
      case Strategy =>
      case Management =>
      case Technology =>
    }
  }

  /**
   * The panel reads the per-field counters, which no reducer action updates,
   * so without loaded data it never lists a field, whereas the exam logic's
   * identifyWeakFields reports every field as weak when there are no answers.
   */
  lemma WeakFieldRulesDisagree(actions: seq<Action>, loadedAt: int, questions: seq<Question>)
    requires NoLoad(actions)
    ensures WeakFields(Run(InitialState(loadedAt), actions, loadedAt).studyProgress.fieldProgress) == []
    ensures ExamLogic.IdentifyWeakFields([], questions) == [Strategy, Management, Technology]
  {
    NoWeakFieldsWithoutLoad(actions, loadedAt);
    ExamLogic.NoAnswersAllWeak(questions);
  }

  lemma NoWeakFieldsWithoutLoad(actions: seq<Action>, loadedAt: int)
    requires NoLoad(actions)
    ensures WeakFields(Run(InitialState(loadedAt), actions, loadedAt).studyProgress.fieldProgress) == []
  {
    var progress := Run(InitialState(loadedAt), actions, loadedAt).studyProgress.fieldProgress;
    FieldProgressNeverUpdated(InitialState(loadedAt), actions, loadedAt);
    assert progress.Get(Strategy) == progress.Get(Management) == progress.Get(Technology) == ZeroFieldProgress;
  }

  datatype Recommendation = Basics | TryMockExam | InRange | PassLevel

  /** The recommendation cards shown, from the answered count, the overall accuracy and the results. */
  function Recommendations(answered: int, accuracy: int, results: seq<MockExamResult>): (recs: set<Recommendation>)
    ensures Basics in recs <==> answered < 50
    ensures TryMockExam in recs <==> results == [] && answered >= 20
    ensures InRange in recs <==> accuracy >= 80 && PassedExams(results) == 0
    ensures PassLevel in recs <==> PassedExams(results) > 0
  {
    (if answered < 50 then {Basics} else {})
    + (if results == [] && answered >= 20 then {TryMockExam} else {})
    + (if accuracy >= 80 && PassedExams(results) == 0 then {InRange} else {})
    + (if PassedExams(results) > 0 then {PassLevel} else {})
  }

  /**
   * The cards as the page computes them from the store: the answered count
   * is the stored counter, the accuracy is calculateAccuracy over the whole
   * answer history, and the results are the stored exam results.
   */
  function PageRecommendations(s: AppState): (recs: set<Recommendation>)
    ensures Basics in recs <==> s.studyProgress.answeredQuestions < 50
    ensures TryMockExam in recs <==> s.mockExamResults == [] && s.studyProgress.answeredQuestions >= 20
    ensures InRange in recs <==> ExamLogic.CalculateAccuracy(s.answerHistory) >= 80 && PassedExams(s.mockExamResults) == 0
    ensures PassLevel in recs <==> PassedExams(s.mockExamResults) > 0
  {
    Recommendations(s.studyProgress.answeredQuestions, ExamLogic.CalculateAccuracy(s.answerHistory), s.mockExamResults)
  }

  /**
   * Before any answer the "in range" card cannot show, because the accuracy
   * of an empty history is 0; the fresh store shows "basics" alone.
   */
  lemma FreshStoreRecommendsBasics(loadedAt: int)
    ensures PageRecommendations(InitialState(loadedAt)) == {Basics}
  {
    var recs := PageRecommendations(InitialState(loadedAt));
    assert PassedExams([]) == 0;
    assert forall r :: r in recs <==> r == Basics;
  }

  /**
   * "In range" and "pass level" never show together, nor do "try a mock
   * exam" and "pass level"; no card at all shows exactly when at least 50
   * answers, some results, none passed and accuracy below 80.
   */
  lemma RecommendationCases(answered: int, accuracy: int, results: seq<MockExamResult>)
    ensures var recs := Recommendations(answered, accuracy, results);
      && !(InRange in recs && PassLevel in recs)
      && !(TryMockExam in recs && PassLevel in recs)
      && (recs == {} <==> answered >= 50 && results != [] && PassedExams(results) == 0 && accuracy < 80)
  {
    var recs := Recommendations(answered, accuracy, results);
    if results == [] {
      assert PassedExams(results) == 0;
    }
    if !(answered >= 50 && results != [] && PassedExams(results) == 0 && accuracy < 80) {
      if answered < 50 {
        assert Basics in recs;
      } else if results == [] {
        assert TryMockExam in recs;
      } else if PassedExams(results) > 0 {
        assert PassLevel in recs;
      } else {
        assert InRange in recs;
      }
    }
  }

  // ---------------------------------------------------------------------------
  // History table and score-trend chart

  /** x may come before y: newest first compares dates downwards, oldest first upwards. */
  predicate InOrder(x: MockExamResult, y: MockExamResult, newestFirst: bool) {
    if newestFirst then x.date >= y.date else x.date <= y.date
  }

  /** Results ordered by date in the given direction. */
  predicate SortedByDate(s: seq<MockExamResult>, newestFirst: bool) {
    forall i, j :: 0 <= i < j < |s| ==> InOrder(s[i], s[j], newestFirst)
  }

  /** Results whose dates strictly increase: each exam was taken after the one before it. */
  predicate StrictlyOldestFirst(s: seq<MockExamResult>) {
    forall i, j :: 0 <= i < j < |s| ==> s[i].date < s[j].date
  }

  /**
   * The state of the insertion below: the prefix s[..i+1] is in order except
   * for pairs ending at position j, the element being moved down.
   */
  ghost predicate OrderedExcept(s: seq<MockExamResult>, i: int, j: int, newestFirst: bool)
    requires 0 <= j <= i < |s|
  {
    forall p, q :: 0 <= p < q <= i && q != j ==> InOrder(s[p], s[q], newestFirst)
  }

  /** Swapping the moving element with a predecessor out of order keeps the order and the contents. */
  lemma SwapDown(s: seq<MockExamResult>, t: seq<MockExamResult>, i: int, j: int, newestFirst: bool)
    requires 0 < j <= i < |s|
    requires OrderedExcept(s, i, j, newestFirst) && !InOrder(s[j - 1], s[j], newestFirst)
    requires t == s[j - 1 := s[j]][j := s[j - 1]]
    ensures OrderedExcept(t, i, j - 1, newestFirst)
    ensures multiset(t) == multiset(s)
  {
  }

  /** The moving element has found its place: the prefix s[..i+1] is in order. */
  lemma InsertionDone(s: seq<MockExamResult>, i: int, j: int, newestFirst: bool)
    requires 0 <= j <= i < |s|
    requires OrderedExcept(s, i, j, newestFirst)
    requires j == 0 || InOrder(s[j - 1], s[j], newestFirst)
    ensures SortedByDate(s[..i + 1], newestFirst)
  {
  }

  /**
   * `.sort(...)` by date on the array itself: newest first for the history
   * table, oldest first for the score-trend chart.
   */
  method SortByDate(a: array<MockExamResult>, newestFirst: bool)
    modifies a
    ensures SortedByDate(a[..], newestFirst)
    ensures multiset(a[..]) == multiset(old(a[..]))
  {
    for i := 0 to a.Length
      invariant SortedByDate(a[..i], newestFirst)
      invariant multiset(a[..]) == multiset(old(a[..]))
    {
      var j := i;
      assert OrderedExcept(a[..], i, j, newestFirst);
      while j > 0 && !InOrder(a[j - 1], a[j], newestFirst)
        invariant 0 <= j <= i
        invariant OrderedExcept(a[..], i, j, newestFirst)
        invariant multiset(a[..]) == multiset(old(a[..]))
      {
        ghost var before := a[..];
        a[j - 1], a[j] := a[j], a[j - 1];
        assert a[..] == before[j - 1 := before[j]][j := before[j - 1]];
        SwapDown(before, a[..], i, j, newestFirst);
        j := j - 1;
      }
      InsertionDone(a[..], i, j, newestFirst);
      assert a[..i + 1] == a[..][..i + 1];
    }
    assert a[..] == a[..a.Length];
  }

  /** Results with strictly increasing dates have only one oldest-first order. */
  lemma {:induction false} OldestFirstUnique(s: seq<MockExamResult>, t: seq<MockExamResult>)
    requires StrictlyOldestFirst(s) && SortedByDate(t, false)
    requires multiset(t) == multiset(s)
    ensures t == s
    decreases |s|
  {
    assert |t| == |s| by {
      calc {
        |t|;
        |multiset(t)|;
        |multiset(s)|;
      }
    }
    if s != [] {
      OldestFirstHead(s, t);
      SameTail(s, t);
      assert StrictlyOldestFirst(s[1..]);
      assert SortedByDate(t[1..], false);
      OldestFirstUnique(s[1..], t[1..]);
      assert s == [s[0]] + s[1..];
      assert t == [t[0]] + t[1..];
    }
  }

  /** The first of such results leads every oldest-first order of them. */
  lemma OldestFirstHead(s: seq<MockExamResult>, t: seq<MockExamResult>)
    requires StrictlyOldestFirst(s) && SortedByDate(t, false)
    requires multiset(t) == multiset(s) && |t| == |s| > 0
    ensures t[0] == s[0]
  {
    assert t[0] in multiset(s);
    var k :| 0 <= k < |s| && s[k] == t[0];
    assert s[0] in multiset(t);
    var m :| 0 <= m < |t| && t[m] == s[0];
    assert t[0].date <= s[0].date by {
      assert InOrder(t[0], t[m], false) || m == 0;
    }
    assert s[k].date <= s[0].date;
    assert k == 0;
  }

  /** Two lists with the same contents and the same first element have the same contents after it. */
  lemma SameTail(s: seq<MockExamResult>, t: seq<MockExamResult>)
    requires multiset(t) == multiset(s) && |t| > 0 && |s| > 0 && t[0] == s[0]
    ensures multiset(t[1..]) == multiset(s[1..])
  {
    assert s == [s[0]] + s[1..];
    assert t == [t[0]] + t[1..];
    calc {
      multiset(t[1..]);
      multiset(t) - multiset{t[0]};
      multiset(s) - multiset{s[0]};
      multiset(s[1..]);
    }
  }

  /**
   * The history table and the score-trend chart as the page renders them.
   * Both are drawn only when there are results. Both sort the store's own
   * array in place: the table newest first, then the chart, rendered after
   * the page, oldest first. The store's state is changed without any action
   * being dispatched. It keeps the chart's order.
   */
  method RenderHistoryAsWritten(store: Store) returns (rows: seq<MockExamResult>, trend: seq<MockExamResult>)
    modifies store
    ensures SortedByDate(rows, true) && multiset(rows) == multiset(old(store.state.mockExamResults))
    ensures SortedByDate(trend, false) && multiset(trend) == multiset(old(store.state.mockExamResults))
    ensures store.state == old(store.state).(mockExamResults := trend)
    ensures store.dispatched == old(store.dispatched)
    ensures StrictlyOldestFirst(old(store.state.mockExamResults)) ==> store.state == old(store.state)
  {
    var results := store.state.mockExamResults;
    if |results| == 0 {
      rows, trend := [], [];
      assert store.state == store.state.(mockExamResults := trend);
      return;
    }
    var a := new MockExamResult[|results|](i requires 0 <= i < |results| => results[i]);
    assert a[..] == results;
    SortByDate(a, true);
    rows := a[..];
    SortByDate(a, false);
    trend := a[..];
    store.state := store.state.(mockExamResults := trend);
    if StrictlyOldestFirst(results) {
      OldestFirstUnique(results, trend);
    }
  }

  /**
   * Two results stored out of date order (the newer one first, as when the
   * clock was set back between two exams): rendering the page swaps them in
   * the store, so the last result is no longer the one added last.
   */
  lemma RenderReordersResults(newer: MockExamResult, older: MockExamResult, trend: seq<MockExamResult>)
    requires older.date < newer.date
    requires SortedByDate(trend, false) && multiset(trend) == multiset([newer, older])
    ensures trend != [newer, older]
    ensures LatestResult([newer, older]) == Some(older)
    ensures LatestResult(trend) == Some(newer)
  {
    assert |trend| == 2 by {
      calc {
        |trend|;
        |multiset(trend)|;
        |multiset([newer, older])|;
      }
    }
    assert trend == [trend[0], trend[1]];
    assert InOrder(trend[0], trend[1], false);
    assert trend[1] == newer;
  }

  /** The history table and the chart built from sorted copies, leaving the store as it is. */
  method RenderHistory(store: Store) returns (rows: seq<MockExamResult>, trend: seq<MockExamResult>)
    ensures SortedByDate(rows, true) && multiset(rows) == multiset(store.state.mockExamResults)
    ensures SortedByDate(trend, false) && multiset(trend) == multiset(store.state.mockExamResults)
    ensures store.Valid() <==> old(store.Valid())
  {
    var results := store.state.mockExamResults;
    var a := new MockExamResult[|results|](i requires 0 <= i < |results| => results[i]);
    assert a[..] == results;
    SortByDate(a, true);
    rows := a[..];
    var b := new MockExamResult[|results|](i requires 0 <= i < |results| => results[i]);
    assert b[..] == results;
    SortByDate(b, false);
    trend := b[..];
  }
}
