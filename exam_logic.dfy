// The exam engine of src/utils/examLogic.ts: shuffling, stratified exam
// assembly, 1000-point scoring, the two-part pass rule, accuracy, weak
// fields and time formatting.
//
// `Math.random()` is an oracle `rand: nat -> nat` read at a running draw
// counter `k`; draw number k picks index `rand(k) % (i + 1)`, which is
// `Math.floor(Math.random() * (i + 1))` for some value of the random number.
module ExamLogic {
  import opened Types
  import opened JsMath
  import opened Text

  // EXAM_CONFIG and FIELD_PASSING_SCORES
  const TOTAL_QUESTIONS: nat := 100
  const TIME_LIMIT_MINUTES: nat := 165
  const PASSING_SCORE: nat := 600
  const MAX_SCORE: nat := 1000
  const WEAK_ACCURACY: nat := 70

  /** FIELD_DISTRIBUTION: questions drawn per field for a full exam. */
  function Quota(f: ExamField): (n: nat)
    ensures n <= TOTAL_QUESTIONS
  {
    match f
    case Strategy => 35
    case Management => 20
    case Technology => 45
  }

  lemma QuotasSumToTotal()
    ensures Quota(Strategy) + Quota(Management) + Quota(Technology) == TOTAL_QUESTIONS
  {
  }

  function FieldPassingScore(f: ExamField): nat { 300 }

  // ---------------------------------------------------------------------------
  // Filters over questions and answers

  /** `questions.filter(q => q.field === f)` */
  function OfField(qs: seq<Question>, f: ExamField): (r: seq<Question>)
    ensures |r| <= |qs|
    ensures forall i :: 0 <= i < |r| ==> r[i].field == f
  {
    if qs == [] then []
    else
      var rest := OfField(qs[..|qs| - 1], f);
      if qs[|qs| - 1].field == f then rest + [qs[|qs| - 1]] else rest
  }

  /** Any reordering of a field's questions holds only questions of that field. */
  lemma ReorderedOfField(qs: seq<Question>, f: ExamField, reordered: seq<Question>)
    requires multiset(reordered) == multiset(OfField(qs, f))
    ensures forall i :: 0 <= i < |reordered| ==> reordered[i].field == f
  {
    forall i | 0 <= i < |reordered| ensures reordered[i].field == f {
      assert reordered[i] in multiset(OfField(qs, f));
    }
  }

  /** `answers.filter(a => a.isCorrect).length` */
  function CountCorrect(answers: seq<AnswerRecord>): (n: nat)
    ensures n <= |answers|
  {
    if answers == [] then 0
    else CountCorrect(answers[..|answers| - 1]) + (if answers[|answers| - 1].isCorrect then 1 else 0)
  }

  /** `qs.some(q => q.id === id)` */
  predicate HasQuestionId(qs: seq<Question>, id: string) {
    exists i :: 0 <= i < |qs| && qs[i].id == id
  }

  /** `answers.filter(a => qs.some(q => q.id === a.questionId))` */
  function AnswersFor(answers: seq<AnswerRecord>, qs: seq<Question>): (r: seq<AnswerRecord>)
    ensures |r| <= |answers|
    ensures forall i :: 0 <= i < |r| ==> HasQuestionId(qs, r[i].questionId)
    ensures forall j :: 0 <= j < |answers| && HasQuestionId(qs, answers[j].questionId) ==> answers[j] in r
  {
    if answers == [] then []
    else
      var rest := AnswersFor(answers[..|answers| - 1], qs);
      var a := answers[|answers| - 1];
      if HasQuestionId(qs, a.questionId) then rest + [a] else rest
  }

  lemma {:induction false} CountCorrectAppend(a: seq<AnswerRecord>, b: seq<AnswerRecord>)
    ensures CountCorrect(a + b) == CountCorrect(a) + CountCorrect(b)
    decreases |b|
  {
    if b == [] {
      assert a + b == a;
    } else {
      assert (a + b)[..|a + b| - 1] == a + b[..|b| - 1];
      CountCorrectAppend(a, b[..|b| - 1]);
    }
  }

  lemma {:induction false} OfFieldAppend(a: seq<Question>, b: seq<Question>, f: ExamField)
    ensures OfField(a + b, f) == OfField(a, f) + OfField(b, f)
    decreases |b|
  {
    if b == [] {
      assert a + b == a;
    } else {
      assert (a + b)[..|a + b| - 1] == a + b[..|b| - 1];
      OfFieldAppend(a, b[..|b| - 1], f);
    }
  }

  /** Filtering by field keeps exactly the copies of questions of that field. */
  lemma {:induction false} OfFieldMultiset(qs: seq<Question>, f: ExamField)
    ensures forall x :: multiset(OfField(qs, f))[x] == if x.field == f then multiset(qs)[x] else 0
    decreases |qs|
  {
    if qs != [] {
      var init := qs[..|qs| - 1];
      OfFieldMultiset(init, f);
      assert qs == init + [qs[|qs| - 1]];
    }
  }

  /** Two arrangements of the same questions have as many questions of every field. */
  lemma OfFieldPermutation(a: seq<Question>, b: seq<Question>, f: ExamField)
    requires multiset(a) == multiset(b)
    ensures multiset(OfField(a, f)) == multiset(OfField(b, f))
    ensures |OfField(a, f)| == |OfField(b, f)|
  {
    OfFieldMultiset(a, f);
    OfFieldMultiset(b, f);
    assert multiset(OfField(a, f)) == multiset(OfField(b, f));
    assert |multiset(OfField(a, f))| == |multiset(OfField(b, f))|;
  }

  /** A list whose questions all belong to field f filters to itself for f and to nothing for other fields. */
  lemma {:induction false} OfFieldUniform(qs: seq<Question>, f: ExamField, g: ExamField)
    requires forall i :: 0 <= i < |qs| ==> qs[i].field == f
    ensures OfField(qs, g) == if g == f then qs else []
    decreases |qs|
  {
    if qs != [] {
      var init, last := qs[..|qs| - 1], qs[|qs| - 1];
      OfFieldUniform(init, f, g);
      if g == f {
        assert OfField(qs, g) == init + [last];
        assert qs == init + [last];
      } else {
        assert last.field != g;
      }
    }
  }

  /** Every question belongs to exactly one field. */
  lemma {:induction false} PartitionByField(qs: seq<Question>)
    ensures multiset(qs) == multiset(OfField(qs, Strategy)) + multiset(OfField(qs, Management)) + multiset(OfField(qs, Technology))
    ensures |qs| == |OfField(qs, Strategy)| + |OfField(qs, Management)| + |OfField(qs, Technology)|
    decreases |qs|
  {
    if qs != [] {
      var init := qs[..|qs| - 1];
      PartitionByField(init);
      assert qs == init + [qs[|qs| - 1]];
    }
    assert |multiset(qs)| == |multiset(OfField(qs, Strategy))| + |multiset(OfField(qs, Management))| + |multiset(OfField(qs, Technology))|;
  }

  // ---------------------------------------------------------------------------
  // shuffleQuestions

  /**
   * Fisher-Yates on a copy of the input: for i from |questions|-1 down to 1,
   * swap positions i and j with j drawn from [0, i]. The result is a
   * permutation of the input; one draw is used per swap.
   */
  method ShuffleQuestions(questions: seq<Question>, rand: nat -> nat, k0: nat)
    returns (shuffled: seq<Question>, k: nat)
    ensures multiset(shuffled) == multiset(questions)
    ensures |shuffled| == |questions|
    ensures k == k0 + if |questions| == 0 then 0 else |questions| - 1
  {
    var a := new Question[|questions|](i requires 0 <= i < |questions| => questions[i]);
    assert a[..] == questions;
    k := k0;
    var i := a.Length - 1;
    while i > 0
      invariant -1 <= i < a.Length
      invariant a.Length > 0 ==> i >= 0
      invariant multiset(a[..]) == multiset(questions)
      invariant k == k0 + (a.Length - 1 - i)
    {
      var j := rand(k) % (i + 1);
      k := k + 1;
      ghost var before := a[..];
      a[i], a[j] := a[j], a[i];
      assert a[..] == before[i := before[j]][j := before[i]];
      i := i - 1;
    }
    shuffled := a[..];
    assert |multiset(shuffled)| == |multiset(questions)|;
  }

  // ---------------------------------------------------------------------------
  // createMockExam

  /** The questions of the first n fields of `AllFields`, as a multiset. */
  ghost function CatalogUpTo(all: seq<Question>, n: nat): multiset<Question>
    requires n <= |AllFields|
  {
    if n == 0 then multiset{} else CatalogUpTo(all, n - 1) + multiset(OfField(all, AllFields[n - 1]))
  }

  lemma CatalogUpToAll(all: seq<Question>)
    ensures CatalogUpTo(all, 3) == multiset(all)
  {
    PartitionByField(all);
    assert CatalogUpTo(all, 1) == multiset(OfField(all, Strategy));
    assert CatalogUpTo(all, 2) == CatalogUpTo(all, 1) + multiset(OfField(all, Management));
  }

  /** What one field contributes to the exam. */
  function Selected(all: seq<Question>, f: ExamField): nat {
    Min(Quota(f), |OfField(all, f)|)
  }

  /**
   * For every field, in the order strategy, management, technology: shuffle
   * that field's catalog questions and keep the first min(quota, available);
   * then shuffle the concatenation. Each field contributes exactly
   * min(quota, available) questions, the exam has at most 100 questions, and
   * no catalog entry is used more often than it occurs in the catalog.
   */
  method CreateMockExam(allQuestions: seq<Question>, rand: nat -> nat, k0: nat)
    returns (exam: seq<Question>, k: nat)
    ensures forall f: ExamField :: |OfField(exam, f)| == Selected(allQuestions, f)
    ensures |exam| == Selected(allQuestions, Strategy) + Selected(allQuestions, Management) + Selected(allQuestions, Technology)
    ensures |exam| <= TOTAL_QUESTIONS
    ensures multiset(exam) <= multiset(allQuestions)
  {
    var questionsByField := FieldTable(
      OfField(allQuestions, Strategy),
      OfField(allQuestions, Management),
      OfField(allQuestions, Technology));
    var examQuestions: seq<Question> := [];
    k := k0;
    for n := 0 to |AllFields|
      invariant CollectedUpTo(allQuestions, examQuestions, n)
    {
      var field := AllFields[n];
      var fieldQuestions := questionsByField.Get(field);
      var shuffled;
      shuffled, k := ShuffleQuestions(fieldQuestions, rand, k);
      var selected := shuffled[..Min(Quota(field), |fieldQuestions|)];
      CollectStep(allQuestions, examQuestions, n, shuffled, selected);
      examQuestions := examQuestions + selected;
    }
    exam, k := ShuffleQuestions(examQuestions, rand, k);
    CollectedAll(allQuestions, examQuestions, exam);
  }

  /** The loop invariant of CreateMockExam after the first n fields. */
  ghost predicate CollectedUpTo(all: seq<Question>, collected: seq<Question>, n: nat)
    requires n <= |AllFields|
  {
    && (forall g: ExamField :: |OfField(collected, g)| == if g.Ordinal() < n then Selected(all, g) else 0)
    && multiset(collected) <= CatalogUpTo(all, n)
  }

  /** Appending field n's selection extends the invariant to n + 1 fields. */
  lemma CollectStep(all: seq<Question>, collected: seq<Question>, n: nat, shuffled: seq<Question>, selected: seq<Question>)
    requires n < |AllFields| && CollectedUpTo(all, collected, n)
    requires multiset(shuffled) == multiset(OfField(all, AllFields[n]))
    requires |shuffled| == |OfField(all, AllFields[n])|
    requires selected == shuffled[..Selected(all, AllFields[n])]
    ensures CollectedUpTo(all, collected + selected, n + 1)
  {
    var field := AllFields[n];
    var fq := OfField(all, field);
    CollectMultiset(all, collected, n, shuffled, selected);
    SelectionOfField(fq, field, selected);
    CollectCounts(all, collected, n, selected);
  }

  lemma CollectMultiset(all: seq<Question>, collected: seq<Question>, n: nat, shuffled: seq<Question>, selected: seq<Question>)
    requires n < |AllFields|
    requires multiset(collected) <= CatalogUpTo(all, n)
    requires multiset(shuffled) == multiset(OfField(all, AllFields[n]))
    requires selected <= shuffled
    ensures multiset(selected) <= multiset(OfField(all, AllFields[n]))
    ensures multiset(collected + selected) <= CatalogUpTo(all, n + 1)
  {
    assert shuffled == selected + shuffled[|selected|..];
    assert multiset(shuffled) == multiset(selected) + multiset(shuffled[|selected|..]);
    assert CatalogUpTo(all, n + 1) == CatalogUpTo(all, n) + multiset(OfField(all, AllFields[n]));
  }

  lemma SelectionOfField(fq: seq<Question>, field: ExamField, selected: seq<Question>)
    requires forall i :: 0 <= i < |fq| ==> fq[i].field == field
    requires multiset(selected) <= multiset(fq)
    ensures forall i :: 0 <= i < |selected| ==> selected[i].field == field
  {
    forall i | 0 <= i < |selected| ensures selected[i].field == field {
      assert selected[i] in multiset(fq);
    }
  }

  lemma CollectCounts(all: seq<Question>, collected: seq<Question>, n: nat, selected: seq<Question>)
    requires n < |AllFields|
    requires forall g: ExamField :: |OfField(collected, g)| == if g.Ordinal() < n then Selected(all, g) else 0
    requires |selected| == Selected(all, AllFields[n])
    requires forall i :: 0 <= i < |selected| ==> selected[i].field == AllFields[n]
    ensures forall g: ExamField :: |OfField(collected + selected, g)| == if g.Ordinal() < n + 1 then Selected(all, g) else 0
  {
    var field := AllFields[n];
    AllFieldsInOrder();
    forall g: ExamField ensures |OfField(collected + selected, g)| == if g.Ordinal() < n + 1 then Selected(all, g) else 0 {
      OfFieldAppend(collected, selected, g);
      OfFieldUniform(selected, field, g);
      assert g == field <==> g.Ordinal() == n;
    }
  }

  /** After all three fields, the final shuffle gives the postcondition of CreateMockExam. */
  lemma CollectedAll(all: seq<Question>, collected: seq<Question>, exam: seq<Question>)
    requires CollectedUpTo(all, collected, |AllFields|)
    requires multiset(exam) == multiset(collected)
    ensures forall f: ExamField :: |OfField(exam, f)| == Selected(all, f)
    ensures |exam| == Selected(all, Strategy) + Selected(all, Management) + Selected(all, Technology)
    ensures |exam| <= TOTAL_QUESTIONS
    ensures multiset(exam) <= multiset(all)
  {
    CatalogUpToAll(all);
    forall f: ExamField ensures |OfField(exam, f)| == Selected(all, f) {
      OfFieldPermutation(exam, collected, f);
    }
    PartitionByField(exam);
  }

  /** Catalog ids are unique. */
  predicate DistinctIds(qs: seq<Question>) {
    forall i, j :: 0 <= i < j < |qs| ==> qs[i].id != qs[j].id
  }

  /** An element found at two positions occurs at least twice. */
  lemma TwoPositions(s: seq<Question>, i: nat, j: nat)
    requires i < j < |s|
    ensures multiset(s)[s[i]] >= 2 || s[i] != s[j]
  {
    if s[i] == s[j] {
      assert s == s[..i] + [s[i]] + s[i + 1..j] + [s[j]] + s[j + 1..];
    }
  }

  /** A catalog whose entries carry unique ids yields an exam whose ids are unique. */
  lemma ExamIdsDistinct(catalog: seq<Question>, exam: seq<Question>)
    requires DistinctIds(catalog)
    requires multiset(exam) <= multiset(catalog)
    ensures DistinctIds(exam)
  {
    forall i, j | 0 <= i < j < |exam| ensures exam[i].id != exam[j].id {
      assert exam[i] in multiset(catalog) && exam[j] in multiset(catalog);
      var p :| 0 <= p < |catalog| && catalog[p] == exam[i];
      var q :| 0 <= q < |catalog| && catalog[q] == exam[j];
      NoDuplicates(catalog, p);
      TwoPositions(exam, i, j);
      assert exam[i] != exam[j];
      assert p != q;
    }
  }

  /** In a catalog with unique ids every entry occurs once. */
  lemma {:induction false} NoDuplicates(catalog: seq<Question>, p: nat)
    requires DistinctIds(catalog) && p < |catalog|
    ensures multiset(catalog)[catalog[p]] == 1
    decreases |catalog|
  {
    var x := catalog[p];
    var last := |catalog| - 1;
    var init := catalog[..last];
    assert catalog == init + [catalog[last]];
    if p == last {
      forall m | 0 <= m < |init| ensures init[m] != x {
        assert catalog[m].id != catalog[last].id;
      }
      assert x !in init;
    } else {
      NoDuplicates(init, p);
      assert catalog[last] != x by {
        assert catalog[p].id != catalog[last].id;
      }
    }
  }

  // ---------------------------------------------------------------------------
  // Scoring

  /**
   * calculateScore: 0 for an empty question list, otherwise
   * Math.round(correct / |questions| * 1000), where `correct` counts every
   * answer flagged correct, whatever question it refers to.
   */
  function CalculateScore(answers: seq<AnswerRecord>, questions: seq<Question>): (score: nat)
    ensures |questions| == 0 ==> score == 0
    ensures |questions| > 0 ==>
      2 * |questions| * score <= 2 * CountCorrect(answers) * MAX_SCORE + |questions| < 2 * |questions| * score + 2 * |questions|
  {
    if |questions| == 0 then 0 else RoundRatio(CountCorrect(answers), |questions|, MAX_SCORE)
  }

  /** The score lies in [0, 1000] when no more answers are correct than there are questions. */
  lemma ScoreInRange(answers: seq<AnswerRecord>, questions: seq<Question>)
    requires CountCorrect(answers) <= |questions|
    ensures 0 <= CalculateScore(answers, questions) <= MAX_SCORE
  {
    if |questions| > 0 {
      RoundRatioAtMostScale(CountCorrect(answers), |questions|, MAX_SCORE);
    }
  }

  /** No correct answers score 0; one correct answer per question scores 1000. */
  lemma ScoreExtremes(answers: seq<AnswerRecord>, questions: seq<Question>)
    requires |questions| > 0
    ensures CountCorrect(answers) == 0 ==> CalculateScore(answers, questions) == 0
    ensures CountCorrect(answers) == |questions| ==> CalculateScore(answers, questions) == MAX_SCORE
  {
    RoundRatioZero(|questions|, MAX_SCORE);
    RoundRatioFull(|questions|, MAX_SCORE);
  }

  /** The total score counts a correct answer even when its id is not an exam question. */
  lemma ScoreCountsForeignAnswers(answers: seq<AnswerRecord>, questions: seq<Question>, a: AnswerRecord)
    requires a.isCorrect && !HasQuestionId(questions, a.questionId)
    requires |questions| > 0
    ensures CountCorrect(answers + [a]) == CountCorrect(answers) + 1
    ensures CalculateScore(answers, questions) <= CalculateScore(answers + [a], questions)
  {
    CountCorrectAppend(answers, [a]);
    RoundRatioMono(CountCorrect(answers), CountCorrect(answers + [a]), |questions|, MAX_SCORE);
  }

  /**
   * Score of one field: calculateScore applied to that field's questions and
   * to the answers naming one of them.
   */
  function FieldScore(answers: seq<AnswerRecord>, questions: seq<Question>, f: ExamField): (score: nat)
    ensures score == CalculateScore(AnswersFor(answers, OfField(questions, f)), OfField(questions, f))
    ensures CountCorrect(AnswersFor(answers, OfField(questions, f))) <= |OfField(questions, f)| ==> score <= MAX_SCORE
  {
    var fieldQuestions := OfField(questions, f);
    var fieldAnswers := AnswersFor(answers, fieldQuestions);
    if |fieldQuestions| > 0 then
      if CountCorrect(fieldAnswers) <= |fieldQuestions| then
        RoundRatioAtMostScale(CountCorrect(fieldAnswers), |fieldQuestions|, MAX_SCORE);
        RoundRatio(CountCorrect(fieldAnswers), |fieldQuestions|, MAX_SCORE)
      else RoundRatio(CountCorrect(fieldAnswers), |fieldQuestions|, MAX_SCORE)
    else 0
  }

  /**
   * calculateFieldScores: each field is scored like calculateScore, but on
   * that field's questions only and on the answers whose questionId is one
   * of them. A field without questions scores 0.
   */
  function CalculateFieldScores(answers: seq<AnswerRecord>, questions: seq<Question>): (scores: FieldTable<int>)
    ensures forall f: ExamField :: scores.Get(f) == CalculateScore(AnswersFor(answers, OfField(questions, f)), OfField(questions, f))
    ensures forall f: ExamField :: OfField(questions, f) == [] ==> scores.Get(f) == 0
    ensures forall f: ExamField :: scores.Get(f) >= 0
  {
    FieldTable(
      FieldScore(answers, questions, Strategy),
      FieldScore(answers, questions, Management),
      FieldScore(answers, questions, Technology))
  }

  /** An answer whose id is not an exam question leaves every field score unchanged. */
  lemma FieldScoresIgnoreForeignAnswers(answers: seq<AnswerRecord>, questions: seq<Question>, a: AnswerRecord)
    requires !HasQuestionId(questions, a.questionId)
    ensures CalculateFieldScores(answers + [a], questions) == CalculateFieldScores(answers, questions)
  {
    forall f: ExamField ensures AnswersFor(answers + [a], OfField(questions, f)) == AnswersFor(answers, OfField(questions, f)) {
      var fq := OfField(questions, f);
      assert (answers + [a])[..|answers + [a]| - 1] == answers;
      OfFieldMultiset(questions, f);
      forall i | 0 <= i < |fq| ensures fq[i].id != a.questionId {
        assert fq[i] in multiset(fq);
        assert fq[i] in questions;
      }
      assert !HasQuestionId(fq, a.questionId);
    }
  }

  /**
   * isPassingScore: the total must reach 600 AND every field must reach its
   * own 300; a high total cannot make up for one low field.
   */
  predicate IsPassingScore(totalScore: int, fieldScores: FieldTable<int>): (ok: bool)
    ensures ok <==> && totalScore >= 600
                    && fieldScores.strategy >= 300 && fieldScores.management >= 300 && fieldScores.technology >= 300
  {
    assert fieldScores.Get(Strategy) == fieldScores.strategy && fieldScores.Get(Management) == fieldScores.management;
    assert fieldScores.Get(Technology) == fieldScores.technology;
    totalScore >= PASSING_SCORE && forall f: ExamField :: fieldScores.Get(f) >= FieldPassingScore(f)
  }

  lemma LowFieldFails(totalScore: int, fieldScores: FieldTable<int>, f: ExamField)
    requires fieldScores.Get(f) < FieldPassingScore(f)
    ensures !IsPassingScore(totalScore, fieldScores)
  {
  }

  /** A field that has no question in the exam scores 0 and so fails the exam. */
  lemma AbsentFieldFails(answers: seq<AnswerRecord>, questions: seq<Question>, totalScore: int, f: ExamField)
    requires OfField(questions, f) == []
    ensures !IsPassingScore(totalScore, CalculateFieldScores(answers, questions))
  {
    LowFieldFails(totalScore, CalculateFieldScores(answers, questions), f);
  }

  /**
   * createMockExamResult: the id is "exam-" followed by the clock reading, and
   * the verdict is the two-part pass rule applied to the computed scores.
   */
  function CreateMockExamResult(answers: seq<AnswerRecord>, questions: seq<Question>, timeSpent: int, now: int): (r: MockExamResult)
    ensures r.id == "exam-" + IntToString(now) && r.date == now
    ensures r.score == CalculateScore(answers, questions)
    ensures r.fieldScores == CalculateFieldScores(answers, questions)
    ensures r.totalQuestions == |questions| && r.correctAnswers == CountCorrect(answers)
    ensures r.answers == answers && r.timeSpent == timeSpent
    ensures r.passed <==> IsPassingScore(r.score, r.fieldScores)
  {
    var totalScore := CalculateScore(answers, questions);
    var fieldScores := CalculateFieldScores(answers, questions);
    var passed := IsPassingScore(totalScore, fieldScores);
    MockExamResult(
      "exam-" + IntToString(now), now, totalScore, |questions|,
      CountCorrect(answers), timeSpent, fieldScores, passed, answers)
  }

  /** A passing result has a total of at least 600 and questions from every field. */
  lemma PassedResultCoversEveryField(answers: seq<AnswerRecord>, questions: seq<Question>, timeSpent: int, now: int, f: ExamField)
    requires CreateMockExamResult(answers, questions, timeSpent, now).passed
    ensures CreateMockExamResult(answers, questions, timeSpent, now).score >= PASSING_SCORE
    ensures OfField(questions, f) != []
  {
    if OfField(questions, f) == [] {
      AbsentFieldFails(answers, questions, CalculateScore(answers, questions), f);
    }
  }

  // ---------------------------------------------------------------------------
  // Accuracy and weak fields

  /** calculateAccuracy: 0 for no answers, otherwise Math.round(correct / |answers| * 100). */
  function CalculateAccuracy(answers: seq<AnswerRecord>): (acc: nat)
    ensures acc <= 100
    ensures |answers| == 0 ==> acc == 0
    ensures |answers| > 0 ==>
      2 * |answers| * acc <= 2 * CountCorrect(answers) * 100 + |answers| < 2 * |answers| * acc + 2 * |answers|
  {
    if |answers| == 0 then 0
    else
      RoundRatioAtMostScale(CountCorrect(answers), |answers|, 100);
      RoundRatio(CountCorrect(answers), |answers|, 100)
  }

  /** Accuracy of the answers that refer to questions of field f. */
  function FieldAccuracy(answers: seq<AnswerRecord>, questions: seq<Question>, f: ExamField): nat {
    CalculateAccuracy(AnswersFor(answers, OfField(questions, f)))
  }

  /** The one-field list `[f]` when f is weak, `[]` otherwise. */
  function WeakIf(answers: seq<AnswerRecord>, questions: seq<Question>, f: ExamField): seq<ExamField> {
    if FieldAccuracy(answers, questions, f) < WEAK_ACCURACY then [f] else []
  }

  /**
   * identifyWeakFields: the fields, in enum order, whose accuracy over the
   * answers to their questions is below 70. A field with no answers has
   * accuracy 0 and is always reported.
   */
  function IdentifyWeakFields(answers: seq<AnswerRecord>, questions: seq<Question>): (weak: seq<ExamField>)
    ensures forall f: ExamField :: f in weak <==> FieldAccuracy(answers, questions, f) < WEAK_ACCURACY
    ensures forall i :: 0 <= i < |weak| - 1 ==> weak[i].Ordinal() < weak[i + 1].Ordinal()
  {
    var s, m, t := WeakIf(answers, questions, Strategy), WeakIf(answers, questions, Management), WeakIf(answers, questions, Technology);
    WeakListMembers(s, m, t, answers, questions);
    s + m + t
  }

  lemma WeakListMembers(s: seq<ExamField>, m: seq<ExamField>, t: seq<ExamField>, answers: seq<AnswerRecord>, questions: seq<Question>)
    requires s == WeakIf(answers, questions, Strategy)
    requires m == WeakIf(answers, questions, Management)
    requires t == WeakIf(answers, questions, Technology)
    ensures forall f: ExamField :: f in s + m + t <==> FieldAccuracy(answers, questions, f) < WEAK_ACCURACY
    ensures forall i :: 0 <= i < |s + m + t| - 1 ==> (s + m + t)[i].Ordinal() < (s + m + t)[i + 1].Ordinal()
  {
    forall f: ExamField ensures f in s + m + t <==> FieldAccuracy(answers, questions, f) < WEAK_ACCURACY {
      assert f in s + m + t <==> f in s || f in m || f in t;
      match f
      case Strategy =>
      case Management =>
      case Technology =>
    }
  }

  lemma {:induction false} AnswersForNone(answers: seq<AnswerRecord>)
    ensures AnswersFor(answers, []) == []
    decreases |answers|
  {
    if answers != [] {
      AnswersForNone(answers[..|answers| - 1]);
    }
  }

  /** With no answers every field is weak; so is any field the questions do not cover. */
  lemma UnansweredFieldsAreWeak(answers: seq<AnswerRecord>, questions: seq<Question>, f: ExamField)
    requires answers == [] || OfField(questions, f) == []
    ensures f in IdentifyWeakFields(answers, questions)
  {
    if answers != [] {
      AnswersForNone(answers);
    }
  }

  /** With no answers at all, identifyWeakFields reports all three fields, in enum order. */
  lemma NoAnswersAllWeak(questions: seq<Question>)
    ensures IdentifyWeakFields([], questions) == [Strategy, Management, Technology]
  {
    assert WeakIf([], questions, Strategy) == [Strategy];
    assert WeakIf([], questions, Management) == [Management];
    assert WeakIf([], questions, Technology) == [Technology];
  }

  // ---------------------------------------------------------------------------
  // Formatting

  /** formatStudyTime: "<h>時間<m>分", or "<m>分" when the hour count is not positive. */
  function FormatStudyTime(minutes: int): (s: string)
    ensures |s| > 0 && s[|s| - 1] == '分'
    ensures minutes >= 60 ==> s == NatToString(minutes / 60) + "時間" + NatToString(minutes % 60) + "分"
    ensures 0 <= minutes < 60 ==> s == NatToString(minutes) + "分"
  {
    var hours := minutes / 60;   // Math.floor, as the divisor is positive
    var mins := JsRem(minutes, 60);
    if hours > 0 then IntToString(hours) + "時間" + IntToString(mins) + "分"
    else IntToString(mins) + "分"
  }

  /** Minutes denoted by an hour count and a minute count. */
  function HoursMinutes(h: int, m: int): int { h * 60 + m }

  /** Reads back what FormatStudyTime writes for a non-negative number of minutes. */
  function ParseStudyTime(s: string): Option<int> {
    if |s| == 0 || s[|s| - 1] != '分' then None
    else
      var body := s[..|s| - 1];
      var i := IndexOf(body, '時');
      if i == |body| then (if AllDigits(body) then Some(ParseNat(body)) else None)
      else if i + 1 < |body| && body[i + 1] == '間' && AllDigits(body[..i]) && AllDigits(body[i + 2..])
      then Some(HoursMinutes(ParseNat(body[..i]), ParseNat(body[i + 2..])))
      else None
  }

  lemma ParseMinutesOnly(ms: string)
    requires |ms| > 0 && AllDigits(ms)
    ensures ParseStudyTime(ms + "分") == Some(ParseNat(ms))
  {
    var s := ms + "分";
    assert s[..|s| - 1] == ms;
  }

  lemma ParseHoursAndMinutesBody(s: string, body: string, hs: string, ms: string)
    requires AllDigits(hs) && AllDigits(ms)
    requires |s| > 0 && s[|s| - 1] == '分' && s[..|s| - 1] == body
    requires IndexOf(body, '時') == |hs| && |hs| + 1 < |body| && body[|hs| + 1] == '間'
    requires body[..|hs|] == hs && body[|hs| + 2..] == ms
    ensures ParseStudyTime(s) == Some(HoursMinutes(ParseNat(hs), ParseNat(ms)))
  {
  }

  lemma ParseHoursAndMinutes(hs: string, ms: string)
    requires AllDigits(hs) && AllDigits(ms)
    ensures ParseStudyTime(hs + "時間" + ms + "分") == Some(HoursMinutes(ParseNat(hs), ParseNat(ms)))
  {
    var s := hs + "時間" + ms + "分";
    var body := hs + "時間" + ms;
    assert s[..|s| - 1] == body;
    assert body[|hs|] == '時' && body[|hs| + 1] == '間';
    assert forall j :: 0 <= j < |hs| ==> body[j] == hs[j];
    assert IndexOf(body, '時') == |hs|;
    assert body[..|hs|] == hs && body[|hs| + 2..] == ms;
    ParseHoursAndMinutesBody(s, body, hs, ms);
  }

  /** FormatStudyTime loses nothing: hours and minutes read back to the original minute count. */
  lemma StudyTimeRoundTrip(minutes: nat)
    ensures ParseStudyTime(FormatStudyTime(minutes)) == Some(minutes)
  {
    var h, m := minutes / 60, minutes % 60;
    ParseNatToString(h);
    ParseNatToString(m);
    if h > 0 {
      assert FormatStudyTime(minutes) == NatToString(h) + "時間" + NatToString(m) + "分";
      ParseHoursAndMinutes(NatToString(h), NatToString(m));
      assert HoursMinutes(h, m) == minutes;
    } else {
      assert FormatStudyTime(minutes) == NatToString(m) + "分";
      ParseMinutesOnly(NatToString(m));
    }
  }

  /** Seconds denoted by hours, minutes and seconds. */
  function Clock(h: int, m: int, s: int): int { h * 3600 + m * 60 + s }

  /** The three parts formatExamTime prints: floor division for hours, JS remainders for the rest. */
  function ExamTimeParts(seconds: int): (parts: (int, int, int))
    ensures seconds >= 0 ==>
      Clock(parts.0, parts.1, parts.2) == seconds && 0 <= parts.0 && 0 <= parts.1 < 60 && 0 <= parts.2 < 60
  {
    (seconds / 3600, JsRem(seconds, 3600) / 60, JsRem(seconds, 60))
  }

  /** formatExamTime: "HH:MM:SS", each part zero-padded to at least two digits. */
  function FormatExamTime(seconds: int): (s: string)
    ensures seconds >= 0 ==>
      var parts := ExamTimeParts(seconds);
      ShowsClock(s, parts.0, parts.1, parts.2)
    ensures 0 <= seconds < 100 * 3600 ==> |s| == 8
  {
    var parts := ExamTimeParts(seconds);
    var hs, ms, ss := PadStart2(IntToString(parts.0)), PadStart2(IntToString(parts.1)), PadStart2(IntToString(parts.2));
    if seconds >= 0 then
      assert parts.0 < 100 || seconds >= 100 * 3600;
      PaddedClockFields(parts.0, parts.1, parts.2, hs, ms, ss);
      hs + ":" + ms + ":" + ss
    else hs + ":" + ms + ":" + ss
  }

  /** s reads "H..H:MM:SS" whose digit fields are h, m and sec. */
  predicate ShowsClock(s: string, h: nat, m: nat, sec: nat)
  {
    && |s| >= 8 && s[|s| - 6] == ':' && s[|s| - 3] == ':'
    && AllDigits(s[..|s| - 6]) && AllDigits(s[|s| - 5..|s| - 3]) && AllDigits(s[|s| - 2..])
    && ParseNat(s[..|s| - 6]) == h && ParseNat(s[|s| - 5..|s| - 3]) == m && ParseNat(s[|s| - 2..]) == sec
  }

  /** The padded parts, joined by colons, show those parts; below 100 hours the text is eight wide. */
  lemma PaddedClockFields(h: nat, m: nat, sec: nat, hs: string, ms: string, ss: string)
    requires m < 60 && sec < 60
    requires hs == PadStart2(NatToString(h)) && ms == PadStart2(NatToString(m)) && ss == PadStart2(NatToString(sec))
    ensures ShowsClock(hs + ":" + ms + ":" + ss, h, m, sec)
    ensures h < 100 ==> |hs + ":" + ms + ":" + ss| == 8
  {
    PaddedPart(h, hs);
    PaddedPart(m, ms);
    PaddedPart(sec, ss);
    JoinedClockFields(hs, ms, ss, h, m, sec);
  }

  lemma JoinedClockFields(hs: string, ms: string, ss: string, h: nat, m: nat, sec: nat)
    requires |hs| >= 2 && |ms| == 2 && |ss| == 2
    requires AllDigits(hs) && AllDigits(ms) && AllDigits(ss)
    requires ParseNat(hs) == h && ParseNat(ms) == m && ParseNat(ss) == sec
    ensures ShowsClock(hs + ":" + ms + ":" + ss, h, m, sec)
    ensures |hs + ":" + ms + ":" + ss| == |hs| + 6
  {
    ClockTextSlices(hs, ms, ss);
  }

  /** Where the fields sit in "H..H:MM:SS" when minutes and seconds are two wide. */
  lemma ClockTextSlices(hs: string, ms: string, ss: string)
    requires |hs| >= 2 && |ms| == 2 && |ss| == 2
    ensures var s := hs + ":" + ms + ":" + ss;
      && |s| == |hs| + 6 && s[|s| - 6] == ':' && s[|s| - 3] == ':'
      && s[..|s| - 6] == hs && s[|s| - 5..|s| - 3] == ms && s[|s| - 2..] == ss
  {
    var s := hs + ":" + ms + ":" + ss;
    assert s[..|s| - 6] == hs;
    assert s[|s| - 5..|s| - 3] == ms;
    assert s[|s| - 2..] == ss;
  }

  /** Reads back "H..H:MM:SS": at least two hour digits, then ":MM:SS". */
  function ParseExamTime(s: string): Option<int> {
    if |s| < 8 then None
    else
      var hours, tail := s[..|s| - 6], s[|s| - 6..];
      if tail[0] == ':' && tail[3] == ':' && AllDigits(hours) && AllDigits(tail[1..3]) && AllDigits(tail[4..])
      then Some(Clock(ParseNat(hours), ParseNat(tail[1..3]), ParseNat(tail[4..])))
      else None
  }

  lemma ParseClockParts(s: string, hs: string, ms: string, ss: string)
    requires |s| >= 8 && AllDigits(hs) && AllDigits(ms) && AllDigits(ss)
    requires s[..|s| - 6] == hs
    requires var tail := s[|s| - 6..]; tail[0] == ':' && tail[3] == ':' && tail[1..3] == ms && tail[4..] == ss
    ensures ParseExamTime(s) == Some(Clock(ParseNat(hs), ParseNat(ms), ParseNat(ss)))
  {
  }

  lemma ParseClock(hs: string, ms: string, ss: string, h: nat, m: nat, sec: nat)
    requires |hs| >= 2 && |ms| == 2 && |ss| == 2
    requires AllDigits(hs) && AllDigits(ms) && AllDigits(ss)
    requires ParseNat(hs) == h && ParseNat(ms) == m && ParseNat(ss) == sec
    ensures ParseExamTime(hs + ":" + ms + ":" + ss) == Some(Clock(h, m, sec))
  {
    var s := hs + ":" + ms + ":" + ss;
    var tail := s[|s| - 6..];
    assert s[..|s| - 6] == hs;
    assert tail[0] == ':' && tail[3] == ':';
    assert tail[1..3] == ms;
    assert tail[4..] == ss;
    ParseClockParts(s, hs, ms, ss);
  }

  lemma PaddedPart(n: nat, s: string)
    requires s == PadStart2(NatToString(n))
    ensures AllDigits(s) && ParseNat(s) == n && |s| >= 2
    ensures n < 100 ==> |s| == 2
  {
    PadStart2Digits(n);
  }

  /** Padded parts below 60 for minutes and seconds read back to the time they denote. */
  lemma ParsePaddedClock(h: nat, m: nat, sec: nat, hs: string, ms: string, ss: string)
    requires m < 60 && sec < 60
    requires hs == PadStart2(NatToString(h)) && ms == PadStart2(NatToString(m)) && ss == PadStart2(NatToString(sec))
    ensures ParseExamTime(hs + ":" + ms + ":" + ss) == Some(Clock(h, m, sec))
  {
    PaddedPart(h, hs);
    PaddedPart(m, ms);
    PaddedPart(sec, ss);
    ParseClock(hs, ms, ss, h, m, sec);
  }

  /** For non-negative seconds, minutes and seconds take exactly two characters and the text reads back. */
  lemma ExamTimeRoundTrip(seconds: nat)
    ensures ParseExamTime(FormatExamTime(seconds)) == Some(seconds)
  {
    var parts := ExamTimeParts(seconds);
    var hs, ms, ss := PadStart2(NatToString(parts.0)), PadStart2(NatToString(parts.1)), PadStart2(NatToString(parts.2));
    assert FormatExamTime(seconds) == hs + ":" + ms + ":" + ss;
    ParsePaddedClock(parts.0, parts.1, parts.2, hs, ms, ss);
  }
}
