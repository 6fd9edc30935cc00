// Data shapes of the study application (src/types/index.ts).
// Dates are integer millisecond timestamps; JS numbers that only ever hold
// whole values are `int`.
module Types {

  datatype Option<+T> = None | Some(value: T)

  /** The three topic fields of the examination, in declaration order. */
  datatype ExamField = Strategy | Management | Technology {
    /** Position of the field in the enum (and in every per-field object literal). */
    function Ordinal(): (n: nat)
      ensures n < 3
    {
      match this
      case Strategy => 0
      case Management => 1
      case Technology => 2
    }
  }

  /** `Object.values(ExamField)`: every field, in enum order. */
  const AllFields: seq<ExamField> := [Strategy, Management, Technology]

  lemma AllFieldsInOrder()
    ensures |AllFields| == 3
    ensures forall f: ExamField :: f in AllFields && AllFields[f.Ordinal()] == f
  {
    forall f: ExamField ensures f in AllFields && AllFields[f.Ordinal()] == f {
      match f
      case Strategy =>
      case Management =>
      case Technology =>
    }
  }

  /** An object literal keyed by the three fields, e.g. `{ strategy: 0, management: 0, technology: 0 }`. */
  datatype FieldTable<T> = FieldTable(strategy: T, management: T, technology: T) {
    function Get(f: ExamField): T {
      match f
      case Strategy => strategy
      case Management => management
      case Technology => technology
    }
  }

  datatype Question = Question(
    id: string,
    field: ExamField,
    category: string,
    question: string,
    options: seq<string>,
    correctAnswer: int,
    explanation: string,
    keyPoints: seq<string>,
    references: Option<seq<string>>)

  datatype AnswerRecord = AnswerRecord(
    questionId: string,
    selectedAnswer: int,
    isCorrect: bool,
    timestamp: int,
    timeSpent: int)

  datatype FieldProgress = FieldProgress(
    totalQuestions: int,
    answeredQuestions: int,
    correctAnswers: int,
    accuracy: int,
    weakCategories: seq<string>)

  datatype StudyProgress = StudyProgress(
    totalQuestions: int,
    answeredQuestions: int,
    correctAnswers: int,
    fieldProgress: FieldTable<FieldProgress>,
    studyTime: int,
    lastStudied: int)

  datatype MockExamResult = MockExamResult(
    id: string,
    date: int,
    score: int,
    totalQuestions: int,
    correctAnswers: int,
    timeSpent: int,
    fieldScores: FieldTable<int>,
    passed: bool,
    answers: seq<AnswerRecord>)
}
