/** The request bodies of the quiz endpoints and the class-validator rules
    attached to them. Validation runs in the request pipe, before a service
    is called; the services do not repeat it. */
module QuizDtos {
  import opened Wrappers

  /** The letters `@IsIn(['A', 'B', 'C', 'D'])` admits. */
  const AnswerLetters: seq<string> := ["A", "B", "C", "D"]

  datatype CreateQuestionDto = CreateQuestionDto(
    question: string,
    optionA: string,
    optionB: string,
    optionC: string,
    optionD: string,
    correctAnswer: string,
    order: int)

  /** Texts non-empty, the correct answer one of the four letters, `order` at
      least 1. Nothing relates one question's `order` to another's. */
  predicate ValidQuestionDto(q: CreateQuestionDto) {
    && q.question != ""
    && q.optionA != "" && q.optionB != "" && q.optionC != "" && q.optionD != ""
    && q.correctAnswer in AnswerLetters
    && q.order >= 1
  }

  datatype CreateQuizDto = CreateQuizDto(
    title: string,
    description: Option<string>,
    duration: Option<int>,   // minutes
    courseId: int,
    questions: seq<CreateQuestionDto>)

  /** A non-empty title and at least one question, each of them valid. The
      optional `description` and `duration` and the integer `courseId` are
      enforced by their types here. */
  predicate ValidCreateQuizDto(d: CreateQuizDto) {
    && d.title != ""
    && |d.questions| >= 1
    && forall i | 0 <= i < |d.questions| :: ValidQuestionDto(d.questions[i])
  }

  /** Every field optional; no validator constrains the values further. */
  datatype UpdateQuizDto = UpdateQuizDto(
    title: Option<string>,
    description: Option<string>,
    duration: Option<int>)

  datatype QuizAnswerDto = QuizAnswerDto(questionId: string, selectedAnswer: string)

  datatype SubmitQuizDto = SubmitQuizDto(answers: seq<QuizAnswerDto>)

  /** At least one answer, each selecting one of the four letters. Nothing
      requires the question ids to be distinct. */
  predicate ValidSubmitQuizDto(d: SubmitQuizDto) {
    && |d.answers| >= 1
    && forall i | 0 <= i < |d.answers| :: d.answers[i].selectedAnswer in AnswerLetters
  }
}
