/** The quiz service: authoring by the owning lecturer, reading with the
    correct answers hidden from students, one-shot submission with scoring,
    and the submission reads. The wall clock is the parameter `now`; ids the
    database would generate are parameters too. */
module Quizzes {
  import opened Wrappers
  import opened Entities
  import opened QuizDtos
  import opened QuizScoring
  import opened Sorting

  const MsgCourseNotFound := "Course not found"
  const MsgNotYourCourse := "Not your course"
  const MsgQuizNotFound := "Quiz not found"
  const MsgNotYourQuiz := "Not your quiz"
  const MsgNotEnrolled := "You are not enrolled in this course"
  const MsgPastDeadline := "Quiz sudah melewati deadline dan tidak bisa dikerjakan"
  const MsgAlreadySubmitted := "You have already submitted this quiz"
  const MsgAllAnswered := "All questions must be answered"
  const MsgSubmissionNotFound := "Submission not found"
  const MsgNotYourSubmission := "Not your submission"

  // ---------------------------------------------------------------------
  // What a student may see of a question.
  // ---------------------------------------------------------------------

  /** A question without its correct answer: the field does not exist, so no
      view built from it can carry the answer. */
  datatype QuestionView = QuestionView(
    id: string,
    question: string,
    optionA: string,
    optionB: string,
    optionC: string,
    optionD: string,
    order: int)

  function Redact(q: Question): QuestionView {
    QuestionView(q.id, q.question, q.optionA, q.optionB, q.optionC, q.optionD, q.order)
  }

  function RedactAll(qs: seq<Question>): (r: seq<QuestionView>)
    ensures |r| == |qs| && forall i | 0 <= i < |qs| :: r[i] == Redact(qs[i])
  {
    seq(|qs|, i requires 0 <= i < |qs| => Redact(qs[i]))
  }

  function QuestionOrder(q: Question): int { q.order }
  function ViewOrder(v: QuestionView): int { v.order }

  /** The row a question DTO becomes, under the id the database gives it. */
  function QuestionFromDto(d: CreateQuestionDto, id: string): Question {
    Question(id, d.question, d.optionA, d.optionB, d.optionC, d.optionD, d.correctAnswer, d.order)
  }

  /** Every field of the DTO is copied into the stored question. */
  predicate CopiesDto(q: Question, d: CreateQuestionDto) {
    && q.question == d.question
    && q.optionA == d.optionA && q.optionB == d.optionB
    && q.optionC == d.optionC && q.optionD == d.optionD
    && q.correctAnswer == d.correctAnswer
    && q.order == d.order
  }

  // ---------------------------------------------------------------------
  // create
  // ---------------------------------------------------------------------

  datatype CreatedQuiz = CreatedQuiz(
    id: string,
    title: string,
    description: Option<string>,
    duration: Option<int>,
    courseId: int,
    questions: seq<QuestionView>)

  /** Creates a quiz and all its questions at once for a course the lecturer owns. */
  function Create(st: State, dto: CreateQuizDto, lecturerId: int, quizId: string, questionIds: seq<string>)
    : (r: Result<(State, CreatedQuiz)>)
    requires quizId !in st.quizzes
    requires |questionIds| == |dto.questions|
    ensures dto.courseId !in st.courses ==> r == Err(NotFound, MsgCourseNotFound)
    ensures dto.courseId in st.courses && st.courses[dto.courseId].lecturerId != lecturerId
      ==> r == Err(Forbidden, MsgNotYourCourse)
    ensures r.Ok? <==> OwnsCourse(st, dto.courseId, lecturerId)
    ensures r.Ok? ==>
      var (st', view) := r.value;
      && quizId in st'.quizzes
      && st' == st.(quizzes := st.quizzes[quizId := st'.quizzes[quizId]])
      && var quiz := st'.quizzes[quizId];
      && quiz.courseId == dto.courseId && quiz.title == dto.title
      && quiz.description == dto.description && quiz.duration == dto.duration
      && quiz.dueDate.None?
      && |quiz.questions| == |dto.questions|
      && (forall i | 0 <= i < |dto.questions| ::
            quiz.questions[i].id == questionIds[i] && CopiesDto(quiz.questions[i], dto.questions[i]))
      && view == CreatedQuiz(quizId, dto.title, dto.description, dto.duration, dto.courseId, view.questions)
      && SortedBy(view.questions, ViewOrder)
      && multiset(view.questions) == multiset(RedactAll(quiz.questions))
  {
    if dto.courseId !in st.courses then Err(NotFound, MsgCourseNotFound)
    else if st.courses[dto.courseId].lecturerId != lecturerId then Err(Forbidden, MsgNotYourCourse)
    else
      var questions := seq(|dto.questions|, i requires 0 <= i < |dto.questions| =>
        QuestionFromDto(dto.questions[i], questionIds[i]));
      var quiz := Quiz(quizId, dto.courseId, dto.title, dto.description, dto.duration, None, questions);
      var view := CreatedQuiz(quizId, dto.title, dto.description, dto.duration, dto.courseId,
        SortBy(RedactAll(questions), ViewOrder));
      Ok((st.(quizzes := st.quizzes[quizId := quiz]), view))
  }

  // ---------------------------------------------------------------------
  // findOne
  // ---------------------------------------------------------------------

  datatype SubmissionSummary = SubmissionSummary(id: string, score: real, submittedAt: int)

  datatype QuizRead =
    | StudentView(
        id: string,
        title: string,
        description: Option<string>,
        duration: Option<int>,
        courseId: int,
        questions: seq<QuestionView>,
        isCompleted: bool,
        submission: Option<SubmissionSummary>)
    | OwnerView(quiz: Quiz)

  function Summary(s: QuizSubmission): SubmissionSummary {
    SubmissionSummary(s.id, s.score, s.submittedAt)
  }

  /** Reads a quiz. A student must be enrolled (checked first) and within the
      deadline, and sees the questions without answers; any other role must
      own the course and sees the whole quiz. Questions come ascending by `order`. */
  function FindOne(st: State, quizId: string, userId: int, role: Role, now: int): (r: Result<QuizRead>)
    ensures quizId !in st.quizzes ==> r == Err(NotFound, MsgQuizNotFound)
    ensures quizId in st.quizzes && role == STUDENT ==>
      var quiz := st.quizzes[quizId];
      && (!IsEnrolled(st, userId, quiz.courseId) ==> r == Err(Forbidden, MsgNotEnrolled))
      && ((IsEnrolled(st, userId, quiz.courseId) && PastDue(quiz.dueDate, now))
            ==> r == Err(Forbidden, MsgPastDeadline))
      && (r.Ok? <==> IsEnrolled(st, userId, quiz.courseId) && !PastDue(quiz.dueDate, now))
      && (r.Ok? ==>
            && r.value.StudentView?
            && r.value.id == quiz.id
            && r.value.title == quiz.title && r.value.description == quiz.description
            && r.value.duration == quiz.duration && r.value.courseId == quiz.courseId
            && SortedBy(r.value.questions, ViewOrder)
            && multiset(r.value.questions) == multiset(RedactAll(quiz.questions))
            && (r.value.isCompleted <==> (quizId, userId) in st.quizSubmissions)
            && (r.value.submission.Some? <==> r.value.isCompleted)
            && (r.value.isCompleted ==>
                  r.value.submission.value == Summary(st.quizSubmissions[(quizId, userId)])))
    ensures quizId in st.quizzes && role != STUDENT ==>
      var quiz := st.quizzes[quizId];
      && (r.Ok? <==> OwnsCourse(st, quiz.courseId, userId))
      && (r.Err? ==> r == Err(Forbidden, MsgNotYourQuiz))
      && (r.Ok? ==>
            && r.value.OwnerView?
            && r.value.quiz.(questions := quiz.questions) == quiz
            && SortedBy(r.value.quiz.questions, QuestionOrder)
            && multiset(r.value.quiz.questions) == multiset(quiz.questions))
  {
    if quizId !in st.quizzes then Err(NotFound, MsgQuizNotFound)
    else
      var quiz := st.quizzes[quizId];
      if role == STUDENT then
        if !IsEnrolled(st, userId, quiz.courseId) then Err(Forbidden, MsgNotEnrolled)
        else if PastDue(quiz.dueDate, now) then Err(Forbidden, MsgPastDeadline)
        else
          var key := (quizId, userId);
          var completed := key in st.quizSubmissions;
          Ok(StudentView(quiz.id, quiz.title, quiz.description, quiz.duration, quiz.courseId,
            SortBy(RedactAll(quiz.questions), ViewOrder),
            completed,
            if completed then Some(Summary(st.quizSubmissions[key])) else None))
      else if !OwnsCourse(st, quiz.courseId, userId) then
        Err(Forbidden, MsgNotYourQuiz)
      else Ok(OwnerView(quiz.(questions := SortBy(quiz.questions, QuestionOrder))))
  }

  // ---------------------------------------------------------------------
  // update, delete
  // ---------------------------------------------------------------------

  /** `title` is written only when truthy, `description` and `duration` only
      when supplied. */
  function ApplyUpdate(q: Quiz, dto: UpdateQuizDto): Quiz {
    q.(title := if Truthy(dto.title) then dto.title.value else q.title,
       description := if dto.description.Some? then dto.description else q.description,
       duration := if dto.duration.Some? then dto.duration else q.duration)
  }

  /** Edits a quiz of a course the lecturer owns. */
  function Update(st: State, quizId: string, dto: UpdateQuizDto, lecturerId: int): (r: Result<(State, Quiz)>)
    ensures quizId !in st.quizzes ==> r == Err(NotFound, MsgQuizNotFound)
    ensures quizId in st.quizzes && !OwnsCourse(st, st.quizzes[quizId].courseId, lecturerId)
      ==> r == Err(Forbidden, MsgNotYourQuiz)
    ensures r.Ok? <==> quizId in st.quizzes && OwnsCourse(st, st.quizzes[quizId].courseId, lecturerId)
    ensures r.Ok? ==>
      var (st', q') := r.value;
      var q := st.quizzes[quizId];
      && st' == st.(quizzes := st.quizzes[quizId := q'])
      && (Truthy(dto.title) ==> q'.title == dto.title.value)
      && (!Truthy(dto.title) ==> q'.title == q.title)
      && q'.description == (if dto.description.Some? then dto.description else q.description)
      && q'.duration == (if dto.duration.Some? then dto.duration else q.duration)
      && q'.(title := q.title, description := q.description, duration := q.duration) == q
  {
    if quizId !in st.quizzes then Err(NotFound, MsgQuizNotFound)
    else if !OwnsCourse(st, st.quizzes[quizId].courseId, lecturerId) then Err(Forbidden, MsgNotYourQuiz)
    else
      var q' := ApplyUpdate(st.quizzes[quizId], dto);
      Ok((st.(quizzes := st.quizzes[quizId := q']), q'))
  }

  /** Quiz submissions that do not belong to the quiz. */
  function SubmissionsNotOf(subs: map<(string, int), QuizSubmission>, quizId: string)
    : (r: map<(string, int), QuizSubmission>)
    ensures forall k :: k in r <==> k in subs && subs[k].quizId != quizId
    ensures forall k | k in r :: r[k] == subs[k]
  {
    map k | k in subs && subs[k].quizId != quizId :: subs[k]
  }

  /** Deletes a quiz of a course the lecturer owns, with its submissions. */
  function Delete(st: State, quizId: string, lecturerId: int): (r: Result<(State, Quiz)>)
    ensures quizId !in st.quizzes ==> r == Err(NotFound, MsgQuizNotFound)
    ensures quizId in st.quizzes && !OwnsCourse(st, st.quizzes[quizId].courseId, lecturerId)
      ==> r == Err(Forbidden, MsgNotYourQuiz)
    ensures r.Ok? <==> quizId in st.quizzes && OwnsCourse(st, st.quizzes[quizId].courseId, lecturerId)
    ensures r.Ok? ==>
      var (st', deleted) := r.value;
      && deleted == st.quizzes[quizId]
      && st'.quizzes.Keys == st.quizzes.Keys - {quizId}
      && (forall id | id in st'.quizzes :: st'.quizzes[id] == st.quizzes[id])
      && (forall k | k in st'.quizSubmissions :: st'.quizSubmissions[k].quizId != quizId)
      && st'.(quizzes := st.quizzes, quizSubmissions := st.quizSubmissions) == st
  {
    if quizId !in st.quizzes then Err(NotFound, MsgQuizNotFound)
    else if !OwnsCourse(st, st.quizzes[quizId].courseId, lecturerId) then Err(Forbidden, MsgNotYourQuiz)
    else
      Ok((st.(quizzes := st.quizzes - {quizId},
              quizSubmissions := SubmissionsNotOf(st.quizSubmissions, quizId)),
          st.quizzes[quizId]))
  }

  // ---------------------------------------------------------------------
  // submitQuiz
  // ---------------------------------------------------------------------

  /** One answer as the submitting student sees it afterwards, correct answer included. */
  datatype AnswerReview = AnswerReview(
    question: string,
    optionA: string,
    optionB: string,
    optionC: string,
    optionD: string,
    selectedAnswer: string,
    correctAnswer: string,
    isCorrect: bool)

  datatype SubmitResult = SubmitResult(
    id: string,
    quizId: string,
    quizTitle: string,
    score: real,
    correctCount: nat,
    totalQuestions: nat,
    submittedAt: int,
    answers: seq<AnswerReview>)

  function Review(qs: seq<Question>, a: QuizAnswer): AnswerReview
    requires a.questionId in QuestionIds(qs)
  {
    var q := FindQuestion(qs, a.questionId).value;
    AnswerReview(q.question, q.optionA, q.optionB, q.optionC, q.optionD,
      a.selectedAnswer, q.correctAnswer, a.isCorrect)
  }

  function ReviewAll(qs: seq<Question>, graded: seq<QuizAnswer>): (r: seq<AnswerReview>)
    requires forall j | 0 <= j < |graded| :: graded[j].questionId in QuestionIds(qs)
    ensures |r| == |graded| && forall j | 0 <= j < |graded| :: r[j] == Review(qs, graded[j])
  {
    seq(|graded|, j requires 0 <= j < |graded| => Review(qs, graded[j]))
  }

  /** The stored row records the answers graded against the quiz. */
  predicate GradedAgainst(sub: QuizSubmission, qs: seq<Question>, answers: seq<QuizAnswerDto>) {
    && |sub.answers| == |answers|
    && (forall j | 0 <= j < |answers| ::
          && sub.answers[j].questionId == answers[j].questionId
          && sub.answers[j].selectedAnswer == answers[j].selectedAnswer
          && answers[j].questionId in QuestionIds(qs)
          && sub.answers[j].isCorrect
               == (FindQuestion(qs, answers[j].questionId).value.correctAnswer == answers[j].selectedAnswer))
    && sub.correctCount == CountCorrect(sub.answers)
    && sub.totalQuestions == |qs|
    && sub.score == Percent(sub.correctCount, sub.totalQuestions)
  }

  /** Submits a student's answers. The checks run in a fixed order and the
      first failing one decides the error: quiz missing, deadline passed, not
      enrolled, already submitted, a question left unanswered, an answer for
      a question the quiz lacks. Only when all pass is one submission row
      written, under the key (quiz, student). Repeated question ids are not
      rejected. */
  function SubmitQuiz(st: State, quizId: string, dto: SubmitQuizDto, studentId: int, now: int,
                      submissionId: string): (r: Result<(State, SubmitResult)>)
    ensures quizId !in st.quizzes ==> r == Err(NotFound, MsgQuizNotFound)
    ensures quizId in st.quizzes ==>
      var quiz := st.quizzes[quizId];
      && (PastDue(quiz.dueDate, now) ==> r == Err(Forbidden, MsgPastDeadline))
      && ((!PastDue(quiz.dueDate, now) && !IsEnrolled(st, studentId, quiz.courseId))
            ==> r == Err(Forbidden, MsgNotEnrolled))
      && ((!PastDue(quiz.dueDate, now) && IsEnrolled(st, studentId, quiz.courseId)
             && (quizId, studentId) in st.quizSubmissions)
            ==> r == Err(BadRequest, MsgAlreadySubmitted))
      && ((!PastDue(quiz.dueDate, now) && IsEnrolled(st, studentId, quiz.courseId)
             && (quizId, studentId) !in st.quizSubmissions && !AllAnswered(quiz.questions, dto.answers))
            ==> r == Err(BadRequest, MsgAllAnswered))
      && ((!PastDue(quiz.dueDate, now) && IsEnrolled(st, studentId, quiz.courseId)
             && (quizId, studentId) !in st.quizSubmissions && AllAnswered(quiz.questions, dto.answers)
             && !AllKnown(quiz.questions, dto.answers))
            ==> r == Err(BadRequest, "Question " + FirstUnknown(quiz.questions, dto.answers).value + " not found"))
      && (!AllKnown(quiz.questions, dto.answers) ==> r.Err?)
    ensures r.Err? ==> r.kind in {NotFound, Forbidden, BadRequest}
    ensures r.Ok? ==>
      var (st', res) := r.value;
      var quiz := st.quizzes[quizId];
      var key := (quizId, studentId);
      && quizId in st.quizzes
      && !PastDue(quiz.dueDate, now)
      && IsEnrolled(st, studentId, quiz.courseId)
      && key !in st.quizSubmissions
      && AllAnswered(quiz.questions, dto.answers)
      && AllKnown(quiz.questions, dto.answers)
      && key in st'.quizSubmissions
      && st' == st.(quizSubmissions := st.quizSubmissions[key := st'.quizSubmissions[key]])
      && var sub := st'.quizSubmissions[key];
      && sub.id == submissionId && sub.quizId == quizId && sub.studentId == studentId
      && sub.submittedAt == now
      && GradedAgainst(sub, quiz.questions, dto.answers)
      && res == SubmitResult(submissionId, quizId, quiz.title, sub.score, sub.correctCount,
                             sub.totalQuestions, now, ReviewAll(quiz.questions, sub.answers))
  {
    if quizId !in st.quizzes then Err(NotFound, MsgQuizNotFound)
    else
      var quiz := st.quizzes[quizId];
      if PastDue(quiz.dueDate, now) then Err(Forbidden, MsgPastDeadline)
      else if !IsEnrolled(st, studentId, quiz.courseId) then Err(Forbidden, MsgNotEnrolled)
      else if (quizId, studentId) in st.quizSubmissions then Err(BadRequest, MsgAlreadySubmitted)
      else if !AllAnswered(quiz.questions, dto.answers) then Err(BadRequest, MsgAllAnswered)
      else match FirstUnknown(quiz.questions, dto.answers)
        case Some(id) => Err(BadRequest, "Question " + id + " not found")
        case None =>
          var graded := Grade(quiz.questions, dto.answers);
          var correct := CountCorrect(graded);
          var total := |quiz.questions|;
          var sub := QuizSubmission(submissionId, quizId, studentId, Percent(correct, total),
            correct, total, now, graded);
          Ok((st.(quizSubmissions := st.quizSubmissions[(quizId, studentId) := sub]),
              SubmitResult(submissionId, quizId, quiz.title, sub.score, correct, total, now,
                ReviewAll(quiz.questions, graded))))
  }

  // ---------------------------------------------------------------------
  // submission reads
  // ---------------------------------------------------------------------

  datatype QuizSubmissions = QuizSubmissions(
    quizId: string,
    title: string,
    description: Option<string>,
    totalSubmissions: nat,
    submissions: set<QuizSubmission>)

  /** Lists every submission of a quiz of a course the lecturer owns. */
  function GetQuizSubmissions(st: State, quizId: string, lecturerId: int): (r: Result<QuizSubmissions>)
    ensures quizId !in st.quizzes ==> r == Err(NotFound, MsgQuizNotFound)
    ensures quizId in st.quizzes && !OwnsCourse(st, st.quizzes[quizId].courseId, lecturerId)
      ==> r == Err(Forbidden, MsgNotYourQuiz)
    ensures r.Ok? <==> quizId in st.quizzes && OwnsCourse(st, st.quizzes[quizId].courseId, lecturerId)
    ensures r.Ok? ==>
      && r.value.quizId == quizId
      && r.value.title == st.quizzes[quizId].title
      && r.value.description == st.quizzes[quizId].description
      && (forall s :: s in r.value.submissions <==> s in st.quizSubmissions.Values && s.quizId == quizId)
      && r.value.totalSubmissions == |r.value.submissions|
  {
    if quizId !in st.quizzes then Err(NotFound, MsgQuizNotFound)
    else if !OwnsCourse(st, st.quizzes[quizId].courseId, lecturerId) then Err(Forbidden, MsgNotYourQuiz)
    else
      var quiz := st.quizzes[quizId];
      var subs := set s | s in st.quizSubmissions.Values && s.quizId == quizId;
      Ok(QuizSubmissions(quizId, quiz.title, quiz.description, |subs|, subs))
  }

  /** Some stored quiz submission carries this id. */
  predicate HasSubmissionId(st: State, submissionId: string) {
    exists k | k in st.quizSubmissions :: st.quizSubmissions[k].id == submissionId
  }

  /** Reads one quiz submission by its id. A student may read only their own;
      a lecturer only one of a quiz of a course they own. */
  ghost function GetSubmissionDetail(st: State, submissionId: string, userId: int, role: Role)
    : (r: Result<QuizSubmission>)
    ensures !HasSubmissionId(st, submissionId) ==> r == Err(NotFound, MsgSubmissionNotFound)
    ensures r.Ok? ==>
      && r.value in st.quizSubmissions.Values
      && r.value.id == submissionId
      && (role == STUDENT ==> r.value.studentId == userId)
      && (role == LECTURER ==>
            r.value.quizId in st.quizzes && OwnsCourse(st, st.quizzes[r.value.quizId].courseId, userId))
    ensures r.Err? && HasSubmissionId(st, submissionId) ==> r.kind == Forbidden
    ensures HasSubmissionId(st, submissionId) && role == STUDENT
      && (forall k | k in st.quizSubmissions && st.quizSubmissions[k].id == submissionId ::
            st.quizSubmissions[k].studentId == userId)
      ==> r.Ok?
    ensures HasSubmissionId(st, submissionId) && role == LECTURER
      && (forall k | k in st.quizSubmissions && st.quizSubmissions[k].id == submissionId ::
            && st.quizSubmissions[k].quizId in st.quizzes
            && OwnsCourse(st, st.quizzes[st.quizSubmissions[k].quizId].courseId, userId))
      ==> r.Ok?
  {
    if !HasSubmissionId(st, submissionId) then Err(NotFound, MsgSubmissionNotFound)
    else
      var k :| k in st.quizSubmissions && st.quizSubmissions[k].id == submissionId;
      var sub := st.quizSubmissions[k];
      if role == STUDENT && sub.studentId != userId then Err(Forbidden, MsgNotYourSubmission)
      else if role == LECTURER
        && !(sub.quizId in st.quizzes && OwnsCourse(st, st.quizzes[sub.quizId].courseId, userId)) then
        Err(Forbidden, MsgNotYourQuiz)
      else Ok(sub)
  }

  // ---------------------------------------------------------------------
  // findAllForStudent
  // ---------------------------------------------------------------------

  datatype StudentQuizItem = StudentQuizItem(
    id: string,
    title: string,
    courseId: int,
    questionCount: nat,
    isCompleted: bool,
    score: Option<real>,
    deadline: Option<int>)

  function StudentItem(st: State, quiz: Quiz, studentId: int): StudentQuizItem {
    var key := (quiz.id, studentId);
    var completed := key in st.quizSubmissions;
    StudentQuizItem(quiz.id, quiz.title, quiz.courseId, |quiz.questions|, completed,
      if completed then Some(st.quizSubmissions[key].score) else None,
      quiz.dueDate)
  }

  /** The quizzes of every course the student is enrolled in, each marked
      with whether the student has submitted it and the score if so. */
  function FindAllForStudent(st: State, studentId: int): (r: set<StudentQuizItem>)
    ensures forall item | item in r ::
      && item.id in st.quizzes
      && item == StudentItem(st, st.quizzes[item.id], studentId)
      && item.title == st.quizzes[item.id].title
      && IsEnrolled(st, studentId, st.quizzes[item.id].courseId)
      && item.courseId == st.quizzes[item.id].courseId
      && item.questionCount == |st.quizzes[item.id].questions|
      && (item.isCompleted <==> (item.id, studentId) in st.quizSubmissions)
      && (item.score.Some? <==> item.isCompleted)
      && (item.isCompleted ==> item.score.value == st.quizSubmissions[(item.id, studentId)].score)
      && item.deadline == st.quizzes[item.id].dueDate
    ensures forall id | id in st.quizzes && st.quizzes[id].id == id
        && IsEnrolled(st, studentId, st.quizzes[id].courseId) ::
      StudentItem(st, st.quizzes[id], studentId) in r
  {
    set id | id in st.quizzes && IsEnrolled(st, studentId, st.quizzes[id].courseId)
      && st.quizzes[id].id == id :: StudentItem(st, st.quizzes[id], studentId)
  }
}
