/** The rows the services read and write, and the database state holding them.
    Tables whose rows carry a composite unique key (enrollments, assignment
    submissions, quiz submissions) are keyed by that pair, so a `findUnique`
    on the pair is a map lookup. */
module Entities {
  import opened Wrappers

  datatype Role = STUDENT | LECTURER

  datatype User = User(
    id: int,
    name: string,
    email: string,
    password: string,          // the stored bcrypt hash
    phone: Option<string>,
    role: Role,
    profileImageUrl: Option<string>)

  datatype Course = Course(
    id: int,
    title: string,
    description: string,
    brief: Option<string>,
    code: Option<string>,
    imageUrl: Option<string>,
    lecturerId: int)

  datatype Enrollment = Enrollment(id: int, studentId: int, courseId: int)

  datatype ModuleType = VIDEO | PPT | PDF | OTHER

  datatype CourseModule = CourseModule(
    id: int,
    courseId: int,
    title: string,
    description: Option<string>,
    fileUrl: string,
    fileType: ModuleType)

  datatype Assignment = Assignment(
    id: string,
    courseId: int,
    title: string,
    description: string,
    code: Option<string>,
    brief: Option<string>,
    dueDate: Option<int>)

  datatype Submission = Submission(
    id: string,
    assignmentId: string,
    studentId: int,
    content: string,
    submittedAt: int)

  datatype Question = Question(
    id: string,
    question: string,
    optionA: string,
    optionB: string,
    optionC: string,
    optionD: string,
    correctAnswer: string,
    order: int)

  datatype Quiz = Quiz(
    id: string,
    courseId: int,
    title: string,
    description: Option<string>,
    duration: Option<int>,
    dueDate: Option<int>,
    questions: seq<Question>)

  /** One graded answer; `isCorrect` is fixed when the quiz is submitted. */
  datatype QuizAnswer = QuizAnswer(questionId: string, selectedAnswer: string, isCorrect: bool)

  datatype QuizSubmission = QuizSubmission(
    id: string,
    quizId: string,
    studentId: int,
    score: real,
    correctCount: nat,
    totalQuestions: nat,
    submittedAt: int,
    answers: seq<QuizAnswer>)

  datatype State = State(
    users: map<int, User>,
    courses: map<int, Course>,
    enrollments: map<(int, int), Enrollment>,           // (studentId, courseId)
    modules: map<int, CourseModule>,
    assignments: map<string, Assignment>,
    submissions: map<(string, int), Submission>,        // (assignmentId, studentId)
    quizzes: map<string, Quiz>,
    quizSubmissions: map<(string, int), QuizSubmission>) // (quizId, studentId)

  /** The ownership gate: the course exists and `actor` is its lecturer. A row
      whose course is missing (which the foreign keys rule out) is owned by nobody. */
  predicate OwnsCourse(st: State, courseId: int, actor: int) {
    courseId in st.courses && st.courses[courseId].lecturerId == actor
  }

  /** The enrollment gate: a row exists for (student, course). */
  predicate IsEnrolled(st: State, studentId: int, courseId: int) {
    (studentId, courseId) in st.enrollments
  }

  /** `dueDate && now > dueDate`: a set deadline that has passed. */
  predicate PastDue(dueDate: Option<int>, now: int) {
    dueDate.Some? && now > dueDate.value
  }

  // ---------------------------------------------------------------------
  // Database invariants: primary and unique keys agree with the rows, every
  // foreign key resolves, and e-mail addresses are unique.
  // ---------------------------------------------------------------------

  ghost predicate KeysMatchRows(st: State) {
    && (forall id | id in st.users :: st.users[id].id == id)
    && (forall id | id in st.courses :: st.courses[id].id == id)
    && (forall k | k in st.enrollments ::
          st.enrollments[k].studentId == k.0 && st.enrollments[k].courseId == k.1)
    && (forall id | id in st.modules :: st.modules[id].id == id)
    && (forall id | id in st.assignments :: st.assignments[id].id == id)
    && (forall k | k in st.submissions ::
          st.submissions[k].assignmentId == k.0 && st.submissions[k].studentId == k.1)
    && (forall id | id in st.quizzes :: st.quizzes[id].id == id)
    && (forall k | k in st.quizSubmissions ::
          st.quizSubmissions[k].quizId == k.0 && st.quizSubmissions[k].studentId == k.1)
    && QuizSubmissionIdsUnique(st.quizSubmissions)
    && QuestionIdsUnique(st.quizzes)
  }

  /** `id` is the primary key of a quiz submission: no two rows share it. */
  ghost predicate QuizSubmissionIdsUnique(subs: map<(string, int), QuizSubmission>) {
    forall k1, k2 | k1 in subs && k2 in subs && subs[k1].id == subs[k2].id :: k1 == k2
  }

  /** `id` is the primary key of a question: no two stored questions share
      it, whether they sit in one quiz or in two. */
  ghost predicate QuestionIdsUnique(quizzes: map<string, Quiz>) {
    forall k1, k2, i, j | k1 in quizzes && k2 in quizzes
      && 0 <= i < |quizzes[k1].questions| && 0 <= j < |quizzes[k2].questions|
      && quizzes[k1].questions[i].id == quizzes[k2].questions[j].id :: k1 == k2 && i == j
  }

  /** Some stored question carries this id. */
  ghost predicate HasQuestionId(quizzes: map<string, Quiz>, id: string) {
    exists k, i | k in quizzes && 0 <= i < |quizzes[k].questions| :: quizzes[k].questions[i].id == id
  }

  ghost predicate ReferencesResolve(st: State) {
    && (forall k | k in st.enrollments :: st.enrollments[k].courseId in st.courses)
    && (forall id | id in st.modules :: st.modules[id].courseId in st.courses)
    && (forall id | id in st.assignments :: st.assignments[id].courseId in st.courses)
    && (forall k | k in st.submissions :: st.submissions[k].assignmentId in st.assignments)
    && (forall id | id in st.quizzes :: st.quizzes[id].courseId in st.courses)
    && (forall k | k in st.quizSubmissions :: st.quizSubmissions[k].quizId in st.quizzes)
  }

  ghost predicate EmailsUnique(users: map<int, User>) {
    forall a, b | a in users && b in users && users[a].email == users[b].email :: a == b
  }

  ghost predicate Valid(st: State) {
    KeysMatchRows(st) && ReferencesResolve(st) && EmailsUnique(st.users)
  }

  /** With keys matching rows, "a row with this (student, course)" and "a row
      under the key (student, course)" are the same thing: at most one
      enrollment per pair. */
  ghost predicate OneEnrollmentPerPair(st: State) {
    forall k1, k2 | k1 in st.enrollments && k2 in st.enrollments
      && st.enrollments[k1].studentId == st.enrollments[k2].studentId
      && st.enrollments[k1].courseId == st.enrollments[k2].courseId :: k1 == k2
  }

  ghost predicate OneQuizSubmissionPerPair(st: State) {
    forall k1, k2 | k1 in st.quizSubmissions && k2 in st.quizSubmissions
      && st.quizSubmissions[k1].quizId == st.quizSubmissions[k2].quizId
      && st.quizSubmissions[k1].studentId == st.quizSubmissions[k2].studentId :: k1 == k2
  }

  ghost predicate OneSubmissionPerPair(st: State) {
    forall k1, k2 | k1 in st.submissions && k2 in st.submissions
      && st.submissions[k1].assignmentId == st.submissions[k2].assignmentId
      && st.submissions[k1].studentId == st.submissions[k2].studentId :: k1 == k2
  }

  /** The storage uniqueness constraints follow from the keys matching the rows. */
  lemma ValidHasUniquePairs(st: State)
    requires Valid(st)
    ensures OneEnrollmentPerPair(st)
    ensures OneQuizSubmissionPerPair(st)
    ensures OneSubmissionPerPair(st)
  {
  }
}
