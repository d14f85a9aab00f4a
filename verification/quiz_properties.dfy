/** Properties relating several quiz operations, and worked examples of the
    behaviour the quiz engine promises (or fails to). */
module QuizProperties {
  import opened Wrappers
  import opened Entities
  import opened QuizDtos
  import opened QuizScoring
  import opened Quizzes
  import opened Seqs
  import opened Enrollments

  // ---------------------------------------------------------------------
  // Submission is one-shot.
  // ---------------------------------------------------------------------

  /** Once a submission has gone through, the same student's next submit of
      that quiz fails, whatever the answers: with the deadline still open it
      is the "already submitted" BadRequest, and nothing is written. */
  lemma SecondSubmitFails(st: State, quizId: string, dto: SubmitQuizDto, studentId: int, now: int,
                          submissionId: string, dto2: SubmitQuizDto, now2: int, submissionId2: string)
    requires SubmitQuiz(st, quizId, dto, studentId, now, submissionId).Ok?
    ensures
      var st' := SubmitQuiz(st, quizId, dto, studentId, now, submissionId).value.0;
      var again := SubmitQuiz(st', quizId, dto2, studentId, now2, submissionId2);
      && again.Err?
      && (!PastDue(st.quizzes[quizId].dueDate, now2) ==> again == Err(BadRequest, MsgAlreadySubmitted))
  {
  }

  /** A submission under an id no stored row carries keeps every database
      invariant. */
  lemma SubmitPreservesValid(st: State, quizId: string, dto: SubmitQuizDto, studentId: int, now: int,
                             submissionId: string, st': State, res: SubmitResult)
    requires Valid(st)
    requires !HasSubmissionId(st, submissionId)
    requires SubmitQuiz(st, quizId, dto, studentId, now, submissionId) == Ok((st', res))
    ensures Valid(st')
  {
    var key := (quizId, studentId);
    var sub := st'.quizSubmissions[key];
    assert st' == st.(quizSubmissions := st.quizSubmissions[key := sub]);
    assert sub.id == submissionId && sub.quizId == quizId && sub.studentId == studentId;
    assert quizId in st.quizzes;
    forall k | k in st'.quizSubmissions && k != key ensures st'.quizSubmissions[k].id != submissionId {
      assert st'.quizSubmissions[k] == st.quizSubmissions[k];
    }
    assert QuizSubmissionIdsUnique(st'.quizSubmissions);
  }

  /** After submitting, the student's read of the quiz (deadline still open)
      reports it completed with the stored score. */
  lemma SubmitThenFindOneIsCompleted(st: State, quizId: string, dto: SubmitQuizDto, studentId: int,
                                     now: int, submissionId: string, later: int)
    requires SubmitQuiz(st, quizId, dto, studentId, now, submissionId).Ok?
    requires !PastDue(st.quizzes[quizId].dueDate, later)
    ensures
      var (st', res) := SubmitQuiz(st, quizId, dto, studentId, now, submissionId).value;
      var read := FindOne(st', quizId, studentId, STUDENT, later);
      && read.Ok? && read.value.isCompleted
      && read.value.submission == Some(SubmissionSummary(submissionId, res.score, now))
  {
  }

  /** After submitting, the owner of the course sees the new row among the
      quiz's submissions. */
  lemma SubmitThenVisibleToOwner(st: State, quizId: string, dto: SubmitQuizDto, studentId: int,
                                 now: int, submissionId: string, lecturerId: int)
    requires SubmitQuiz(st, quizId, dto, studentId, now, submissionId).Ok?
    requires OwnsCourse(st, st.quizzes[quizId].courseId, lecturerId)
    ensures
      var st' := SubmitQuiz(st, quizId, dto, studentId, now, submissionId).value.0;
      var listing := GetQuizSubmissions(st', quizId, lecturerId);
      && listing.Ok?
      && st'.quizSubmissions[(quizId, studentId)] in listing.value.submissions
      && listing.value.totalSubmissions >= 1
  {
    var st' := SubmitQuiz(st, quizId, dto, studentId, now, submissionId).value.0;
    var sub := st'.quizSubmissions[(quizId, studentId)];
    assert sub in st'.quizSubmissions.Values;
  }

  // ---------------------------------------------------------------------
  // Scoring.
  // ---------------------------------------------------------------------

  /** With distinct answered question ids the stored count is at most the
      number of questions and the score lies in 0..100. */
  lemma SubmitScoreBounded(st: State, quizId: string, dto: SubmitQuizDto, studentId: int, now: int,
                           submissionId: string, st': State, res: SubmitResult)
    requires SubmitQuiz(st, quizId, dto, studentId, now, submissionId) == Ok((st', res))
    requires Distinct(AnswerIds(dto.answers))
    ensures res.correctCount <= res.totalQuestions
    ensures 0.0 <= res.score <= 100.0
  {
    CorrectCountBounded(st.quizzes[quizId].questions, dto.answers);
  }

  /** The stored count is the number of stored answers flagged correct. */
  lemma SubmitCountsCorrectAnswers(st: State, quizId: string, dto: SubmitQuizDto, studentId: int,
                                   now: int, submissionId: string, st': State, res: SubmitResult)
    requires SubmitQuiz(st, quizId, dto, studentId, now, submissionId) == Ok((st', res))
    ensures (quizId, studentId) in st'.quizSubmissions
    ensures
      var sub := st'.quizSubmissions[(quizId, studentId)];
      sub.correctCount == multiset(Flags(sub.answers))[true]
  {
    CorrectCountIsNumberOfCorrectAnswers(st'.quizSubmissions[(quizId, studentId)].answers);
  }

  /** The submit response is where the student first sees correct answers:
      for every submitted answer, in order, it shows the chosen option, the
      correct answer of the question the answer names, and the stored verdict. */
  lemma SubmitResponseShowsCorrectAnswers(st: State, quizId: string, dto: SubmitQuizDto, studentId: int,
                                          now: int, submissionId: string, st': State, res: SubmitResult)
    requires SubmitQuiz(st, quizId, dto, studentId, now, submissionId) == Ok((st', res))
    ensures quizId in st.quizzes && (quizId, studentId) in st'.quizSubmissions
    ensures |res.answers| == |dto.answers|
    ensures forall j | 0 <= j < |res.answers| ::
      && dto.answers[j].questionId in QuestionIds(st.quizzes[quizId].questions)
      && res.answers[j].selectedAnswer == dto.answers[j].selectedAnswer
      && res.answers[j].correctAnswer
           == FindQuestion(st.quizzes[quizId].questions, dto.answers[j].questionId).value.correctAnswer
      && res.answers[j].isCorrect == st'.quizSubmissions[(quizId, studentId)].answers[j].isCorrect
      && res.answers[j].isCorrect == (res.answers[j].correctAnswer == res.answers[j].selectedAnswer)
  {
  }

  /** Question ids are primary keys, so within a stored quiz they are distinct. */
  lemma StoredQuestionIdsDistinct(st: State, quizId: string)
    requires Valid(st)
    requires quizId in st.quizzes
    ensures Distinct(QuestionIds(st.quizzes[quizId].questions))
  {
    var qs := st.quizzes[quizId].questions;
    forall i, j | 0 <= i < j < |qs| ensures QuestionIds(qs)[i] != QuestionIds(qs)[j] {
      assert QuestionIds(qs)[i] == st.quizzes[quizId].questions[i].id;
      assert QuestionIds(qs)[j] == st.quizzes[quizId].questions[j].id;
    }
  }

  /** In a stored quiz, each answer of a submission is marked correct exactly
      when the question it names has the chosen option as its correct answer. */
  lemma SubmitGradesByNamedQuestion(st: State, quizId: string, dto: SubmitQuizDto, studentId: int,
                                    now: int, submissionId: string, st': State, res: SubmitResult)
    requires Valid(st)
    requires SubmitQuiz(st, quizId, dto, studentId, now, submissionId) == Ok((st', res))
    ensures quizId in st.quizzes && (quizId, studentId) in st'.quizSubmissions
    ensures |st'.quizSubmissions[(quizId, studentId)].answers| == |dto.answers|
    ensures forall j | 0 <= j < |dto.answers| ::
      st'.quizSubmissions[(quizId, studentId)].answers[j].isCorrect <==>
        exists q | q in st.quizzes[quizId].questions && q.id == dto.answers[j].questionId ::
          q.correctAnswer == dto.answers[j].selectedAnswer
  {
    var qs := st.quizzes[quizId].questions;
    var sub := st'.quizSubmissions[(quizId, studentId)];
    StoredQuestionIdsDistinct(st, quizId);
    forall j | 0 <= j < |dto.answers|
      ensures sub.answers[j].isCorrect <==>
        exists q | q in qs && q.id == dto.answers[j].questionId :: q.correctAnswer == dto.answers[j].selectedAnswer
    {
      var a := dto.answers[j];
      var found := FindQuestion(qs, a.questionId).value;
      forall q | q in qs && q.id == a.questionId ensures q == found {
        FindsTheNamedQuestion(qs, q);
      }
    }
  }

  /** The submitting student can then read the new row by its id, and so can
      the lecturer who owns the course. */
  lemma SubmitThenDetailReadable(st: State, quizId: string, dto: SubmitQuizDto, studentId: int,
                                 now: int, submissionId: string, st': State, res: SubmitResult,
                                 lecturerId: int)
    requires !HasSubmissionId(st, submissionId)
    requires SubmitQuiz(st, quizId, dto, studentId, now, submissionId) == Ok((st', res))
    ensures (quizId, studentId) in st'.quizSubmissions
    ensures GetSubmissionDetail(st', submissionId, studentId, STUDENT)
      == Ok(st'.quizSubmissions[(quizId, studentId)])
    ensures OwnsCourse(st, st.quizzes[quizId].courseId, lecturerId) ==>
      GetSubmissionDetail(st', submissionId, lecturerId, LECTURER)
        == Ok(st'.quizSubmissions[(quizId, studentId)])
  {
    var key := (quizId, studentId);
    var sub := st'.quizSubmissions[key];
    assert st' == st.(quizSubmissions := st.quizSubmissions[key := sub]);
    forall k | k in st'.quizSubmissions && k != key ensures st'.quizSubmissions[k].id != submissionId {
      assert st'.quizSubmissions[k] == st.quizSubmissions[k];
    }
    assert HasSubmissionId(st', submissionId) by {
      assert st'.quizSubmissions[key].id == submissionId;
    }
  }

  /** After submitting, the student's quiz list shows the quiz completed,
      with the stored score. */
  lemma SubmitThenListedCompleted(st: State, quizId: string, dto: SubmitQuizDto, studentId: int,
                                  now: int, submissionId: string, st': State, res: SubmitResult)
    requires quizId in st.quizzes && st.quizzes[quizId].id == quizId
    requires SubmitQuiz(st, quizId, dto, studentId, now, submissionId) == Ok((st', res))
    ensures
      var item := StudentItem(st', st'.quizzes[quizId], studentId);
      && item in FindAllForStudent(st', studentId)
      && item.isCompleted
      && item.score == Some(res.score)
  {
  }

  /** Enrolling in a course lists every quiz of that course for the student. */
  lemma EnrollThenQuizzesListed(st: State, studentId: int, courseId: int, enrollmentId: int,
                                st': State, e: Enrollment, quizId: string)
    requires EnrollCourse(st, studentId, courseId, enrollmentId) == Ok((st', e))
    requires quizId in st.quizzes && st.quizzes[quizId].id == quizId
    requires st.quizzes[quizId].courseId == courseId
    ensures StudentItem(st', st.quizzes[quizId], studentId) in FindAllForStudent(st', studentId)
  {
  }

  // ---------------------------------------------------------------------
  // What a student sees does not depend on the correct answers.
  // ---------------------------------------------------------------------

  /** The two question lists agree in everything but `correctAnswer`. */
  predicate SameButAnswers(qs1: seq<Question>, qs2: seq<Question>) {
    && |qs1| == |qs2|
    && forall i | 0 <= i < |qs1| :: qs1[i].(correctAnswer := qs2[i].correctAnswer) == qs2[i]
  }

  /** Redaction forgets exactly the correct answers. */
  lemma RedactIgnoresAnswers(qs1: seq<Question>, qs2: seq<Question>)
    requires SameButAnswers(qs1, qs2)
    ensures RedactAll(qs1) == RedactAll(qs2)
  {
    forall i | 0 <= i < |qs1| ensures RedactAll(qs1)[i] == RedactAll(qs2)[i] {
      assert qs1[i].(correctAnswer := qs2[i].correctAnswer) == qs2[i];
    }
  }

  /** Changing only the correct answers of a quiz changes nothing a student
      reads of it: the student view carries no information about them. */
  lemma StudentReadHidesAnswers(st: State, quizId: string, qs2: seq<Question>, userId: int, now: int)
    requires quizId in st.quizzes
    requires SameButAnswers(st.quizzes[quizId].questions, qs2)
    ensures
      var st2 := st.(quizzes := st.quizzes[quizId := st.quizzes[quizId].(questions := qs2)]);
      FindOne(st, quizId, userId, STUDENT, now) == FindOne(st2, quizId, userId, STUDENT, now)
  {
    RedactIgnoresAnswers(st.quizzes[quizId].questions, qs2);
  }

  // ---------------------------------------------------------------------
  // Creation and reading back.
  // ---------------------------------------------------------------------

  /** A quiz created from a validated request has at least one question, each
      with a correct answer among A..D, so the score's division is defined. */
  lemma ValidCreateHasQuestions(st: State, dto: CreateQuizDto, lecturerId: int, quizId: string,
                                questionIds: seq<string>)
    requires quizId !in st.quizzes && |questionIds| == |dto.questions|
    requires ValidCreateQuizDto(dto)
    requires Create(st, dto, lecturerId, quizId, questionIds).Ok?
    ensures
      var quiz := Create(st, dto, lecturerId, quizId, questionIds).value.0.quizzes[quizId];
      && |quiz.questions| >= 1
      && forall i | 0 <= i < |quiz.questions| :: quiz.questions[i].correctAnswer in AnswerLetters
  {
    var quiz := Create(st, dto, lecturerId, quizId, questionIds).value.0.quizzes[quizId];
    forall i | 0 <= i < |quiz.questions| ensures quiz.questions[i].correctAnswer in AnswerLetters {
      assert ValidQuestionDto(dto.questions[i]);
    }
  }

  /** Creating a quiz under fresh quiz and question ids keeps every database
      invariant. */
  lemma CreatePreservesValid(st: State, dto: CreateQuizDto, lecturerId: int, quizId: string,
                             questionIds: seq<string>)
    requires Valid(st)
    requires quizId !in st.quizzes && |questionIds| == |dto.questions|
    requires Distinct(questionIds)
    requires forall i | 0 <= i < |questionIds| :: !HasQuestionId(st.quizzes, questionIds[i])
    requires Create(st, dto, lecturerId, quizId, questionIds).Ok?
    ensures Valid(Create(st, dto, lecturerId, quizId, questionIds).value.0)
  {
    var st' := Create(st, dto, lecturerId, quizId, questionIds).value.0;
    var qs := st'.quizzes[quizId].questions;
    assert forall k, j, n | k in st.quizzes && 0 <= j < |st.quizzes[k].questions| && 0 <= n < |questionIds| ::
      st.quizzes[k].questions[j].id != questionIds[n];
    forall k1, k2, i, j | k1 in st'.quizzes && k2 in st'.quizzes
      && 0 <= i < |st'.quizzes[k1].questions| && 0 <= j < |st'.quizzes[k2].questions|
      && st'.quizzes[k1].questions[i].id == st'.quizzes[k2].questions[j].id
      ensures k1 == k2 && i == j
    {
      if k1 == quizId || k2 == quizId {
        assert k1 == quizId ==> qs[i].id == questionIds[i];
        assert k2 == quizId ==> qs[j].id == questionIds[j];
      }
    }
  }

  /** What the owner created, the owner reads back: the same quiz, its
      questions put in ascending `order`; an enrolled student reads it as not
      yet completed, with the same questions minus their answers. */
  lemma CreateThenFindOne(st: State, dto: CreateQuizDto, lecturerId: int, quizId: string,
                          questionIds: seq<string>, studentId: int, now: int)
    requires Valid(st)
    requires quizId !in st.quizzes && |questionIds| == |dto.questions|
    requires Create(st, dto, lecturerId, quizId, questionIds).Ok?
    ensures
      var st' := Create(st, dto, lecturerId, quizId, questionIds).value.0;
      var quiz := st'.quizzes[quizId];
      var owner := FindOne(st', quizId, lecturerId, LECTURER, now);
      && owner.Ok?
      && owner.value.quiz.(questions := quiz.questions) == quiz
      && multiset(owner.value.quiz.questions) == multiset(quiz.questions)
    ensures
      var st' := Create(st, dto, lecturerId, quizId, questionIds).value.0;
      var quiz := st'.quizzes[quizId];
      var student := FindOne(st', quizId, studentId, STUDENT, now);
      IsEnrolled(st, studentId, dto.courseId) ==>
        && student.Ok?
        && !student.value.isCompleted
        && multiset(student.value.questions) == multiset(RedactAll(quiz.questions))
  {
    var st' := Create(st, dto, lecturerId, quizId, questionIds).value.0;
    assert (quizId, studentId) !in st'.quizSubmissions by {
      forall k | k in st.quizSubmissions ensures k.0 != quizId {
        assert st.quizSubmissions[k].quizId in st.quizzes;
      }
    }
  }

  // ---------------------------------------------------------------------
  // Update and delete.
  // ---------------------------------------------------------------------

  /** Applying the same edit twice leaves the quiz as applying it once. */
  lemma UpdateIdempotent(st: State, quizId: string, dto: UpdateQuizDto, lecturerId: int)
    requires Update(st, quizId, dto, lecturerId).Ok?
    ensures
      var (st', q') := Update(st, quizId, dto, lecturerId).value;
      var again := Update(st', quizId, dto, lecturerId);
      again.Ok? && again.value == (st', q')
  {
    var (st', q') := Update(st, quizId, dto, lecturerId).value;
    assert ApplyUpdate(q', dto) == q';
    assert st'.quizzes[quizId := q'] == st'.quizzes;
  }

  /** Editing a quiz keeps every database invariant. */
  lemma UpdatePreservesValid(st: State, quizId: string, dto: UpdateQuizDto, lecturerId: int)
    requires Valid(st)
    requires Update(st, quizId, dto, lecturerId).Ok?
    ensures Valid(Update(st, quizId, dto, lecturerId).value.0)
  {
  }

  /** Deleting a quiz keeps every database invariant: its submissions go with it. */
  lemma DeletePreservesValid(st: State, quizId: string, lecturerId: int)
    requires Valid(st)
    requires Delete(st, quizId, lecturerId).Ok?
    ensures Valid(Delete(st, quizId, lecturerId).value.0)
  {
  }

  /** A deleted quiz is gone for every later read. */
  lemma DeleteThenNotFound(st: State, quizId: string, lecturerId: int, userId: int, role: Role, now: int)
    requires Delete(st, quizId, lecturerId).Ok?
    ensures
      var st' := Delete(st, quizId, lecturerId).value.0;
      && FindOne(st', quizId, userId, role, now) == Err(NotFound, MsgQuizNotFound)
      && GetQuizSubmissions(st', quizId, userId) == Err(NotFound, MsgQuizNotFound)
  {
  }

  // ---------------------------------------------------------------------
  // Worked examples.
  // ---------------------------------------------------------------------

  const Q1 := Question("q1", "2 + 2?", "3", "4", "5", "6", "B", 1)
  const Q2 := Question("q2", "3 * 3?", "9", "6", "3", "1", "A", 2)

  /** Course 1 taught by lecturer 10, student 20 enrolled, one two-question quiz. */
  function Classroom(dueDate: Option<int>, enrolled: bool): State {
    State(
      map[10 := User(10, "Lecturer", "l@x", "h", None, LECTURER, None),
          20 := User(20, "Student", "s@x", "h", None, STUDENT, None)],
      map[1 := Course(1, "Algebra", "", None, None, None, 10)],
      if enrolled then map[(20, 1) := Enrollment(5, 20, 1)] else map[],
      map[], map[], map[],
      map["z" := Quiz("z", 1, "Warm-up", None, None, dueDate, [Q1, Q2])],
      map[])
  }

  /** One of two answers right scores 50 with one correct answer; a second
      submission is refused with BadRequest. */
  lemma HalfRightScoresFifty()
    ensures
      var dto := SubmitQuizDto([QuizAnswerDto("q1", "B"), QuizAnswerDto("q2", "C")]);
      var r := SubmitQuiz(Classroom(None, true), "z", dto, 20, 100, "s1");
      && r.Ok?
      && r.value.1.correctCount == 1 && r.value.1.totalQuestions == 2
      && r.value.1.score == 50.0
      && SubmitQuiz(r.value.0, "z", dto, 20, 101, "s2") == Err(BadRequest, MsgAlreadySubmitted)
  {
    var qs := [Q1, Q2];
    var dto := SubmitQuizDto([QuizAnswerDto("q1", "B"), QuizAnswerDto("q2", "C")]);
    assert QuestionIds(qs) == ["q1", "q2"];
    assert AnswerIds(dto.answers) == ["q1", "q2"];
    assert AllAnswered(qs, dto.answers);
    assert FindQuestion(qs, "q1") == Some(Q1);
    assert FindQuestion(qs, "q2") == Some(Q2);
    var graded := Grade(qs, dto.answers);
    assert graded == [QuizAnswer("q1", "B", true), QuizAnswer("q2", "C", false)];
    assert CountCorrect(graded) == 1 by {
      assert graded[1..] == [QuizAnswer("q2", "C", false)];
      assert graded[1..][1..] == [];
    }
  }

  /** Answering the same question twice is accepted and counted twice: one
      question, two correct answers, score 200. */
  lemma DuplicateAnswersScoreTwoHundred()
    ensures
      var st := Classroom(None, true).(quizzes := map["z" := Quiz("z", 1, "Solo", None, None, None, [Q1])]);
      var dto := SubmitQuizDto([QuizAnswerDto("q1", "B"), QuizAnswerDto("q1", "B")]);
      var r := SubmitQuiz(st, "z", dto, 20, 100, "s1");
      && ValidSubmitQuizDto(dto)
      && r.Ok?
      && r.value.1.correctCount == 2 && r.value.1.totalQuestions == 1
      && r.value.1.score == 200.0
  {
    var dto := SubmitQuizDto([QuizAnswerDto("q1", "B"), QuizAnswerDto("q1", "B")]);
    assert QuestionIds([Q1]) == ["q1"];
    assert AnswerIds(dto.answers) == ["q1", "q1"];
    assert FindQuestion([Q1], "q1") == Some(Q1);
    assert AnswerLetters[1] == "B";
    var graded := Grade([Q1], dto.answers);
    assert graded == [QuizAnswer("q1", "B", true), QuizAnswer("q1", "B", true)];
    assert CountCorrect(graded) == 2 by {
      assert graded[1..] == [QuizAnswer("q1", "B", true)];
      assert graded[1..][1..] == [];
    }
  }

  /** A student who is not enrolled, facing a passed deadline, is told "not
      enrolled" by the read but "past the deadline" by the submit: the two
      check these gates in opposite orders. */
  lemma CheckOrderDiffers()
    ensures FindOne(Classroom(Some(50), false), "z", 20, STUDENT, 100) == Err(Forbidden, MsgNotEnrolled)
    ensures ValidSubmitQuizDto(SubmitQuizDto([QuizAnswerDto("q1", "B")]))
    ensures SubmitQuiz(Classroom(Some(50), false), "z", SubmitQuizDto([QuizAnswerDto("q1", "B")]), 20, 100, "s1")
      == Err(Forbidden, MsgPastDeadline)
  {
    assert AnswerLetters[1] == "B";
  }

  /** An unanswered question is reported before an unknown one. */
  lemma MissingBeforeUnknown()
    ensures
      var dto := SubmitQuizDto([QuizAnswerDto("q1", "A"), QuizAnswerDto("q9", "A")]);
      SubmitQuiz(Classroom(None, true), "z", dto, 20, 100, "s1") == Err(BadRequest, MsgAllAnswered)
  {
    assert AnswerIds([QuizAnswerDto("q1", "A"), QuizAnswerDto("q9", "A")]) == ["q1", "q9"];
    assert [Q1, Q2][1].id == "q2";
  }

  /** Two questions may share an `order`: validation looks at each alone. */
  lemma RepeatedOrderIsValid()
    ensures ValidCreateQuizDto(CreateQuizDto("Quiz", None, None, 1, [
      CreateQuestionDto("a?", "1", "2", "3", "4", "A", 1),
      CreateQuestionDto("b?", "1", "2", "3", "4", "D", 1)]))
  {
    assert AnswerLetters[0] == "A" && AnswerLetters[3] == "D";
  }

  /** Submitted answers may name the same question twice and still validate. */
  lemma DuplicateAnswerIdsAreValid()
    ensures
      var dto := SubmitQuizDto([QuizAnswerDto("q1", "A"), QuizAnswerDto("q1", "C")]);
      ValidSubmitQuizDto(dto) && !Distinct(AnswerIds(dto.answers))
  {
    assert AnswerLetters[0] == "A" && AnswerLetters[2] == "C";
    var ids := AnswerIds([QuizAnswerDto("q1", "A"), QuizAnswerDto("q1", "C")]);
    assert ids[0] == ids[1];
  }

  /** What the validators turn away: a correct answer outside A..D, an
      `order` below 1, an empty option, a quiz without questions, a
      submission without answers or with a lower-case letter. */
  lemma ValidatorRejections()
    ensures !ValidQuestionDto(CreateQuestionDto("a?", "1", "2", "3", "4", "E", 1))
    ensures !ValidQuestionDto(CreateQuestionDto("a?", "1", "2", "3", "4", "A", 0))
    ensures !ValidQuestionDto(CreateQuestionDto("a?", "", "2", "3", "4", "A", 1))
    ensures !ValidCreateQuizDto(CreateQuizDto("Quiz", None, None, 1, []))
    ensures !ValidSubmitQuizDto(SubmitQuizDto([]))
    ensures !ValidSubmitQuizDto(SubmitQuizDto([QuizAnswerDto("q1", "a")]))
  {
    assert "E" !in AnswerLetters by {
      forall i | 0 <= i < |AnswerLetters| ensures AnswerLetters[i] != "E" {
        assert AnswerLetters[i][0] != 'E';
      }
    }
    assert "a" !in AnswerLetters by {
      forall i | 0 <= i < |AnswerLetters| ensures AnswerLetters[i] != "a" {
        assert AnswerLetters[i][0] != 'a';
      }
    }
    assert SubmitQuizDto([QuizAnswerDto("q1", "a")]).answers[0].selectedAnswer == "a";
  }
}
