/** The enrollment ledger: a student joins a course at most once; students
    list their enrollments and lecturers the enrollments of a course they own. */
module Enrollments {
  import opened Wrappers
  import opened Entities

  const MsgCourseNotFound := "Course not found"
  const MsgAlreadyEnrolled := "Already enrolled"
  const MsgNotAllowedView := "You are not allowed to view this course"

  /** Enrolls a student in an existing course, once. A repeat is a
      BadRequest, not a conflict. */
  function EnrollCourse(st: State, studentId: int, courseId: int, enrollmentId: int): (r: Result<(State, Enrollment)>)
    ensures courseId !in st.courses ==> r == Err(NotFound, MsgCourseNotFound)
    ensures courseId in st.courses && IsEnrolled(st, studentId, courseId) ==> r == Err(BadRequest, MsgAlreadyEnrolled)
    ensures r.Ok? <==> courseId in st.courses && !IsEnrolled(st, studentId, courseId)
    ensures r.Ok? ==>
      var (st', e) := r.value;
      && e == Enrollment(enrollmentId, studentId, courseId)
      && st' == st.(enrollments := st.enrollments[(studentId, courseId) := e])
      && st'.enrollments.Keys == st.enrollments.Keys + {(studentId, courseId)}
  {
    if courseId !in st.courses then Err(NotFound, MsgCourseNotFound)
    else if IsEnrolled(st, studentId, courseId) then Err(BadRequest, MsgAlreadyEnrolled)
    else
      var e := Enrollment(enrollmentId, studentId, courseId);
      Ok((st.(enrollments := st.enrollments[(studentId, courseId) := e]), e))
  }

  /** A student's enrollments, whatever course they are in. */
  function GetStudentEnrollments(st: State, studentId: int): (r: set<Enrollment>)
    ensures forall e :: e in r <==> e in st.enrollments.Values && e.studentId == studentId
  {
    set e | e in st.enrollments.Values && e.studentId == studentId
  }

  /** The enrollments of a course, for the lecturer who owns it. */
  function GetStudentsByCourse(st: State, courseId: int, lecturerId: int): (r: Result<set<Enrollment>>)
    ensures courseId !in st.courses ==> r == Err(NotFound, MsgCourseNotFound)
    ensures courseId in st.courses && st.courses[courseId].lecturerId != lecturerId
      ==> r == Err(Forbidden, MsgNotAllowedView)
    ensures r.Ok? <==> OwnsCourse(st, courseId, lecturerId)
    ensures r.Ok? ==> forall e :: e in r.value <==> e in st.enrollments.Values && e.courseId == courseId
  {
    if courseId !in st.courses then Err(NotFound, MsgCourseNotFound)
    else if st.courses[courseId].lecturerId != lecturerId then Err(Forbidden, MsgNotAllowedView)
    else Ok(set e | e in st.enrollments.Values && e.courseId == courseId)
  }

  /** Enrolling keeps every database invariant, and with it the rule of at
      most one enrollment per (student, course). */
  lemma EnrollPreservesValid(st: State, studentId: int, courseId: int, enrollmentId: int)
    requires Valid(st)
    requires EnrollCourse(st, studentId, courseId, enrollmentId).Ok?
    ensures Valid(EnrollCourse(st, studentId, courseId, enrollmentId).value.0)
    ensures OneEnrollmentPerPair(EnrollCourse(st, studentId, courseId, enrollmentId).value.0)
  {
    ValidHasUniquePairs(EnrollCourse(st, studentId, courseId, enrollmentId).value.0);
  }

  /** A successful enrollment adds exactly one row. */
  lemma EnrollAddsOneRow(st: State, studentId: int, courseId: int, enrollmentId: int)
    requires EnrollCourse(st, studentId, courseId, enrollmentId).Ok?
    ensures |EnrollCourse(st, studentId, courseId, enrollmentId).value.0.enrollments| == |st.enrollments| + 1
  {
  }

  /** Enrolling twice in a row fails the second time and changes nothing. */
  lemma EnrollTwiceFails(st: State, studentId: int, courseId: int, id1: int, id2: int)
    requires EnrollCourse(st, studentId, courseId, id1).Ok?
    ensures
      var st' := EnrollCourse(st, studentId, courseId, id1).value.0;
      EnrollCourse(st', studentId, courseId, id2) == Err(BadRequest, MsgAlreadyEnrolled)
  {
  }

  /** After enrolling, the student passes the enrollment gate and the new row
      is among both the student's and (for the owner) the course's enrollments. */
  lemma EnrollThenListed(st: State, studentId: int, courseId: int, enrollmentId: int)
    requires EnrollCourse(st, studentId, courseId, enrollmentId).Ok?
    ensures
      var (st', e) := EnrollCourse(st, studentId, courseId, enrollmentId).value;
      var owner := st.courses[courseId].lecturerId;
      && IsEnrolled(st', studentId, courseId)
      && e in GetStudentEnrollments(st', studentId)
      && GetStudentsByCourse(st', courseId, owner).Ok?
      && e in GetStudentsByCourse(st', courseId, owner).value
  {
    var (st', e) := EnrollCourse(st, studentId, courseId, enrollmentId).value;
    assert st'.enrollments[(studentId, courseId)] == e;
  }

  /** Enrollment is per course: enrolling in one course opens no other. */
  lemma EnrollOpensOnlyThatCourse(st: State, studentId: int, courseId: int, enrollmentId: int,
                                  otherStudent: int, otherCourse: int)
    requires EnrollCourse(st, studentId, courseId, enrollmentId).Ok?
    requires (otherStudent, otherCourse) != (studentId, courseId)
    ensures
      var st' := EnrollCourse(st, studentId, courseId, enrollmentId).value.0;
      IsEnrolled(st', otherStudent, otherCourse) <==> IsEnrolled(st, otherStudent, otherCourse)
  {
  }
}
