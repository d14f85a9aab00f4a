/** The assignment service: listings and reads behind the ownership or
    enrollment gate, authoring behind the ownership gate, and a submit that
    checks nothing itself. */
module Assignments {
  import opened Wrappers
  import opened Entities

  const MsgAssignmentNotFound := "Assignment not found"
  const MsgNotYourAssignment := "Not your assignment"
  const MsgCourseNotFound := "Course not found"
  const MsgNotYourCourse := "Not your course"
  const MsgNotEnrolled := "You are not enrolled in this course"
  const MsgDuplicateSubmission := "Unique constraint failed on (assignmentId, studentId)"
  const MsgMissingAssignment := "Foreign key constraint failed on assignmentId"

  /** `dueDate`, `code` and `brief` are accepted by the validators but never
      reach the database. */
  datatype CreateAssignmentDto = CreateAssignmentDto(
    title: string,
    description: string,
    code: Option<string>,
    brief: Option<string>,
    dueDate: Option<int>,
    courseId: int)

  datatype UpdateAssignmentDto = UpdateAssignmentDto(
    title: Option<string>,
    description: Option<string>,
    dueDate: Option<int>,
    code: Option<string>,
    brief: Option<string>)

  datatype SubmitAssignmentDto = SubmitAssignmentDto(content: string)

  /** The student's own submission of one assignment, if any. */
  function OwnSubmission(st: State, assignmentId: string, studentId: int): (r: Option<Submission>)
    ensures r.Some? <==> (assignmentId, studentId) in st.submissions
    ensures r.Some? ==> r.value == st.submissions[(assignmentId, studentId)]
  {
    var key := (assignmentId, studentId);
    if key in st.submissions then Some(st.submissions[key]) else None
  }

  /** All submissions of one assignment. */
  function SubmissionsOf(st: State, assignmentId: string): (r: set<Submission>)
    ensures forall s :: s in r <==> s in st.submissions.Values && s.assignmentId == assignmentId
  {
    set s | s in st.submissions.Values && s.assignmentId == assignmentId
  }

  /** An assignment as a student sees it, marked with their own submission. */
  datatype StudentAssignment = StudentAssignment(
    assignment: Assignment,
    isSubmitted: bool,
    submission: Option<Submission>)

  function StudentItem(st: State, a: Assignment, studentId: int): (r: StudentAssignment)
    ensures r.assignment == a
    ensures r.isSubmitted <==> r.submission.Some?
    ensures r.submission == OwnSubmission(st, a.id, studentId)
  {
    var own := OwnSubmission(st, a.id, studentId);
    StudentAssignment(a, own.Some?, own)
  }

  /** An assignment as its lecturer sees it in a listing, with its number of submissions. */
  datatype LecturerAssignment = LecturerAssignment(assignment: Assignment, submissionCount: nat)

  datatype Listing =
    | LecturerListing(lecturerItems: set<LecturerAssignment>)
    | StudentListing(studentItems: set<StudentAssignment>)

  /** A lecturer gets the assignments of the courses they own; anyone else
      those of the courses they are enrolled in, each with their own
      submission. */
  function FindAll(st: State, userId: int, role: Role): (r: Listing)
    ensures role == LECTURER ==> r.LecturerListing?
    ensures r.LecturerListing? ==>
      && (forall item | item in r.lecturerItems ::
            && item.assignment in st.assignments.Values
            && OwnsCourse(st, item.assignment.courseId, userId)
            && item.submissionCount == |SubmissionsOf(st, item.assignment.id)|)
      && (forall a | a in st.assignments.Values && OwnsCourse(st, a.courseId, userId) ::
            LecturerAssignment(a, |SubmissionsOf(st, a.id)|) in r.lecturerItems)
    ensures role != LECTURER ==> r.StudentListing?
    ensures r.StudentListing? ==>
      && (forall item | item in r.studentItems ::
            && item.assignment in st.assignments.Values
            && IsEnrolled(st, userId, item.assignment.courseId)
            && item == StudentItem(st, item.assignment, userId))
      && (forall a | a in st.assignments.Values && IsEnrolled(st, userId, a.courseId) ::
            StudentItem(st, a, userId) in r.studentItems)
  {
    if role == LECTURER then
      LecturerListing(set a | a in st.assignments.Values && OwnsCourse(st, a.courseId, userId)
        :: LecturerAssignment(a, |SubmissionsOf(st, a.id)|))
    else
      StudentListing(set a | a in st.assignments.Values && IsEnrolled(st, userId, a.courseId)
        :: StudentItem(st, a, userId))
  }

  datatype AssignmentRead =
    | StudentRead(item: StudentAssignment)
    | LecturerRead(assignment: Assignment, totalSubmissions: nat, submissions: set<Submission>)

  /** Reads one assignment. A lecturer must own its course and sees every
      submission; a student must be enrolled and sees their own. */
  function FindOne(st: State, assignmentId: string, userId: int, role: Role): (r: Result<AssignmentRead>)
    ensures assignmentId !in st.assignments ==> r == Err(NotFound, MsgAssignmentNotFound)
    ensures assignmentId in st.assignments ==>
      var a := st.assignments[assignmentId];
      && (role == LECTURER && !OwnsCourse(st, a.courseId, userId) ==> r == Err(Forbidden, MsgNotYourAssignment))
      && (role == STUDENT && !IsEnrolled(st, userId, a.courseId) ==> r == Err(Forbidden, MsgNotEnrolled))
      && (r.Ok? <==> if role == LECTURER then OwnsCourse(st, a.courseId, userId)
                     else IsEnrolled(st, userId, a.courseId))
      && (r.Ok? && role == STUDENT ==>
            && r.value.StudentRead?
            && r.value.item.assignment == a
            && r.value.item.submission == OwnSubmission(st, assignmentId, userId)
            && (r.value.item.isSubmitted <==> (assignmentId, userId) in st.submissions))
      && (r.Ok? && role == LECTURER ==>
            && r.value.LecturerRead?
            && r.value.assignment == a
            && (forall s :: s in r.value.submissions <==> s in st.submissions.Values && s.assignmentId == assignmentId)
            && r.value.totalSubmissions == |r.value.submissions|)
  {
    if assignmentId !in st.assignments then Err(NotFound, MsgAssignmentNotFound)
    else
      var a := st.assignments[assignmentId];
      if role == LECTURER && !OwnsCourse(st, a.courseId, userId) then Err(Forbidden, MsgNotYourAssignment)
      else if role == STUDENT then
        if !IsEnrolled(st, userId, a.courseId) then Err(Forbidden, MsgNotEnrolled)
        else
          var own := OwnSubmission(st, assignmentId, userId);
          Ok(StudentRead(StudentAssignment(a, own.Some?, own)))
      else
        var subs := SubmissionsOf(st, assignmentId);
        Ok(LecturerRead(a, |subs|, subs))
  }

  /** Creates an assignment in a course the lecturer owns. Only the title,
      the description and the course are written. */
  function Create(st: State, dto: CreateAssignmentDto, lecturerId: int, assignmentId: string)
    : (r: Result<(State, Assignment)>)
    requires assignmentId !in st.assignments
    ensures dto.courseId !in st.courses ==> r == Err(NotFound, MsgCourseNotFound)
    ensures dto.courseId in st.courses && st.courses[dto.courseId].lecturerId != lecturerId
      ==> r == Err(Forbidden, MsgNotYourCourse)
    ensures r.Ok? <==> OwnsCourse(st, dto.courseId, lecturerId)
    ensures r.Ok? ==>
      var (st', a) := r.value;
      && st' == st.(assignments := st.assignments[assignmentId := a])
      && a.id == assignmentId && a.courseId == dto.courseId
      && a.title == dto.title && a.description == dto.description
      && a.code.None? && a.brief.None? && a.dueDate.None?
  {
    if dto.courseId !in st.courses then Err(NotFound, MsgCourseNotFound)
    else if st.courses[dto.courseId].lecturerId != lecturerId then Err(Forbidden, MsgNotYourCourse)
    else
      var a := Assignment(assignmentId, dto.courseId, dto.title, dto.description, None, None, None);
      Ok((st.(assignments := st.assignments[assignmentId := a]), a))
  }

  /** Edits an assignment of a course the lecturer owns. Only a supplied
      title or description is written; the other fields the request may
      carry are dropped. */
  function Update(st: State, assignmentId: string, dto: UpdateAssignmentDto, lecturerId: int)
    : (r: Result<(State, Assignment)>)
    ensures assignmentId !in st.assignments ==> r == Err(NotFound, MsgAssignmentNotFound)
    ensures assignmentId in st.assignments && !OwnsCourse(st, st.assignments[assignmentId].courseId, lecturerId)
      ==> r == Err(Forbidden, MsgNotYourAssignment)
    ensures r.Ok? <==> (assignmentId in st.assignments
      && OwnsCourse(st, st.assignments[assignmentId].courseId, lecturerId))
    ensures r.Ok? ==>
      var (st', a') := r.value;
      var a := st.assignments[assignmentId];
      && st' == st.(assignments := st.assignments[assignmentId := a'])
      && a'.title == (if dto.title.Some? then dto.title.value else a.title)
      && a'.description == (if dto.description.Some? then dto.description.value else a.description)
      && a'.(title := a.title, description := a.description) == a
  {
    if assignmentId !in st.assignments then Err(NotFound, MsgAssignmentNotFound)
    else
      var a := st.assignments[assignmentId];
      if !OwnsCourse(st, a.courseId, lecturerId) then Err(Forbidden, MsgNotYourAssignment)
      else
        var a' := a.(title := if dto.title.Some? then dto.title.value else a.title,
                     description := if dto.description.Some? then dto.description.value else a.description);
        Ok((st.(assignments := st.assignments[assignmentId := a']), a'))
  }

  /** Deletes an assignment of a course the lecturer owns, with its submissions. */
  function Remove(st: State, assignmentId: string, lecturerId: int): (r: Result<(State, Assignment)>)
    ensures assignmentId !in st.assignments ==> r == Err(NotFound, MsgAssignmentNotFound)
    ensures assignmentId in st.assignments && !OwnsCourse(st, st.assignments[assignmentId].courseId, lecturerId)
      ==> r == Err(Forbidden, MsgNotYourAssignment)
    ensures r.Ok? <==> (assignmentId in st.assignments
      && OwnsCourse(st, st.assignments[assignmentId].courseId, lecturerId))
    ensures r.Ok? ==>
      var (st', a) := r.value;
      && a == st.assignments[assignmentId]
      && st'.assignments == st.assignments - {assignmentId}
      && (forall k :: k in st'.submissions <==> k in st.submissions && st.submissions[k].assignmentId != assignmentId)
      && (forall k | k in st'.submissions :: st'.submissions[k] == st.submissions[k])
      && st'.(assignments := st.assignments, submissions := st.submissions) == st
  {
    if assignmentId !in st.assignments then Err(NotFound, MsgAssignmentNotFound)
    else if !OwnsCourse(st, st.assignments[assignmentId].courseId, lecturerId) then
      Err(Forbidden, MsgNotYourAssignment)
    else
      var subs := map k | k in st.submissions && st.submissions[k].assignmentId != assignmentId :: st.submissions[k];
      Ok((st.(assignments := st.assignments - {assignmentId}, submissions := subs), st.assignments[assignmentId]))
  }

  /** Stores a submission. The service checks neither that the assignment
      exists, nor that the student is enrolled, nor that they submitted
      before; only the storage layer's unique key and foreign key refuse
      the write. */
  function Submit(st: State, assignmentId: string, dto: SubmitAssignmentDto, studentId: int, now: int,
                  submissionId: string): (r: Result<(State, Submission)>)
    ensures (assignmentId, studentId) in st.submissions ==> r.Err? && r.kind == StorageError
    ensures assignmentId !in st.assignments ==> r.Err? && r.kind == StorageError
    ensures r.Ok? <==> assignmentId in st.assignments && (assignmentId, studentId) !in st.submissions
    ensures r.Ok? ==>
      var (st', s) := r.value;
      && st' == st.(submissions := st.submissions[(assignmentId, studentId) := s])
      && s == Submission(submissionId, assignmentId, studentId, dto.content, now)
  {
    if (assignmentId, studentId) in st.submissions then Err(StorageError, MsgDuplicateSubmission)
    else if assignmentId !in st.assignments then Err(StorageError, MsgMissingAssignment)
    else
      var s := Submission(submissionId, assignmentId, studentId, dto.content, now);
      Ok((st.(submissions := st.submissions[(assignmentId, studentId) := s]), s))
  }

  /** The assignments of one course for an enrolled student, each with their
      own submission. */
  function GetStudentAssignments(st: State, courseId: int, studentId: int): (r: Result<set<StudentAssignment>>)
    ensures !IsEnrolled(st, studentId, courseId) ==> r == Err(Forbidden, MsgNotEnrolled)
    ensures r.Ok? <==> IsEnrolled(st, studentId, courseId)
    ensures r.Ok? ==>
      && (forall item | item in r.value ::
            && item.assignment in st.assignments.Values
            && item.assignment.courseId == courseId
            && item == StudentItem(st, item.assignment, studentId))
      && (forall a | a in st.assignments.Values && a.courseId == courseId ::
            StudentItem(st, a, studentId) in r.value)
  {
    if !IsEnrolled(st, studentId, courseId) then Err(Forbidden, MsgNotEnrolled)
    else Ok(set a | a in st.assignments.Values && a.courseId == courseId :: StudentItem(st, a, studentId))
  }

  datatype AssignmentSubmissions = AssignmentSubmissions(
    assignment: Assignment,
    totalSubmissions: nat,
    submissions: set<Submission>)

  /** Every submission of an assignment of a course the lecturer owns. */
  function GetAssignmentSubmissions(st: State, assignmentId: string, lecturerId: int)
    : (r: Result<AssignmentSubmissions>)
    ensures assignmentId !in st.assignments ==> r == Err(NotFound, MsgAssignmentNotFound)
    ensures assignmentId in st.assignments && !OwnsCourse(st, st.assignments[assignmentId].courseId, lecturerId)
      ==> r == Err(Forbidden, MsgNotYourAssignment)
    ensures r.Ok? <==> (assignmentId in st.assignments
      && OwnsCourse(st, st.assignments[assignmentId].courseId, lecturerId))
    ensures r.Ok? ==>
      && r.value.assignment == st.assignments[assignmentId]
      && (forall s :: s in r.value.submissions <==> s in st.submissions.Values && s.assignmentId == assignmentId)
      && r.value.totalSubmissions == |r.value.submissions|
  {
    if assignmentId !in st.assignments then Err(NotFound, MsgAssignmentNotFound)
    else if !OwnsCourse(st, st.assignments[assignmentId].courseId, lecturerId) then
      Err(Forbidden, MsgNotYourAssignment)
    else
      var subs := SubmissionsOf(st, assignmentId);
      Ok(AssignmentSubmissions(st.assignments[assignmentId], |subs|, subs))
  }
}
