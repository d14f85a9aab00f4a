/** Properties of the assignment operations: the invariants they keep, the
    unchecked submit, and how the key lookup used for "the student's
    submission" matches the source's filter-and-take-first. */
module AssignmentProperties {
  import opened Wrappers
  import opened Entities
  import opened Assignments

  /** Under the invariants, the student's submissions of an assignment,
      filtered by row fields as the listing query does, are exactly the one
      found under the (assignment, student) key, or none; so "the first of
      them" is that one. */
  lemma OwnSubmissionIsTheFilteredOne(st: State, assignmentId: string, studentId: int)
    requires KeysMatchRows(st)
    ensures
      var filtered := set s | s in st.submissions.Values && s.assignmentId == assignmentId && s.studentId == studentId;
      var own := OwnSubmission(st, assignmentId, studentId);
      filtered == (if own.Some? then {own.value} else {})
  {
    var filtered := set s | s in st.submissions.Values && s.assignmentId == assignmentId && s.studentId == studentId;
    forall s | s in filtered ensures (assignmentId, studentId) in st.submissions && s == st.submissions[(assignmentId, studentId)] {
      var k :| k in st.submissions && st.submissions[k] == s;
    }
    if (assignmentId, studentId) in st.submissions {
      assert st.submissions[(assignmentId, studentId)] in st.submissions.Values;
    }
  }

  /** Submitting needs no enrollment: a student with no enrollment at all
      submits to an existing assignment. */
  lemma SubmitChecksNoEnrollment()
    ensures
      var st := State(map[], map[1 := Course(1, "Algebra", "", None, None, None, 10)], map[], map[],
        map["a1" := Assignment("a1", 1, "Homework", "", None, None, None)], map[], map[], map[]);
      && !IsEnrolled(st, 20, 1)
      && Submit(st, "a1", SubmitAssignmentDto("answer"), 20, 100, "s1").Ok?
  {
  }

  /** A second submit by the same student is refused by the storage key, not
      by the service. */
  lemma SecondSubmitRejectedByStorage(st: State, assignmentId: string, dto: SubmitAssignmentDto, studentId: int,
                                      now: int, submissionId: string, dto2: SubmitAssignmentDto, now2: int,
                                      submissionId2: string)
    requires Submit(st, assignmentId, dto, studentId, now, submissionId).Ok?
    ensures
      var st' := Submit(st, assignmentId, dto, studentId, now, submissionId).value.0;
      var again := Submit(st', assignmentId, dto2, studentId, now2, submissionId2);
      again.Err? && again.kind == StorageError
  {
  }

  /** A submission becomes the student's own submission in every later read. */
  lemma SubmitThenSubmitted(st: State, assignmentId: string, dto: SubmitAssignmentDto, studentId: int,
                            now: int, submissionId: string)
    requires Submit(st, assignmentId, dto, studentId, now, submissionId).Ok?
    requires IsEnrolled(st, studentId, st.assignments[assignmentId].courseId)
    ensures
      var (st', s) := Submit(st, assignmentId, dto, studentId, now, submissionId).value;
      var read := FindOne(st', assignmentId, studentId, STUDENT);
      && read.Ok? && read.value.item.isSubmitted
      && read.value.item.submission == Some(s)
  {
  }

  lemma SubmitPreservesValid(st: State, assignmentId: string, dto: SubmitAssignmentDto, studentId: int,
                             now: int, submissionId: string)
    requires Valid(st)
    requires Submit(st, assignmentId, dto, studentId, now, submissionId).Ok?
    ensures Valid(Submit(st, assignmentId, dto, studentId, now, submissionId).value.0)
  {
  }

  lemma CreatePreservesValid(st: State, dto: CreateAssignmentDto, lecturerId: int, assignmentId: string)
    requires Valid(st) && assignmentId !in st.assignments
    requires Create(st, dto, lecturerId, assignmentId).Ok?
    ensures Valid(Create(st, dto, lecturerId, assignmentId).value.0)
  {
  }

  lemma UpdatePreservesValid(st: State, assignmentId: string, dto: UpdateAssignmentDto, lecturerId: int)
    requires Valid(st)
    requires Update(st, assignmentId, dto, lecturerId).Ok?
    ensures Valid(Update(st, assignmentId, dto, lecturerId).value.0)
  {
  }

  /** Applying the same edit twice leaves the assignment as applying it once. */
  lemma UpdateIdempotent(st: State, assignmentId: string, dto: UpdateAssignmentDto, lecturerId: int)
    requires Update(st, assignmentId, dto, lecturerId).Ok?
    ensures
      var (st', a') := Update(st, assignmentId, dto, lecturerId).value;
      Update(st', assignmentId, dto, lecturerId) == Ok((st', a'))
  {
    var (st', a') := Update(st, assignmentId, dto, lecturerId).value;
    assert st'.assignments[assignmentId := a'] == st'.assignments;
  }

  lemma RemovePreservesValid(st: State, assignmentId: string, lecturerId: int)
    requires Valid(st)
    requires Remove(st, assignmentId, lecturerId).Ok?
    ensures Valid(Remove(st, assignmentId, lecturerId).value.0)
  {
    var st' := Remove(st, assignmentId, lecturerId).value.0;
    forall k | k in st'.submissions ensures st'.submissions[k].assignmentId in st'.assignments {
      assert st.submissions[k].assignmentId in st.assignments;
    }
  }

  /** The per-course student listing is the part of the student's overall
      listing that belongs to that course. */
  lemma CourseListingInOverallListing(st: State, courseId: int, studentId: int, role: Role)
    requires role == STUDENT
    requires GetStudentAssignments(st, courseId, studentId).Ok?
    ensures
      var all := FindAll(st, studentId, role);
      var course := GetStudentAssignments(st, courseId, studentId).value;
      forall item | item in course :: item in all.studentItems
  {
  }

  /** A stored submission shows up in the owning lecturer's submission list
      of the assignment. */
  lemma SubmitThenVisibleToOwner(st: State, assignmentId: string, dto: SubmitAssignmentDto, studentId: int,
                                 now: int, submissionId: string, st': State, s: Submission, lecturerId: int)
    requires Submit(st, assignmentId, dto, studentId, now, submissionId) == Ok((st', s))
    requires OwnsCourse(st, st.assignments[assignmentId].courseId, lecturerId)
    ensures
      var listing := GetAssignmentSubmissions(st', assignmentId, lecturerId);
      && listing.Ok?
      && s in listing.value.submissions
      && listing.value.totalSubmissions >= 1
  {
    assert st'.submissions[(assignmentId, studentId)] == s;
    assert s in st'.submissions.Values;
  }
}
