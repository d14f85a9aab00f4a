/** Properties relating the course operations to each other and to the
    database invariants. */
module CourseProperties {
  import opened Wrappers
  import opened Entities
  import opened Courses
  import Users

  /** The creator owns the new course: it reads back as created, and the
      creator passes its ownership gate. */
  lemma CreateThenOwned(st: State, dto: CreateCourseDto, lecturerId: int, file: Option<UploadedFile>,
                        courseId: int, edit: UpdateCourseDto)
    requires courseId !in st.courses
    ensures
      var (st', c) := Create(st, dto, lecturerId, file, courseId);
      && FindOne(st', courseId) == Ok(c)
      && OwnsCourse(st', courseId, lecturerId)
      && Update(st', courseId, edit, lecturerId).Ok?
  {
  }

  lemma CreatePreservesValid(st: State, dto: CreateCourseDto, lecturerId: int, file: Option<UploadedFile>,
                             courseId: int)
    requires Valid(st) && courseId !in st.courses
    ensures Valid(Create(st, dto, lecturerId, file, courseId).0)
  {
  }

  /** Applying the same edit twice leaves the course as applying it once. */
  lemma UpdateIdempotent(st: State, courseId: int, dto: UpdateCourseDto, lecturerId: int)
    requires Update(st, courseId, dto, lecturerId).Ok?
    ensures
      var (st', c') := Update(st, courseId, dto, lecturerId).value;
      Update(st', courseId, dto, lecturerId) == Ok((st', c'))
  {
    var (st', c') := Update(st, courseId, dto, lecturerId).value;
    assert ApplyUpdate(c', dto) == c';
    assert st'.courses[courseId := c'] == st'.courses;
  }

  lemma UpdatePreservesValid(st: State, courseId: int, dto: UpdateCourseDto, lecturerId: int)
    requires Valid(st)
    requires Update(st, courseId, dto, lecturerId).Ok?
    ensures Valid(Update(st, courseId, dto, lecturerId).value.0)
  {
  }

  /** Removing a course leaves no row pointing at a missing row. */
  lemma RemovePreservesValid(st: State, courseId: int, lecturerId: int)
    requires Valid(st)
    requires Remove(st, courseId, lecturerId).Ok?
    ensures Valid(Remove(st, courseId, lecturerId).value.0)
  {
    var st' := Remove(st, courseId, lecturerId).value.0;
    assert ReferencesResolve(st') by {
      forall k | k in st'.enrollments ensures st'.enrollments[k].courseId in st'.courses {
        assert st.enrollments[k].courseId in st.courses;
      }
      forall id | id in st'.modules ensures st'.modules[id].courseId in st'.courses {
        assert st.modules[id].courseId in st.courses;
      }
      forall id | id in st'.assignments ensures st'.assignments[id].courseId in st'.courses {
        assert st.assignments[id].courseId in st.courses;
      }
      forall id | id in st'.quizzes ensures st'.quizzes[id].courseId in st'.courses {
        assert st.quizzes[id].courseId in st.courses;
      }
    }
  }

  /** A removed course is gone for every later read. */
  lemma RemoveThenNotFound(st: State, courseId: int, lecturerId: int, userId: int, role: Role)
    requires Remove(st, courseId, lecturerId).Ok?
    ensures
      var st' := Remove(st, courseId, lecturerId).value.0;
      && FindOne(st', courseId) == Err(NotFound, MsgCourseNotFound)
      && GetModules(st', courseId, userId, role) == Err(NotFound, MsgCourseNotFound)
  {
  }

  /** A module added to a course shows up in the owner's listing of it. */
  lemma AddModuleThenListed(st: State, courseId: int, dto: CreateCourseModuleDto, lecturerId: int,
                            file: Option<UploadedFile>, moduleId: int)
    requires moduleId !in st.modules
    requires AddModule(st, courseId, dto, lecturerId, file, moduleId).Ok?
    ensures
      var (st', m) := AddModule(st, courseId, dto, lecturerId, file, moduleId).value;
      var listing := GetModules(st', courseId, lecturerId, LECTURER);
      listing.Ok? && m in listing.value
  {
    var (st', m) := AddModule(st, courseId, dto, lecturerId, file, moduleId).value;
    assert st'.modules[moduleId] == m;
  }

  lemma AddModulePreservesValid(st: State, courseId: int, dto: CreateCourseModuleDto, lecturerId: int,
                                file: Option<UploadedFile>, moduleId: int)
    requires Valid(st) && moduleId !in st.modules
    requires AddModule(st, courseId, dto, lecturerId, file, moduleId).Ok?
    ensures Valid(AddModule(st, courseId, dto, lecturerId, file, moduleId).value.0)
  {
  }

  /** A lecturer's course count grows by one with each course they create. */
  lemma CreateCountsForLecturer(st: State, dto: CreateCourseDto, lecturerId: int, file: Option<UploadedFile>,
                                courseId: int)
    requires courseId !in st.courses
    requires lecturerId in st.users && st.users[lecturerId].role == LECTURER
    ensures
      var st' := Create(st, dto, lecturerId, file, courseId).0;
      && Users.GetLecturerDetail(st, lecturerId).Ok?
      && Users.GetLecturerDetail(st', lecturerId).Ok?
      && Users.GetLecturerDetail(st', lecturerId).value.courseCount
           == Users.GetLecturerDetail(st, lecturerId).value.courseCount + 1
  {
    var (st', c) := Create(st, dto, lecturerId, file, courseId);
    TaughtAfterInsert(st, st', lecturerId, c);
  }

  /** Adding a course row of the lecturer under a fresh id adds exactly that
      id to the courses they teach. */
  lemma TaughtAfterInsert(st: State, st': State, lecturerId: int, c: Course)
    requires c.id !in st.courses && c.lecturerId == lecturerId
    requires st'.courses == st.courses[c.id := c]
    ensures Users.CoursesTaughtBy(st', lecturerId) == Users.CoursesTaughtBy(st, lecturerId) + {c.id}
    ensures |Users.CoursesTaughtBy(st', lecturerId)| == |Users.CoursesTaughtBy(st, lecturerId)| + 1
  {
    var before := Users.CoursesTaughtBy(st, lecturerId);
    var after := Users.CoursesTaughtBy(st', lecturerId);
    forall id ensures id in after <==> id in before + {c.id} {
    }
    assert after == before + {c.id};
    assert c.id !in before;
  }

  /** The global validation pipe rejects properties the request classes do
      not declare, and neither course request class declares `brief`. So a
      request that reaches the service has no `brief`: creation stores none
      and an edit keeps whatever the row had. */
  lemma WhitelistedRequestsLeaveBriefAlone(st: State, dto: CreateCourseDto, lecturerId: int,
                                           file: Option<UploadedFile>, courseId: int, edit: UpdateCourseDto)
    requires courseId !in st.courses
    requires dto.brief.None? && edit.brief.None?
    ensures Create(st, dto, lecturerId, file, courseId).1.brief.None?
    ensures forall id | id in st.courses && OwnsCourse(st, id, lecturerId) ::
      Update(st, id, edit, lecturerId).Ok? && Update(st, id, edit, lecturerId).value.1.brief == st.courses[id].brief
  {
  }
}
