/** The course service: reading a course, the lecturer's course and module
    authoring behind the ownership gate, and the module listing behind the
    ownership or enrollment gate. */
module Courses {
  import opened Wrappers
  import opened Entities
  import opened Text

  const MsgCourseNotFound := "Course not found"
  const MsgNotAllowedUpdate := "You are not allowed to update this course"
  const MsgNotAllowedDelete := "You are not allowed to delete this course"
  const MsgNotAllowedModify := "You are not allowed to modify this course"
  const MsgModuleFileRequired := "Module file is required"
  const MsgNotYourCourse := "Not your course"
  const MsgNotEnrolled := "You are not enrolled in this course"

  const CourseImageDir := "/uploads/courses/"
  const ModuleFileDir := "/uploads/modules/"

  /** The part of an uploaded file the services read: the stored name multer
      gave it and the MIME type the client declared. */
  datatype UploadedFile = UploadedFile(filename: string, mimetype: string)

  /** `brief` is not declared on the request classes, but the service copies
      it whenever it arrives in the body. */
  datatype CreateCourseDto = CreateCourseDto(
    title: string,
    description: string,
    code: Option<string>,
    brief: Option<string>)

  /** Every field optional; an absent one is left alone by the database. */
  datatype UpdateCourseDto = UpdateCourseDto(
    title: Option<string>,
    description: Option<string>,
    brief: Option<string>,
    code: Option<string>)

  datatype CreateCourseModuleDto = CreateCourseModuleDto(title: string, description: Option<string>)

  /** Reads one course. */
  function FindOne(st: State, courseId: int): (r: Result<Course>)
    ensures r.Err? <==> courseId !in st.courses
    ensures r.Err? ==> r == Err(NotFound, MsgCourseNotFound)
    ensures r.Ok? ==> r.value in st.courses.Values && r.value == st.courses[courseId]
  {
    if courseId !in st.courses then Err(NotFound, MsgCourseNotFound) else Ok(st.courses[courseId])
  }

  /** Where a stored course image is served. */
  function ImageUrl(file: Option<UploadedFile>): (r: Option<string>)
    ensures r.Some? <==> file.Some?
    ensures r.Some? ==> StartsWith(r.value, CourseImageDir) && r.value[|CourseImageDir|..] == file.value.filename
  {
    if file.None? then None
    else
      StripPrefix(CourseImageDir, file.value.filename);
      Some(CourseImageDir + file.value.filename)
  }

  /** Creates a course owned by the acting lecturer, with the uploaded image if any. */
  function Create(st: State, dto: CreateCourseDto, lecturerId: int, file: Option<UploadedFile>,
                  courseId: int): (r: (State, Course))
    requires courseId !in st.courses
    ensures var (st', c) := r;
      && st' == st.(courses := st.courses[courseId := c])
      && c.id == courseId && c.lecturerId == lecturerId
      && c.title == dto.title && c.description == dto.description
      && c.code == dto.code && c.brief == dto.brief
      && c.imageUrl == ImageUrl(file)
  {
    var c := Course(courseId, dto.title, dto.description, dto.brief, dto.code, ImageUrl(file), lecturerId);
    (st.(courses := st.courses[courseId := c]), c)
  }

  /** `undefined` in a Prisma `data` object leaves the column unchanged. */
  function Keep<T>(supplied: Option<T>, current: T): T {
    if supplied.Some? then supplied.value else current
  }

  function ApplyUpdate(c: Course, dto: UpdateCourseDto): Course {
    c.(title := Keep(dto.title, c.title),
       description := Keep(dto.description, c.description),
       brief := if dto.brief.Some? then dto.brief else c.brief,
       code := if dto.code.Some? then dto.code else c.code)
  }

  /** Edits a course its lecturer owns. */
  function Update(st: State, courseId: int, dto: UpdateCourseDto, lecturerId: int): (r: Result<(State, Course)>)
    ensures courseId !in st.courses ==> r == Err(NotFound, MsgCourseNotFound)
    ensures courseId in st.courses && st.courses[courseId].lecturerId != lecturerId
      ==> r == Err(Forbidden, MsgNotAllowedUpdate)
    ensures r.Ok? <==> OwnsCourse(st, courseId, lecturerId)
    ensures r.Ok? ==>
      var (st', c') := r.value;
      var c := st.courses[courseId];
      && st' == st.(courses := st.courses[courseId := c'])
      && c'.title == (if dto.title.Some? then dto.title.value else c.title)
      && c'.description == (if dto.description.Some? then dto.description.value else c.description)
      && c'.brief == (if dto.brief.Some? then dto.brief else c.brief)
      && c'.code == (if dto.code.Some? then dto.code else c.code)
      && c'.id == c.id && c'.imageUrl == c.imageUrl && c'.lecturerId == c.lecturerId
  {
    if courseId !in st.courses then Err(NotFound, MsgCourseNotFound)
    else if st.courses[courseId].lecturerId != lecturerId then Err(Forbidden, MsgNotAllowedUpdate)
    else
      var c' := ApplyUpdate(st.courses[courseId], dto);
      Ok((st.(courses := st.courses[courseId := c']), c'))
  }

  /** The state without the course and everything hanging off it: its
      enrollments, modules, assignments with their submissions, and quizzes
      with their submissions. */
  function WithoutCourse(st: State, courseId: int): (st': State)
    ensures st'.users == st.users
    ensures st'.courses == st.courses - {courseId}
    ensures forall k :: k in st'.enrollments <==> k in st.enrollments && st.enrollments[k].courseId != courseId
    ensures forall id :: id in st'.modules <==> id in st.modules && st.modules[id].courseId != courseId
    ensures forall id :: id in st'.assignments <==> id in st.assignments && st.assignments[id].courseId != courseId
    ensures forall id :: id in st'.quizzes <==> id in st.quizzes && st.quizzes[id].courseId != courseId
    ensures forall k :: k in st'.submissions <==>
      k in st.submissions && st.submissions[k].assignmentId in st'.assignments
    ensures forall k :: k in st'.quizSubmissions <==>
      k in st.quizSubmissions && st.quizSubmissions[k].quizId in st'.quizzes
    ensures forall k | k in st'.enrollments :: st'.enrollments[k] == st.enrollments[k]
    ensures forall id | id in st'.modules :: st'.modules[id] == st.modules[id]
    ensures forall id | id in st'.assignments :: st'.assignments[id] == st.assignments[id]
    ensures forall id | id in st'.quizzes :: st'.quizzes[id] == st.quizzes[id]
    ensures forall k | k in st'.submissions :: st'.submissions[k] == st.submissions[k]
    ensures forall k | k in st'.quizSubmissions :: st'.quizSubmissions[k] == st.quizSubmissions[k]
  {
    var assignments := map id | id in st.assignments && st.assignments[id].courseId != courseId
      :: st.assignments[id];
    var quizzes := map id | id in st.quizzes && st.quizzes[id].courseId != courseId :: st.quizzes[id];
    State(
      st.users,
      st.courses - {courseId},
      map k | k in st.enrollments && st.enrollments[k].courseId != courseId :: st.enrollments[k],
      map id | id in st.modules && st.modules[id].courseId != courseId :: st.modules[id],
      assignments,
      map k | k in st.submissions && st.submissions[k].assignmentId in assignments :: st.submissions[k],
      quizzes,
      map k | k in st.quizSubmissions && st.quizSubmissions[k].quizId in quizzes :: st.quizSubmissions[k])
  }

  /** Deletes a course its lecturer owns; its dependants go with it. */
  function Remove(st: State, courseId: int, lecturerId: int): (r: Result<(State, Course)>)
    ensures courseId !in st.courses ==> r == Err(NotFound, MsgCourseNotFound)
    ensures courseId in st.courses && st.courses[courseId].lecturerId != lecturerId
      ==> r == Err(Forbidden, MsgNotAllowedDelete)
    ensures r.Ok? <==> OwnsCourse(st, courseId, lecturerId)
    ensures r.Ok? ==> r.value.1 == st.courses[courseId] && courseId !in r.value.0.courses
    ensures r.Ok? ==> r.value.0 == WithoutCourse(st, courseId)
  {
    if courseId !in st.courses then Err(NotFound, MsgCourseNotFound)
    else if st.courses[courseId].lecturerId != lecturerId then Err(Forbidden, MsgNotAllowedDelete)
    else Ok((WithoutCourse(st, courseId), st.courses[courseId]))
  }

  // ---------------------------------------------------------------------
  // Modules.
  // ---------------------------------------------------------------------

  /** The module type of an uploaded file, by the first rule that applies:
      a video type, then anything mentioning powerpoint, then anything
      mentioning pdf. */
  function ResolveModuleType(mime: string): (t: ModuleType)
    ensures t == VIDEO <==> StartsWith(mime, "video/")
    ensures t == PPT <==> !StartsWith(mime, "video/") && Contains(mime, "powerpoint")
    ensures t == PDF <==> !StartsWith(mime, "video/") && !Contains(mime, "powerpoint") && Contains(mime, "pdf")
    ensures t == OTHER <==> !StartsWith(mime, "video/") && !Contains(mime, "powerpoint") && !Contains(mime, "pdf")
  {
    if StartsWith(mime, "video/") then VIDEO
    else if Contains(mime, "powerpoint") then PPT
    else if Contains(mime, "pdf") then PDF
    else OTHER
  }

  /** Where a stored module file is served. */
  function ModuleFileUrl(filename: string): (r: string)
    ensures StartsWith(r, ModuleFileDir) && r[|ModuleFileDir|..] == filename
  {
    StripPrefix(ModuleFileDir, filename);
    ModuleFileDir + filename
  }

  /** Adds a module with its uploaded file to a course the lecturer owns. The
      missing file is reported only after the ownership check. */
  function AddModule(st: State, courseId: int, dto: CreateCourseModuleDto, lecturerId: int,
                     file: Option<UploadedFile>, moduleId: int): (r: Result<(State, CourseModule)>)
    requires moduleId !in st.modules
    ensures courseId !in st.courses ==> r == Err(NotFound, MsgCourseNotFound)
    ensures courseId in st.courses && st.courses[courseId].lecturerId != lecturerId
      ==> r == Err(Forbidden, MsgNotAllowedModify)
    ensures OwnsCourse(st, courseId, lecturerId) && file.None? ==> r == Err(BadRequest, MsgModuleFileRequired)
    ensures r.Ok? <==> OwnsCourse(st, courseId, lecturerId) && file.Some?
    ensures r.Ok? ==>
      var (st', m) := r.value;
      && st' == st.(modules := st.modules[moduleId := m])
      && m.id == moduleId && m.courseId == courseId
      && m.title == dto.title && m.description == dto.description
      && m.fileUrl == ModuleFileUrl(file.value.filename)
      && m.fileType == ResolveModuleType(file.value.mimetype)
  {
    if courseId !in st.courses then Err(NotFound, MsgCourseNotFound)
    else if st.courses[courseId].lecturerId != lecturerId then Err(Forbidden, MsgNotAllowedModify)
    else if file.None? then Err(BadRequest, MsgModuleFileRequired)
    else
      var m := CourseModule(moduleId, courseId, dto.title, dto.description,
        ModuleFileUrl(file.value.filename), ResolveModuleType(file.value.mimetype));
      Ok((st.(modules := st.modules[moduleId := m]), m))
  }

  /** Lists a course's modules. A lecturer must own the course; any other
      role must be enrolled in it. */
  function GetModules(st: State, courseId: int, userId: int, role: Role): (r: Result<set<CourseModule>>)
    ensures courseId !in st.courses ==> r == Err(NotFound, MsgCourseNotFound)
    ensures courseId in st.courses && role == LECTURER && st.courses[courseId].lecturerId != userId
      ==> r == Err(Forbidden, MsgNotYourCourse)
    ensures courseId in st.courses && role != LECTURER && !IsEnrolled(st, userId, courseId)
      ==> r == Err(Forbidden, MsgNotEnrolled)
    ensures r.Ok? <==> (courseId in st.courses
      && (if role == LECTURER then OwnsCourse(st, courseId, userId) else IsEnrolled(st, userId, courseId)))
    ensures r.Ok? ==> forall m :: m in r.value <==> m in st.modules.Values && m.courseId == courseId
  {
    if courseId !in st.courses then Err(NotFound, MsgCourseNotFound)
    else if role == LECTURER && st.courses[courseId].lecturerId != userId then Err(Forbidden, MsgNotYourCourse)
    else if role != LECTURER && !IsEnrolled(st, userId, courseId) then Err(Forbidden, MsgNotEnrolled)
    else Ok(set m | m in st.modules.Values && m.courseId == courseId)
  }
}
