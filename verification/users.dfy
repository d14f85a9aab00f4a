/** The profile service: reading and editing one's own profile, and reading
    a lecturer's public details. Password hashing is a parameter. */
module Users {
  import opened Wrappers
  import opened Entities
  import opened Text

  const MsgUserNotFound := "User not found"
  const MsgEmailInUse := "Email already in use"
  const MsgLecturerNotFound := "Lecturer not found"
  const MsgNotALecturer := "User is not a lecturer"
  const MsgRecordNotFound := "Record to update not found"

  const ProfileImageDir := "/uploads/profiles/"

  /** A user as the profile endpoints return it: everything but the password. */
  datatype Profile = Profile(
    id: int,
    name: string,
    email: string,
    phone: Option<string>,
    role: Role,
    profileImageUrl: Option<string>)

  function ProfileOf(u: User): (p: Profile)
    ensures p.id == u.id && p.name == u.name && p.email == u.email && p.phone == u.phone
    ensures p.role == u.role && p.profileImageUrl == u.profileImageUrl
  {
    Profile(u.id, u.name, u.email, u.phone, u.role, u.profileImageUrl)
  }

  /** Reads a profile. */
  function GetProfile(st: State, userId: int): (r: Result<Profile>)
    ensures r.Err? <==> userId !in st.users
    ensures r.Err? ==> r == Err(NotFound, MsgUserNotFound)
    ensures r.Ok? ==> r.value == ProfileOf(st.users[userId])
  {
    if userId !in st.users then Err(NotFound, MsgUserNotFound) else Ok(ProfileOf(st.users[userId]))
  }

  datatype UpdateProfileDto = UpdateProfileDto(
    name: Option<string>,
    email: Option<string>,
    phone: Option<string>,
    password: Option<string>)

  /** Some user other than `userId` already holds the address. */
  predicate EmailTakenByOther(st: State, email: string, userId: int) {
    exists k | k in st.users :: st.users[k].email == email && st.users[k].id != userId
  }

  /** Edits one's own profile. Only non-empty name, email and phone are
      written; a supplied password is stored hashed; an uploaded picture
      replaces the image URL. A new address already held by someone else is
      a conflict. */
  function UpdateProfile(st: State, userId: int, dto: UpdateProfileDto, filename: Option<string>,
                         hash: string -> string): (r: Result<(State, Profile)>)
    ensures Truthy(dto.email) && EmailTakenByOther(st, dto.email.value, userId) ==> r == Err(Conflict, MsgEmailInUse)
    ensures r.Err? && r.kind != Conflict ==> userId !in st.users && r.kind == StorageError
    ensures r.Ok? <==> userId in st.users && !(Truthy(dto.email) && EmailTakenByOther(st, dto.email.value, userId))
    ensures r.Ok? ==> userId in r.value.0.users
    ensures r.Ok? ==>
      var (st', p) := r.value;
      var u := st.users[userId];
      var u' := st'.users[userId];
      && st' == st.(users := st.users[userId := u'])
      && p == ProfileOf(u')
      && u'.name == (if Truthy(dto.name) then dto.name.value else u.name)
      && u'.email == (if Truthy(dto.email) then dto.email.value else u.email)
      && u'.phone == (if Truthy(dto.phone) then dto.phone else u.phone)
      && u'.password == (if Truthy(dto.password) then hash(dto.password.value) else u.password)
      && (filename.Some? ==> (u'.profileImageUrl.Some? && StartsWith(u'.profileImageUrl.value, ProfileImageDir)
            && u'.profileImageUrl.value[|ProfileImageDir|..] == filename.value))
      && (filename.None? ==> u'.profileImageUrl == u.profileImageUrl)
      && u'.id == u.id && u'.role == u.role
  {
    if Truthy(dto.email) && EmailTakenByOther(st, dto.email.value, userId) then Err(Conflict, MsgEmailInUse)
    else if userId !in st.users then Err(StorageError, MsgRecordNotFound)
    else
      var u := st.users[userId];
      var u' := u.(
        name := if Truthy(dto.name) then dto.name.value else u.name,
        email := if Truthy(dto.email) then dto.email.value else u.email,
        phone := if Truthy(dto.phone) then dto.phone else u.phone,
        password := if Truthy(dto.password) then hash(dto.password.value) else u.password,
        profileImageUrl := if filename.Some? then Some(ProfileImageDir + filename.value) else u.profileImageUrl);
      if filename.Some? then StripPrefix(ProfileImageDir, filename.value); Ok((st.(users := st.users[userId := u']), ProfileOf(u')))
      else Ok((st.(users := st.users[userId := u']), ProfileOf(u')))
  }

  /** A lecturer's public details with the number of courses they teach. */
  datatype LecturerDetail = LecturerDetail(profile: Profile, courseCount: nat)

  /** The ids of the course rows the lecturer teaches; `_count` counts rows. */
  function CoursesTaughtBy(st: State, lecturerId: int): (r: set<int>)
    ensures forall id :: id in r <==> id in st.courses && st.courses[id].lecturerId == lecturerId
  {
    set id | id in st.courses && st.courses[id].lecturerId == lecturerId
  }

  /** Reads a lecturer. A user who is not a lecturer is reported as not found. */
  function GetLecturerDetail(st: State, lecturerId: int): (r: Result<LecturerDetail>)
    ensures lecturerId !in st.users ==> r == Err(NotFound, MsgLecturerNotFound)
    ensures lecturerId in st.users && st.users[lecturerId].role != LECTURER ==> r == Err(NotFound, MsgNotALecturer)
    ensures r.Ok? <==> lecturerId in st.users && st.users[lecturerId].role == LECTURER
    ensures r.Err? ==> r.kind == NotFound
    ensures r.Ok? ==>
      && r.value.profile == ProfileOf(st.users[lecturerId])
      && r.value.courseCount == |CoursesTaughtBy(st, lecturerId)|
  {
    if lecturerId !in st.users then Err(NotFound, MsgLecturerNotFound)
    else if st.users[lecturerId].role != LECTURER then Err(NotFound, MsgNotALecturer)
    else Ok(LecturerDetail(ProfileOf(st.users[lecturerId]), |CoursesTaughtBy(st, lecturerId)|))
  }

  /** Editing a profile keeps every address unique, and every other invariant. */
  lemma UpdateProfilePreservesValid(st: State, userId: int, dto: UpdateProfileDto, filename: Option<string>,
                                    hash: string -> string)
    requires Valid(st)
    requires UpdateProfile(st, userId, dto, filename, hash).Ok?
    ensures Valid(UpdateProfile(st, userId, dto, filename, hash).value.0)
  {
    if Truthy(dto.email) {
      forall k | k in st.users && k != userId ensures st.users[k].email != dto.email.value {
        assert st.users[k].id == k;
      }
    }
  }

  /** Re-submitting one's own address is no conflict. */
  lemma OwnEmailIsNoConflict(st: State, userId: int, dto: UpdateProfileDto, filename: Option<string>,
                             hash: string -> string)
    requires Valid(st) && userId in st.users
    requires dto.email == Some(st.users[userId].email)
    ensures UpdateProfile(st, userId, dto, filename, hash).Ok?
  {
    if Truthy(dto.email) {
      forall k | k in st.users && st.users[k].email == dto.email.value ensures st.users[k].id == userId {
      }
    }
  }

  /** Empty strings change nothing: a request whose fields are all empty and
      that carries no picture leaves the user as it was. */
  lemma EmptyFieldsChangeNothing(st: State, userId: int, hash: string -> string)
    requires userId in st.users
    ensures
      var dto := UpdateProfileDto(Some(""), Some(""), Some(""), Some(""));
      var r := UpdateProfile(st, userId, dto, None, hash);
      r.Ok? && r.value.0 == st
  {
    var dto := UpdateProfileDto(Some(""), Some(""), Some(""), Some(""));
    var st' := UpdateProfile(st, userId, dto, None, hash).value.0;
    assert st'.users[userId] == st.users[userId];
    assert st.users[userId := st.users[userId]] == st.users;
  }

  /** After an edit, reading the profile gives back what was written. */
  lemma UpdateThenGetProfile(st: State, userId: int, dto: UpdateProfileDto, filename: Option<string>,
                             hash: string -> string, st': State, p: Profile)
    requires UpdateProfile(st, userId, dto, filename, hash) == Ok((st', p))
    ensures GetProfile(st', userId) == Ok(p)
    ensures p.name == (if Truthy(dto.name) then dto.name.value else st.users[userId].name)
    ensures p.email == (if Truthy(dto.email) then dto.email.value else st.users[userId].email)
    ensures p.phone == (if Truthy(dto.phone) then dto.phone else st.users[userId].phone)
  {
  }
}
