/** backend/app/api/students.py: the student directory and a student's own profile, which
    `update_my_profile` edits key by key in place on the profile and the user rows. */
module StudentsApi {
  import opened Wrappers
  import opened Schema
  import opened Query
  import opened Database
  import StudentModel

  const AccessDenied: string := "Access denied"

  /** The JSON body of `PUT /students/profile`; None stands for an absent key. */
  datatype ProfileUpdate = ProfileUpdate(
    major: Option<string>,
    yearLevel: Option<string>,
    firstName: Option<string>,
    lastName: Option<string>,
    email: Option<string>)

  /** The profile after the `major` and `year_level` assignments. */
  function UpdateStudent(s: Student, u: ProfileUpdate): (r: Student)
    ensures u.major.None? ==> r.major == s.major
    ensures u.major.Some? ==> r.major == u.major.value
    ensures u.yearLevel.None? ==> r.yearLevel == s.yearLevel
    ensures u.yearLevel.Some? ==> r.yearLevel == u.yearLevel.value
    ensures r.id == s.id && r.userId == s.userId && r.studentId == s.studentId
    ensures r.gpa == s.gpa && r.totalCredits == s.totalCredits
  {
    s.(major := u.major.GetOr(s.major), yearLevel := u.yearLevel.GetOr(s.yearLevel))
  }

  /** The user row after the `first_name`, `last_name` and `email` assignments. */
  function UpdateUser(user: User, u: ProfileUpdate): (r: User)
    ensures u.firstName.None? ==> r.firstName == user.firstName
    ensures u.firstName.Some? ==> r.firstName == u.firstName.value
    ensures u.lastName.None? ==> r.lastName == user.lastName
    ensures u.lastName.Some? ==> r.lastName == u.lastName.value
    ensures u.email.None? ==> r.email == user.email
    ensures u.email.Some? ==> r.email == u.email.value
    ensures r.id == user.id && r.username == user.username && r.role == user.role
    ensures r.passwordHash == user.passwordHash
  {
    user.(firstName := u.firstName.GetOr(user.firstName), lastName := u.lastName.GetOr(user.lastName),
          email := u.email.GetOr(user.email))
  }

  /** Applying an update to its own result changes nothing more. */
  lemma UpdateIdempotent(s: Student, user: User, u: ProfileUpdate)
    ensures UpdateStudent(UpdateStudent(s, u), u) == UpdateStudent(s, u)
    ensures UpdateUser(UpdateUser(user, u), u) == UpdateUser(user, u)
  {
  }

  /** A body with none of the keys leaves both rows as they were. */
  lemma EmptyUpdate(s: Student, user: User)
    ensures UpdateStudent(s, ProfileUpdate(None, None, None, None, None)) == s
    ensures UpdateUser(user, ProfileUpdate(None, None, None, None, None)) == user
  {
  }

  /** A later update wins on the keys it carries; elsewhere the earlier one stands. */
  function Then(first: ProfileUpdate, second: ProfileUpdate): ProfileUpdate {
    ProfileUpdate(
      if second.major.Some? then second.major else first.major,
      if second.yearLevel.Some? then second.yearLevel else first.yearLevel,
      if second.firstName.Some? then second.firstName else first.firstName,
      if second.lastName.Some? then second.lastName else first.lastName,
      if second.email.Some? then second.email else first.email)
  }

  /** Two updates in a row are one update with the keys of both. */
  lemma UpdatesCompose(s: Student, user: User, first: ProfileUpdate, second: ProfileUpdate)
    ensures UpdateStudent(UpdateStudent(s, first), second) == UpdateStudent(s, Then(first, second))
    ensures UpdateUser(UpdateUser(user, first), second) == UpdateUser(user, Then(first, second))
  {
  }

  /** Some other user already holds the email, so the commit breaks its unique constraint. */
  predicate EmailTakenByOther(users: seq<User>, userId: int, email: string) {
    var holder := First(users, UserWithEmail(email));
    holder.Some? && holder.value.id != userId
  }

  /** `get_students`: every profile, in table order. */
  method GetStudents(db: Backend) returns (r: Reply<seq<StudentModel.StudentView>>)
    requires db.Valid()
    ensures db.currentUser.None? ==> r == LoginRequired
    ensures db.currentUser.Some? ==> r == Ok(200, StudentModel.ToDicts(db.students, db.users))
  {
    if db.currentUser.None? {
      return LoginRequired;
    }
    r := Ok(200, StudentModel.ToDicts(db.students, db.users));
  }

  /** `get_student`: the profile with the given key; an unknown key is a 404 caught by the
      broad handler, so a 500. */
  method GetStudent(db: Backend, studentId: nat) returns (r: Reply<StudentModel.StudentView>)
    requires db.Valid()
    ensures db.currentUser.None? ==> r == LoginRequired
    ensures db.currentUser.Some? ==>
              (r.Ok? <==> exists i :: 0 <= i < |db.students| && db.students[i].id == studentId)
    ensures db.currentUser.Some? && !r.Ok? ==> r == ServerError
    ensures r.Ok? ==> r.status == 200 && r.body.id == studentId
                      && StudentModel.FromView(r.body) in db.students
                      && r.body == StudentModel.ToDict(StudentModel.FromView(r.body), db.users)
  {
    if db.currentUser.None? {
      return LoginRequired;
    }
    var student := First(db.students, StudentWithId(studentId));
    if student.None? {
      return ServerError;
    }
    r := Ok(200, StudentModel.ToDict(student.value, db.users));
  }

  /** `get_my_profile`: a student's own profile; 403 for other roles, 500 without a profile. */
  method GetMyProfile(db: Backend) returns (r: Reply<StudentModel.StudentView>)
    requires db.Valid()
    ensures db.currentUser.None? ==> r == LoginRequired
    ensures db.currentUser.Some? && db.Me().value.role != StudentRole ==> r == Refused(403, AccessDenied)
    ensures db.currentUser.Some? && db.Me().value.role == StudentRole ==>
              var student := First(db.students, StudentOfUser(db.currentUser.value));
              r == if student.None? then ServerError else Ok(200, StudentModel.ToDict(student.value, db.users))
    ensures r.Ok? ==> r.body.userId == db.currentUser.value && StudentModel.FromView(r.body) in db.students
  {
    var me := db.Me();
    if me.None? {
      return LoginRequired;
    }
    if me.value.role != StudentRole {
      return Refused(403, AccessDenied);
    }
    var student := First(db.students, StudentOfUser(me.value.id));
    if student.None? {
      return ServerError;
    }
    r := Ok(200, StudentModel.ToDict(student.value, db.users));
  }

  /** `update_my_profile`: only students; a student without a profile is a 500. Each of
      major, year level, first name, last name and email is set exactly when its key is
      present, on the caller's own profile and user row, and no other row or field moves; an
      email another user holds breaks the unique constraint at commit, a 500 that changes
      nothing. The reply is the profile as updated, with the updated user. */
  method UpdateMyProfile(db: Backend, data: ProfileUpdate) returns (r: Reply<StudentModel.StudentView>)
    requires db.Valid()
    modifies db`users, db`students
    ensures db.Valid()
    ensures
      if old(db.currentUser).None? then
        r == LoginRequired && db.users == old(db.users) && db.students == old(db.students)
      else if old(db.Me()).value.role != StudentRole then
        r == Refused(403, AccessDenied) && db.users == old(db.users) && db.students == old(db.students)
      else
        var me := old(db.Me()).value;
        var student := First(old(db.students), StudentOfUser(me.id));
        if student.None? then
          r == ServerError && db.users == old(db.users) && db.students == old(db.students)
        else if data.email.Some? && EmailTakenByOther(old(db.users), me.id, data.email.value) then
          r == ServerError && db.users == old(db.users) && db.students == old(db.students)
        else
          && db.students == Replace(old(db.students), UpdateStudent(student.value, data), StudentKey)
          && db.users == Replace(old(db.users), UpdateUser(me, data), UserKey)
          && r == Ok(200, StudentModel.ToDict(UpdateStudent(student.value, data), db.users))
  {
    var me := db.Me();
    if me.None? {
      return LoginRequired;
    }
    if me.value.role != StudentRole {
      return Refused(403, AccessDenied);
    }
    var student := First(db.students, StudentOfUser(me.value.id));
    if student.None? {
      return ServerError;
    }
    if data.email.Some? && EmailTakenByOther(db.users, me.value.id, data.email.value) {
      return ServerError;
    }
    r := ApplyUpdate(db, me.value, student.value, data);
  }

  /** The assignments and the commit of `update_my_profile` once its checks have passed. */
  method ApplyUpdate(db: Backend, me: User, student: Student, data: ProfileUpdate) returns (r: Reply<StudentModel.StudentView>)
    requires db.Valid()
    requires db.Me() == Some(me) && First(db.students, StudentOfUser(me.id)) == Some(student)
    requires data.email.Some? ==> !EmailTakenByOther(db.users, me.id, data.email.value)
    modifies db`users, db`students
    ensures db.Valid()
    ensures db.students == Replace(old(db.students), UpdateStudent(student, data), StudentKey)
    ensures db.users == Replace(old(db.users), UpdateUser(me, data), UserKey)
    ensures r == Ok(200, StudentModel.ToDict(UpdateStudent(student, data), db.users))
  {
    var updated := UpdateStudent(student, data);
    var user := UpdateUser(me, data);
    ProfileEditKeepsValid(db.users, db.students, db.courses, db.enrollments, db.grades, db.currentUser, me, data);
    StoreProfile(db, updated, user);
    r := Ok(200, StudentModel.ToDict(updated, db.users));
  }

  /** The two row edits and the commit, for edits already known to keep the database valid. */
  method StoreProfile(db: Backend, updated: Student, user: User)
    requires TablesValid(Replace(db.users, user, UserKey), Replace(db.students, updated, StudentKey), db.courses, db.enrollments, db.grades, db.currentUser)
    modifies db`users, db`students
    ensures db.Valid()
    ensures db.students == Replace(old(db.students), updated, StudentKey) && db.users == Replace(old(db.users), user, UserKey)
  {
    db.students, db.users := Replace(db.students, updated, StudentKey), Replace(db.users, user, UserKey);
  }

  /** Editing a user's own row and the profile their query finds, with an email nobody else
      holds, keeps the database valid. */
  lemma ProfileEditKeepsValid(users: seq<User>, students: seq<Student>, courses: seq<Course>, enrollments: seq<Enrollment>,
                              grades: seq<Grade>, currentUser: Option<nat>, me: User, data: ProfileUpdate)
    requires TablesValid(users, students, courses, enrollments, grades, currentUser)
    requires 1 <= me.id <= |users| && users[me.id - 1] == me
    requires First(students, StudentOfUser(me.id)).Some?
    requires data.email.Some? ==> !EmailTakenByOther(users, me.id, data.email.value)
    ensures TablesValid(Replace(users, UpdateUser(me, data), UserKey),
                        Replace(students, UpdateStudent(First(students, StudentOfUser(me.id)).value, data), StudentKey),
                        courses, enrollments, grades, currentUser)
  {
    FoundProfileKeepsValid(students, |users|, me.id, data);
    MyRowKeepsValid(users, me.id - 1, data);
  }

  /** Editing the profile a user's query finds keeps `students` valid: the key, the user and
      the number are never edited. */
  lemma FoundProfileKeepsValid(students: seq<Student>, userCount: nat, userId: int, data: ProfileUpdate)
    requires StudentsValid(students, userCount)
    requires First(students, StudentOfUser(userId)).Some?
    ensures StudentsValid(Replace(students, UpdateStudent(First(students, StudentOfUser(userId)).value, data), StudentKey), userCount)
  {
    var found := First(students, StudentOfUser(userId)).value;
    var k :| 0 <= k < |students| && students[k] == found;
    ProfileKeepsValid(students, userCount, UpdateStudent(found, data));
  }

  /** A user's own email is not held by anyone else. */
  lemma OwnEmailFree(users: seq<User>, k: nat)
    requires UsersValid(users) && k < |users|
    ensures !EmailTakenByOther(users, users[k].id, users[k].email)
  {
    assert UserWithEmail(users[k].email)(users[k]);
    var holder := First(users, UserWithEmail(users[k].email)).value;
    var h :| 0 <= h < |users| && users[h] == holder;
    assert EmailOf(users[h]) == EmailOf(users[k]);
  }

  /** Editing a user's own row keeps `users` valid unless the new email belongs to another user. */
  lemma MyRowKeepsValid(users: seq<User>, k: nat, data: ProfileUpdate)
    requires UsersValid(users) && k < |users|
    requires data.email.Some? ==> !EmailTakenByOther(users, users[k].id, data.email.value)
    ensures UsersValid(Replace(users, UpdateUser(users[k], data), UserKey))
  {
    if data.email.None? {
      OwnEmailFree(users, k);
    }
    UserKeepsValid(users, UpdateUser(users[k], data));
  }

  /** Replacing a profile by one with the same key, user and number keeps `students` valid. */
  lemma ProfileKeepsValid(students: seq<Student>, userCount: nat, s: Student)
    requires StudentsValid(students, userCount)
    requires forall i :: 0 <= i < |students| && students[i].id == s.id ==>
               students[i].userId == s.userId && students[i].studentId == s.studentId
    ensures StudentsValid(Replace(students, s, StudentKey), userCount)
  {
    var all := Replace(students, s, StudentKey);
    forall i | 0 <= i < |all|
      ensures all[i].id == students[i].id && OwnerOf(all[i]) == OwnerOf(students[i])
              && all[i].studentId == students[i].studentId
    {
    }
    UniqueSameKeys(students, all, OwnerOf);
  }

  /** An email that no other user holds is held by nobody but the user at position `k`. */
  lemma EmailFreeFor(users: seq<User>, k: nat, email: string)
    requires UsersValid(users) && k < |users|
    requires !EmailTakenByOther(users, users[k].id, email)
    ensures forall o :: 0 <= o < |users| && o != k ==> users[o].email != email
  {
    var holder := First(users, UserWithEmail(email));
    if holder.None? {
      forall o | 0 <= o < |users| ensures users[o].email != email {
        assert !UserWithEmail(email)(users[o]);
      }
    } else {
      var h :| 0 <= h < |users| && users[h] == holder.value;
      assert users[h].id == users[k].id;
      forall o | 0 <= o < |users| && o != k ensures users[o].email != email {
        assert EmailOf(users[o]) != EmailOf(users[k]);
      }
    }
  }

  /** Replacing a user row by one with the same username, whose email no other user
      holds, keeps `users` valid. */
  lemma UserKeepsValid(users: seq<User>, u: User)
    requires UsersValid(users) && 1 <= u.id <= |users|
    requires users[u.id - 1].username == u.username
    requires !EmailTakenByOther(users, u.id, u.email)
    ensures UsersValid(Replace(users, u, UserKey))
  {
    EmailFreeFor(users, u.id - 1, u.email);
    var all := Replace(users, u, UserKey);
    forall i | 0 <= i < |all| ensures all[i].id == users[i].id && UsernameOf(all[i]) == UsernameOf(users[i]) {
    }
    UniqueSameKeys(users, all, UsernameOf);
    forall i | 0 <= i < |users| && i != u.id - 1
      ensures EmailOf(all[i]) == EmailOf(users[i]) && EmailOf(users[i]) != EmailOf(all[u.id - 1])
    {
    }
    UniqueReplace(users, all, u.id - 1, EmailOf);
  }
}
