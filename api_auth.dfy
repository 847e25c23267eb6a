/** backend/app/api/auth.py: registration, login and logout against the shared backend. */
module AuthApi {
  import opened Wrappers
  import opened Schema
  import opened Query
  import opened StudentIds
  import opened Database
  import StudentModel

  const UsernameExists: string := "Username already exists"
  const EmailExists: string := "Email already exists"
  const InvalidLogin: string := "Invalid username or password"
  const LogoutSuccessful: string := "Logout successful"

  /** `data.get(...)` defaults of registration. */
  const DefaultRole: string := StudentRole
  const DefaultMajor: string := "Undeclared"
  const DefaultYearLevel: string := "freshman"

  /** The JSON body of `POST /register`; None stands for an absent key. */
  datatype RegisterRequest = RegisterRequest(
    username: Option<string>,
    email: Option<string>,
    firstName: Option<string>,
    lastName: Option<string>,
    password: Option<string>,
    role: Option<string>,
    major: Option<string>,
    yearLevel: Option<string>)

  datatype LoginRequest = LoginRequest(username: Option<string>, password: Option<string>)

  /** `register`: a taken username, then a taken email, refuse with 400; a missing required
      key is a KeyError and so a 500. Otherwise one user row is added with the next id and
      the role defaulting to "student", and a student-role user also gets exactly one profile
      numbered `STU{id:06d}`, major "Undeclared" and year level "freshman" unless given.
      Every refusal leaves the tables as they were. */
  method Register(db: Backend, data: RegisterRequest) returns (r: Reply<User>)
    requires db.Valid()
    modifies db`users, db`students
    ensures db.Valid()
    ensures
      if data.username.None? then
        r == ServerError && db.users == old(db.users) && db.students == old(db.students)
      else if First(old(db.users), UserNamed(data.username.value)).Some? then
        r == Refused(400, UsernameExists) && db.users == old(db.users) && db.students == old(db.students)
      else if data.email.None? then
        r == ServerError && db.users == old(db.users) && db.students == old(db.students)
      else if First(old(db.users), UserWithEmail(data.email.value)).Some? then
        r == Refused(400, EmailExists) && db.users == old(db.users) && db.students == old(db.students)
      else if data.firstName.None? || data.lastName.None? || data.password.None? then
        r == ServerError && db.users == old(db.users) && db.students == old(db.students)
      else
        var user := User(|old(db.users)| + 1, data.username.value, data.email.value, data.firstName.value,
                         data.lastName.value, data.role.GetOr(DefaultRole), db.setPassword(data.password.value));
        && r == Ok(201, user)
        && db.users == old(db.users) + [user]
        && db.students == ProfilesAfter(old(db.students), user, data.major.GetOr(DefaultMajor), data.yearLevel.GetOr(DefaultYearLevel))
  {
    if data.username.None? {
      return ServerError;
    }
    if First(db.users, UserNamed(data.username.value)).Some? {
      return Refused(400, UsernameExists);
    }
    if data.email.None? {
      return ServerError;
    }
    if First(db.users, UserWithEmail(data.email.value)).Some? {
      return Refused(400, EmailExists);
    }
    if data.firstName.None? || data.lastName.None? || data.password.None? {
      return ServerError;
    }
    var user := User(|db.users| + 1, data.username.value, data.email.value, data.firstName.value,
                     data.lastName.value, data.role.GetOr(DefaultRole), db.setPassword(data.password.value));
    AddAccount(db, user, data.major.GetOr(DefaultMajor), data.yearLevel.GetOr(DefaultYearLevel));
    r := Ok(201, user);
  }

  /** The students table after `register` adds `user`: one more profile when the role is
      "student", numbered from the user's id. */
  function ProfilesAfter(students: seq<Student>, user: User, major: string, yearLevel: string): (r: seq<Student>)
    ensures user.role == StudentRole ==> |r| == |students| + 1 && r[..|students|] == students
                                         && r[|students|].userId == user.id && r[|students|].studentId == FormatStudentId(user.id)
    ensures user.role == StudentRole ==> var s := r[|students|];
              && s.id == |students| + 1 && s.major == major && s.yearLevel == yearLevel
              && s.gpa == StudentModel.DefaultGpa && s.totalCredits == StudentModel.DefaultTotalCredits
    ensures user.role != StudentRole ==> r == students
  {
    if user.role == StudentRole
    then students + [StudentModel.NewStudent(|students| + 1, user.id, FormatStudentId(user.id), major, yearLevel)]
    else students
  }

  /** The inserts of `register` once its checks have passed, committed together. */
  method AddAccount(db: Backend, user: User, major: string, yearLevel: string)
    requires db.Valid()
    requires user.id == |db.users| + 1
    requires First(db.users, UserNamed(user.username)).None? && First(db.users, UserWithEmail(user.email)).None?
    modifies db`users, db`students
    ensures db.Valid()
    ensures db.users == old(db.users) + [user]
    ensures db.students == ProfilesAfter(old(db.students), user, major, yearLevel)
  {
    AccountKeepsValid(db.users, db.students, db.courses, db.enrollments, db.grades, db.currentUser, user, major, yearLevel);
    db.users, db.students := db.users + [user], ProfilesAfter(db.students, user, major, yearLevel);
  }

  /** Adding a user with the next id, a free username and a free email, together with that
      user's profile when the role is "student", keeps the database valid. */
  lemma AccountKeepsValid(users: seq<User>, students: seq<Student>, courses: seq<Course>, enrollments: seq<Enrollment>,
                          grades: seq<Grade>, currentUser: Option<nat>, user: User, major: string, yearLevel: string)
    requires TablesValid(users, students, courses, enrollments, grades, currentUser)
    requires user.id == |users| + 1
    requires First(users, UserNamed(user.username)).None? && First(users, UserWithEmail(user.email)).None?
    ensures TablesValid(users + [user], ProfilesAfter(students, user, major, yearLevel), courses, enrollments, grades, currentUser)
  {
    UsersSnoc(users, user);
    ProfilesKeepValid(students, enrollments, |users|, |courses|, user, major, yearLevel);
  }

  /** The profile `register` adds, if any, keeps `students` valid for the grown users table,
      and every enrollment still joins an existing student. */
  lemma ProfilesKeepValid(students: seq<Student>, enrollments: seq<Enrollment>, userCount: nat, courseCount: nat,
                          user: User, major: string, yearLevel: string)
    requires StudentsValid(students, userCount) && EnrollmentsValid(enrollments, |students|, courseCount)
    requires user.id == userCount + 1
    ensures var next := ProfilesAfter(students, user, major, yearLevel);
            StudentsValid(next, userCount + 1) && EnrollmentsValid(enrollments, |next|, courseCount)
  {
    StudentsGrow(students, userCount, userCount + 1);
    if user.role == StudentRole {
      var s := StudentModel.NewStudent(|students| + 1, user.id, FormatStudentId(user.id), major, yearLevel);
      assert forall i :: 0 <= i < |students| ==> students[i].userId != s.userId;
      StudentsSnoc(students, userCount + 1, s);
      EnrollmentsGrow(enrollments, |students|, courseCount, |students| + 1, courseCount);
    }
  }

  /** `login`: signs the named user in and answers 200 exactly when that user exists and
      `check_password` accepts the password. A missing username key is a 500; an unknown name
      gets 401 without the password ever being read; a known name with no password key is a
      500; a wrong password is 401. Nobody new is signed in on any other path. */
  method Login(db: Backend, data: LoginRequest) returns (r: Reply<User>)
    requires db.Valid()
    modifies db`currentUser
    ensures db.Valid()
    ensures r.Ok? <==> && data.username.Some? && data.password.Some?
                       && var found := First(db.users, UserNamed(data.username.value));
                          found.Some? && db.checkPassword(found.value.passwordHash, data.password.value)
    ensures r.Ok? ==> r.status == 200 && r.body in db.users && db.currentUser == Some(r.body.id)
                      && Some(r.body) == First(db.users, UserNamed(data.username.value))
    ensures !r.Ok? ==> db.currentUser == old(db.currentUser)
    ensures data.username.Some? && First(db.users, UserNamed(data.username.value)).None? ==>
              r == Refused(401, InvalidLogin)
    ensures data.username.None? ==> r == ServerError
    ensures !r.Ok? && data.username.Some? && data.password.Some? ==> r == Refused(401, InvalidLogin)
    ensures data.username.Some? && First(db.users, UserNamed(data.username.value)).Some? && data.password.None? ==>
              r == ServerError
  {
    if data.username.None? {
      return ServerError;
    }
    var user := First(db.users, UserNamed(data.username.value));
    if user.None? {
      return Refused(401, InvalidLogin);
    }
    if data.password.None? {
      return ServerError;
    }
    if db.checkPassword(user.value.passwordHash, data.password.value) {
      db.currentUser := Some(user.value.id);
      r := Ok(200, user.value);
    } else {
      r := Refused(401, InvalidLogin);
    }
  }

  /** `logout`: afterwards nobody is signed in; an anonymous request is turned away by
      `@login_required`. */
  method Logout(db: Backend) returns (r: Reply<string>)
    requires db.Valid()
    modifies db`currentUser
    ensures db.Valid() && db.currentUser == None
    ensures r == if old(db.currentUser).None? then LoginRequired else Ok(200, LogoutSuccessful)
  {
    if db.currentUser.None? {
      return LoginRequired;
    }
    db.currentUser := None;
    r := Ok(200, LogoutSuccessful);
  }

  /** `get_current_user`: the signed-in user's row. */
  method GetCurrentUser(db: Backend) returns (r: Reply<User>)
    requires db.Valid()
    ensures db.currentUser.None? <==> r == LoginRequired
    ensures db.currentUser.Some? ==> r.Ok? && r.status == 200 && r.body in db.users && r.body.id == db.currentUser.value
  {
    var me := db.Me();
    if me.None? {
      return LoginRequired;
    }
    r := Ok(200, me.value);
  }

  /** Registering a fresh name and email and then logging in with the same password signs
      the new user in, provided `check_password` accepts what `set_password` stored. */
  method RegisterThenLogin(db: Backend, data: RegisterRequest) returns (registered: Reply<User>, loggedIn: Reply<User>)
    requires db.Valid()
    requires data.username.Some? && data.email.Some? && data.firstName.Some? && data.lastName.Some? && data.password.Some?
    requires First(db.users, UserNamed(data.username.value)).None?
    requires First(db.users, UserWithEmail(data.email.value)).None?
    requires db.checkPassword(db.setPassword(data.password.value), data.password.value)
    modifies db`users, db`students, db`currentUser
    ensures registered.Ok? && loggedIn.Ok? && loggedIn.body == registered.body
    ensures db.currentUser == Some(registered.body.id)
  {
    ghost var before := db.users;
    registered := Register(db, data);
    FirstSnoc(before, registered.body, UserNamed(data.username.value));
    loggedIn := Login(db, LoginRequest(data.username, data.password));
  }
}
