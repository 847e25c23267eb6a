/** The state the university API's handlers share: the five tables behind `db.session`
    and the user Flask-Login has signed in. Rows are kept in insertion order and no handler
    of this model deletes one, so a row's integer key is its position plus one. */
module Database {
  import opened Wrappers
  import opened Schema
  import opened Query
  import opened StudentIds
  import StudentModel
  import CourseModel
  import EnrollmentModel

  /** What a handler returns: `jsonify(body), status`; `jsonify({"error": message}), status`;
      the 500 reply of the broad `except Exception` (its text is not modelled); or
      Flask-Login's refusal of an anonymous request to a `@login_required` view, which
      redirects to `auth.login` (backend/app/__init__.py:20). */
  datatype Reply<T> =
    | Ok(status: nat, body: T)
    | Refused(status: nat, message: string)
    | ServerError
    | LoginRequired

  /** `users`: keyed rows, and no two users share a username or an email. */
  predicate UsersValid(users: seq<User>) {
    && (forall i :: 0 <= i < |users| ==> users[i].id == i + 1)
    && Unique(users, UsernameOf)
    && Unique(users, EmailOf)
  }

  /** `students`: keyed rows, each the profile of an existing user numbered
      `STU{user_id:06d}`, at most one per user (unique numbers follow, by `NumbersFollowUsers`). */
  predicate StudentsValid(students: seq<Student>, userCount: nat) {
    && (forall i :: 0 <= i < |students| ==>
          && students[i].id == i + 1
          && 1 <= students[i].userId <= userCount
          && students[i].studentId == FormatStudentId(students[i].userId))
    && Unique(students, OwnerOf)
  }

  /** `courses`: keyed rows with unique codes. */
  predicate CoursesValid(courses: seq<Course>) {
    && (forall i :: 0 <= i < |courses| ==> courses[i].id == i + 1)
    && CourseModel.UniqueCodes(courses)
  }

  /** `enrollments`: keyed rows joining an existing student to an existing course, one row
      per pair, each with one of the documented statuses. */
  predicate EnrollmentsValid(enrollments: seq<Enrollment>, studentCount: nat, courseCount: nat) {
    && (forall i :: 0 <= i < |enrollments| ==>
          && enrollments[i].id == i + 1
          && 1 <= enrollments[i].studentId <= studentCount
          && 1 <= enrollments[i].courseId <= courseCount
          && enrollments[i].status in EnrollmentModel.Statuses)
    && EnrollmentModel.UniquePairs(enrollments)
  }

  /** No course holds more enrollments than its `max_enrollment` (a course whose maximum is
      not positive holds none). */
  predicate WithinCapacity(courses: seq<Course>, enrollments: seq<Enrollment>) {
    forall i :: 0 <= i < |courses| ==>
      CourseModel.EnrolledCount(enrollments, courses[i].id) <= courses[i].maxEnrollment
      || CourseModel.EnrolledCount(enrollments, courses[i].id) == 0
  }

  /** The invariant of the whole database: every table valid, every foreign key resolving,
      no course over capacity, and the signed-in user, if any, an existing one. */
  predicate TablesValid(users: seq<User>, students: seq<Student>, courses: seq<Course>,
                        enrollments: seq<Enrollment>, grades: seq<Grade>, currentUser: Option<nat>)
  {
    && UsersValid(users)
    && StudentsValid(students, |users|)
    && CoursesValid(courses)
    && EnrollmentsValid(enrollments, |students|, |courses|)
    && WithinCapacity(courses, enrollments)
    && (forall i :: 0 <= i < |grades| ==> grades[i].id == i + 1)
    && (currentUser.Some? ==> 1 <= currentUser.value <= |users|)
  }

  class Backend {
    /** werkzeug's `User.set_password` and `User.check_password`, modelled as fixed functions
        (the random salt is not modelled). */
    const setPassword: string -> string
    const checkPassword: (string, string) -> bool

    var users: seq<User>
    var students: seq<Student>
    var courses: seq<Course>
    var enrollments: seq<Enrollment>
    var grades: seq<Grade>
    /** The id of the user Flask-Login has signed in, if any. */
    var currentUser: Option<nat>

    ghost predicate Valid()
      reads this
    {
      TablesValid(users, students, courses, enrollments, grades, currentUser)
    }

    /** `create_all` on an empty database file, nobody signed in. */
    constructor (setPassword: string -> string, checkPassword: (string, string) -> bool)
      ensures Valid()
      ensures this.setPassword == setPassword && this.checkPassword == checkPassword
      ensures users == [] && students == [] && courses == [] && enrollments == [] && grades == []
      ensures currentUser == None
    {
      this.setPassword := setPassword;
      this.checkPassword := checkPassword;
      users, students, courses, enrollments, grades := [], [], [], [], [];
      currentUser := None;
    }

    /** Flask-Login's `current_user`, loaded by id; None for an anonymous request. */
    function Me(): (r: Option<User>)
      reads this`users, this`currentUser
      ensures r.Some? ==> r.value in users && currentUser == Some(r.value.id)
      ensures r.Some? ==> 1 <= r.value.id <= |users| && users[r.value.id - 1] == r.value
      ensures Valid() ==> (r.Some? <==> currentUser.Some?)
    {
      match currentUser
      case None => None
      case Some(id) =>
        if 1 <= id <= |users| && users[id - 1].id == id then Some(users[id - 1]) else None
    }
  }

  /** A user row appended with the next key and a fresh username and email keeps `users` valid. */
  lemma UsersSnoc(users: seq<User>, u: User)
    requires UsersValid(users)
    requires u.id == |users| + 1
    requires First(users, UserNamed(u.username)).None? && First(users, UserWithEmail(u.email)).None?
    ensures UsersValid(users + [u])
  {
    forall i | 0 <= i < |users| ensures UsernameOf(users[i]) != UsernameOf(u) && EmailOf(users[i]) != EmailOf(u) {
      assert !UserNamed(u.username)(users[i]) && !UserWithEmail(u.email)(users[i]);
    }
    UniqueSnoc(users, u, UsernameOf);
    UniqueSnoc(users, u, EmailOf);
    var all := users + [u];
    assert forall i :: 0 <= i < |all| ==> all[i].id == i + 1;
  }

  /** A profile for a user who has none, numbered from that user's id, keeps `students` valid. */
  lemma StudentsSnoc(students: seq<Student>, userCount: nat, s: Student)
    requires StudentsValid(students, userCount)
    requires s.id == |students| + 1 && 1 <= s.userId <= userCount
    requires s.studentId == FormatStudentId(s.userId)
    requires forall i :: 0 <= i < |students| ==> students[i].userId != s.userId
    ensures StudentsValid(students + [s], userCount)
  {
    ProfileFieldsSnoc(students, userCount, s);
    forall i | 0 <= i < |students| ensures OwnerOf(students[i]) != OwnerOf(s) {
    }
    UniqueSnoc(students, s, OwnerOf);
  }

  /** The per-row conditions of `students` survive appending a row that meets them. */
  lemma ProfileFieldsSnoc(students: seq<Student>, userCount: nat, s: Student)
    requires forall i :: 0 <= i < |students| ==> students[i].id == i + 1 && 1 <= students[i].userId <= userCount
                                                 && students[i].studentId == FormatStudentId(students[i].userId)
    requires s.id == |students| + 1 && 1 <= s.userId <= userCount && s.studentId == FormatStudentId(s.userId)
    ensures var all := students + [s];
            forall i :: 0 <= i < |all| ==> all[i].id == i + 1 && 1 <= all[i].userId <= userCount
                                           && all[i].studentId == FormatStudentId(all[i].userId)
  {
  }

  /** Numbers derived from distinct user ids are distinct: the `student_id` unique constraint
      follows from one profile per user. */
  lemma NumbersFollowUsers(students: seq<Student>, userCount: nat)
    requires StudentsValid(students, userCount)
    ensures StudentModel.UniqueStudentIds(students)
  {
    forall i, j | 0 <= i < j < |students| ensures NumberOf(students[i]) != NumberOf(students[j]) {
      assert OwnerOf(students[i]) != OwnerOf(students[j]);
      if students[i].studentId == students[j].studentId {
        StudentIdInjective(students[i].userId, students[j].userId);
      }
    }
  }

  /** Enrollments stay valid when more students or courses exist. */
  lemma EnrollmentsGrow(enrollments: seq<Enrollment>, studentCount: nat, courseCount: nat, moreStudents: nat, moreCourses: nat)
    requires EnrollmentsValid(enrollments, studentCount, courseCount)
    requires studentCount <= moreStudents && courseCount <= moreCourses
    ensures EnrollmentsValid(enrollments, moreStudents, moreCourses)
  {
  }

  /** A user row added without a profile leaves `students` valid: the bound on user ids only grows. */
  lemma StudentsGrow(students: seq<Student>, userCount: nat, more: nat)
    requires StudentsValid(students, userCount) && userCount <= more
    ensures StudentsValid(students, more)
  {
  }
}
