/** backend/app/api/courses.py: the course catalogue, course creation by staff and
    enrollment by students. */
module CoursesApi {
  import opened Wrappers
  import opened Schema
  import opened Query
  import opened Database
  import CourseModel
  import EnrollmentModel

  const AccessDenied: string := "Access denied"
  const OnlyStudents: string := "Only students can enroll"
  const AlreadyEnrolled: string := "Already enrolled in this course"
  const CourseFull: string := "Course is full"

  /** The JSON body of `POST /courses/`; None stands for an absent key. */
  datatype CourseRequest = CourseRequest(
    courseCode: Option<string>,
    title: Option<string>,
    description: Option<string>,
    credits: Option<int>,
    professorId: Option<int>,
    department: Option<string>,
    semester: Option<string>,
    year: Option<int>,
    maxEnrollment: Option<int>)

  /** What `GET /courses/my-courses` lists: a student's enrollments or a professor's courses. */
  datatype MyCourses =
    | AsStudent(enrollments: seq<EnrollmentModel.EnrollmentView>)
    | AsProfessor(courses: seq<CourseModel.CourseView>)

  /** `get_courses`: every course, in table order. */
  method GetCourses(db: Backend) returns (r: Reply<seq<CourseModel.CourseView>>)
    requires db.Valid()
    ensures db.currentUser.None? ==> r == LoginRequired
    ensures db.currentUser.Some? ==> r == Ok(200, CourseModel.ToDicts(db.courses, db.users, db.enrollments))
  {
    if db.currentUser.None? {
      return LoginRequired;
    }
    r := Ok(200, CourseModel.ToDicts(db.courses, db.users, db.enrollments));
  }

  /** `get_course`: the course with the given key; `get_or_404`'s NotFound is caught by the
      broad handler, so an unknown key is a 500. */
  method GetCourse(db: Backend, courseId: nat) returns (r: Reply<CourseModel.CourseView>)
    requires db.Valid()
    ensures db.currentUser.None? ==> r == LoginRequired
    ensures db.currentUser.Some? ==>
              (r.Ok? <==> exists i :: 0 <= i < |db.courses| && db.courses[i].id == courseId)
    ensures db.currentUser.Some? && !r.Ok? ==> r == ServerError
    ensures r.Ok? ==> r.status == 200 && r.body.id == courseId
                      && CourseModel.FromView(r.body) in db.courses
                      && r.body == CourseModel.ToDict(CourseModel.FromView(r.body), db.users, db.enrollments)
  {
    if db.currentUser.None? {
      return LoginRequired;
    }
    var course := First(db.courses, CourseWithId(courseId));
    if course.None? {
      return ServerError;
    }
    r := Ok(200, CourseModel.ToDict(course.value, db.users, db.enrollments));
  }

  /** `create_course`: only professors and admins may create; a missing required key is a
      KeyError and a code already in use breaks the unique constraint, both a 500. Otherwise
      one course row is added with the next key, the documented defaults (empty description,
      3 credits, the creator as professor, room for 30) and no enrollments. */
  method CreateCourse(db: Backend, data: CourseRequest) returns (r: Reply<CourseModel.CourseView>)
    requires db.Valid()
    modifies db`courses
    ensures db.Valid()
    ensures
      var me := old(db.Me());
      if me.None? then
        r == LoginRequired && db.courses == old(db.courses)
      else if me.value.role != ProfessorRole && me.value.role != AdminRole then
        r == Refused(403, AccessDenied) && db.courses == old(db.courses)
      else if data.courseCode.None? || data.title.None? || data.department.None?
              || data.semester.None? || data.year.None? then
        r == ServerError && db.courses == old(db.courses)
      else if First(old(db.courses), CourseWithCode(data.courseCode.value)).Some? then
        r == ServerError && db.courses == old(db.courses)
      else
        var course := Course(|old(db.courses)| + 1, data.courseCode.value, data.title.value,
                             data.description.GetOr(""), data.credits.GetOr(CourseModel.DefaultCredits),
                             data.professorId.GetOr(me.value.id), data.department.value,
                             data.semester.value, data.year.value,
                             data.maxEnrollment.GetOr(CourseModel.DefaultMaxEnrollment));
        && db.courses == old(db.courses) + [course]
        && r == Ok(201, CourseModel.ToDict(course, db.users, db.enrollments))
    ensures r.Ok? ==> r.body.enrolledCount == 0
  {
    var me := db.Me();
    if me.None? {
      return LoginRequired;
    }
    if me.value.role != ProfessorRole && me.value.role != AdminRole {
      return Refused(403, AccessDenied);
    }
    if data.courseCode.None? || data.title.None? || data.department.None?
       || data.semester.None? || data.year.None? {
      return ServerError;
    }
    if First(db.courses, CourseWithCode(data.courseCode.value)).Some? {
      return ServerError;
    }
    var course := Course(|db.courses| + 1, data.courseCode.value, data.title.value,
                         data.description.GetOr(""), data.credits.GetOr(CourseModel.DefaultCredits),
                         data.professorId.GetOr(me.value.id), data.department.value,
                         data.semester.value, data.year.value,
                         data.maxEnrollment.GetOr(CourseModel.DefaultMaxEnrollment));
    AddCourse(db, course);
    r := Ok(201, CourseModel.ToDict(course, db.users, db.enrollments));
  }

  /** The insert and commit of `create_course` once its checks have passed: the new course
      has no enrollments yet. */
  method AddCourse(db: Backend, course: Course)
    requires db.Valid()
    requires course.id == |db.courses| + 1 && First(db.courses, CourseWithCode(course.code)).None?
    modifies db`courses
    ensures db.Valid()
    ensures db.courses == old(db.courses) + [course]
    ensures CourseModel.EnrolledCount(db.enrollments, course.id) == 0
  {
    CoursesSnoc(db.courses, course);
    CourseModel.EnrolledCountZero(db.enrollments, course.id);
    EnrollmentsGrow(db.enrollments, |db.students|, |db.courses|, |db.students|, |db.courses| + 1);
    db.courses := db.courses + [course];
  }

  /** A course appended with the next key and a code not yet in use keeps `courses` valid. */
  lemma CoursesSnoc(courses: seq<Course>, c: Course)
    requires CoursesValid(courses)
    requires c.id == |courses| + 1
    requires First(courses, CourseWithCode(c.code)).None?
    ensures CoursesValid(courses + [c])
  {
    forall i | 0 <= i < |courses| ensures CodeOf(courses[i]) != CodeOf(c) {
      assert !CourseWithCode(c.code)(courses[i]);
    }
    UniqueSnoc(courses, c, CodeOf);
    var all := courses + [c];
    assert forall i :: 0 <= i < |all| ==> all[i].id == i + 1;
  }

  /** `enroll_in_course`: only students may enroll; a student without a profile or an unknown
      course is a 404 turned into a 500 by the broad handler; a second enrollment in the same
      course and an enrollment in a course whose count has reached its maximum are refused
      with 400. Otherwise exactly one enrollment row is added, "enrolled", and the course's
      count goes up by one without passing its maximum. */
  method EnrollInCourse(db: Backend, courseId: nat) returns (r: Reply<EnrollmentModel.EnrollmentView>)
    requires db.Valid()
    modifies db`enrollments
    ensures db.Valid()
    ensures
      var me := old(db.Me());
      if me.None? then
        r == LoginRequired && db.enrollments == old(db.enrollments)
      else if me.value.role != StudentRole then
        r == Refused(403, OnlyStudents) && db.enrollments == old(db.enrollments)
      else
        EnrolledAs(me.value, courseId, old(db.enrollments), db.students, db.courses, db.enrollments, db.users, r)
    ensures r.Ok? ==>
              && CourseModel.EnrolledCount(db.enrollments, courseId)
                 == CourseModel.EnrolledCount(old(db.enrollments), courseId) + 1
              && CourseModel.EnrolledCount(db.enrollments, courseId) <= First(db.courses, CourseWithId(courseId)).value.maxEnrollment
  {
    var me := db.Me();
    if me.None? {
      return LoginRequired;
    }
    if me.value.role != StudentRole {
      return Refused(403, OnlyStudents);
    }
    r := EnrollAs(db, me.value, courseId);
  }

  /** The outcome of `enroll_in_course` for a signed-in student `me`, given the enrollments
      before (`before`) and after (`after`) the request. */
  ghost predicate EnrolledAs(me: User, courseId: nat, before: seq<Enrollment>, students: seq<Student>, courses: seq<Course>,
                             after: seq<Enrollment>, users: seq<User>, r: Reply<EnrollmentModel.EnrollmentView>)
  {
    var student := First(students, StudentOfUser(me.id));
    var course := First(courses, CourseWithId(courseId));
    if student.None? || course.None? then
      r == ServerError && after == before
    else if First(before, EnrollmentPair(student.value.id, courseId)).Some? then
      r == Refused(400, AlreadyEnrolled) && after == before
    else if CourseModel.EnrolledCount(before, courseId) >= course.value.maxEnrollment then
      r == Refused(400, CourseFull) && after == before
    else
      var e := Enrollment(|before| + 1, student.value.id, courseId, EnrollmentModel.DefaultStatus);
      && after == before + [e]
      && r == Ok(201, EnrollmentModel.ToDict(e, users, students, courses, after))
  }

  /** The lookups, checks and insert of `enroll_in_course` once `me` is known to be a student. */
  method EnrollAs(db: Backend, me: User, courseId: nat) returns (r: Reply<EnrollmentModel.EnrollmentView>)
    requires db.Valid()
    modifies db`enrollments
    ensures db.Valid()
    ensures EnrolledAs(me, courseId, old(db.enrollments), db.students, db.courses, db.enrollments, db.users, r)
    ensures r.Ok? ==>
              && CourseModel.EnrolledCount(db.enrollments, courseId)
                 == CourseModel.EnrolledCount(old(db.enrollments), courseId) + 1
              && CourseModel.EnrolledCount(db.enrollments, courseId) <= First(db.courses, CourseWithId(courseId)).value.maxEnrollment
  {
    var student := First(db.students, StudentOfUser(me.id));
    var course := First(db.courses, CourseWithId(courseId));
    if student.None? || course.None? {
      return ServerError;
    }
    if First(db.enrollments, EnrollmentPair(student.value.id, courseId)).Some? {
      return Refused(400, AlreadyEnrolled);
    }
    if CourseModel.EnrolledCount(db.enrollments, courseId) >= course.value.maxEnrollment {
      return Refused(400, CourseFull);
    }
    var e := AddEnrollment(db, student.value, course.value);
    r := Ok(201, EnrollmentModel.ToDict(e, db.users, db.students, db.courses, db.enrollments));
  }

  /** The insert and commit of `enroll_in_course` once its checks have passed. */
  method AddEnrollment(db: Backend, student: Student, course: Course) returns (e: Enrollment)
    requires db.Valid()
    requires student in db.students && course in db.courses
    requires First(db.enrollments, EnrollmentPair(student.id, course.id)).None?
    requires CourseModel.EnrolledCount(db.enrollments, course.id) < course.maxEnrollment
    modifies db`enrollments
    ensures db.Valid()
    ensures e == Enrollment(|old(db.enrollments)| + 1, student.id, course.id, EnrollmentModel.DefaultStatus)
    ensures db.enrollments == old(db.enrollments) + [e]
    ensures CourseModel.EnrolledCount(db.enrollments, course.id) == CourseModel.EnrolledCount(old(db.enrollments), course.id) + 1
    ensures CourseModel.EnrolledCount(db.enrollments, course.id) <= course.maxEnrollment
  {
    e := Enrollment(|db.enrollments| + 1, student.id, course.id, EnrollmentModel.DefaultStatus);
    EnrollmentKeepsValid(db.users, db.students, db.courses, db.enrollments, db.grades, db.currentUser, student, course);
    CourseModel.EnrolledCountSnoc(db.enrollments, e, course.id);
    StoreEnrollment(db, e);
  }

  /** `db.session.add(enrollment)` and the commit, for a row already known to keep the database valid. */
  method StoreEnrollment(db: Backend, e: Enrollment)
    requires TablesValid(db.users, db.students, db.courses, db.enrollments + [e], db.grades, db.currentUser)
    modifies db`enrollments
    ensures db.Valid()
    ensures db.enrollments == old(db.enrollments) + [e]
  {
    db.enrollments := db.enrollments + [e];
  }

  /** Enrolling an existing student in an existing course with room left, for a pair not yet
      enrolled, keeps the database valid. */
  lemma EnrollmentKeepsValid(users: seq<User>, students: seq<Student>, courses: seq<Course>, enrollments: seq<Enrollment>,
                             grades: seq<Grade>, currentUser: Option<nat>, student: Student, course: Course)
    requires TablesValid(users, students, courses, enrollments, grades, currentUser)
    requires student in students && course in courses
    requires First(enrollments, EnrollmentPair(student.id, course.id)).None?
    requires CourseModel.EnrolledCount(enrollments, course.id) < course.maxEnrollment
    ensures var e := Enrollment(|enrollments| + 1, student.id, course.id, EnrollmentModel.DefaultStatus);
            TablesValid(users, students, courses, enrollments + [e], grades, currentUser)
  {
    var e := Enrollment(|enrollments| + 1, student.id, course.id, EnrollmentModel.DefaultStatus);
    EnrollmentsSnoc(enrollments, |students|, |courses|, e, student, students, course, courses);
    CourseById(courses, course);
    CapacitySnoc(courses, enrollments, e, course.maxEnrollment);
  }

  /** Courses are keyed by id, so the only row with a course's id is that course. */
  lemma CourseById(courses: seq<Course>, course: Course)
    requires forall i :: 0 <= i < |courses| ==> courses[i].id == i + 1
    requires course in courses
    ensures forall i :: 0 <= i < |courses| && courses[i].id == course.id ==> courses[i] == course
  {
  }

  /** An enrollment of an existing student in an existing course, appended with the next key
      for a pair not yet present, keeps `enrollments` valid. */
  lemma EnrollmentsSnoc(enrollments: seq<Enrollment>, studentCount: nat, courseCount: nat, e: Enrollment,
                        student: Student, students: seq<Student>, course: Course, courses: seq<Course>)
    requires EnrollmentsValid(enrollments, studentCount, courseCount)
    requires |students| == studentCount && forall i :: 0 <= i < |students| ==> students[i].id == i + 1
    requires |courses| == courseCount && forall i :: 0 <= i < |courses| ==> courses[i].id == i + 1
    requires student in students && course in courses
    requires e == Enrollment(|enrollments| + 1, student.id, course.id, EnrollmentModel.DefaultStatus)
    requires First(enrollments, EnrollmentPair(e.studentId, e.courseId)).None?
    ensures EnrollmentsValid(enrollments + [e], studentCount, courseCount)
  {
    EnrollmentModel.UniquePairsSnoc(enrollments, e);
    var si :| 0 <= si < |students| && students[si] == student;
    var ci :| 0 <= ci < |courses| && courses[ci] == course;
    EnrollmentRowsSnoc(enrollments, studentCount, courseCount, e);
  }

  /** The per-row conditions of `enrollments` survive appending a row that meets them. */
  lemma EnrollmentRowsSnoc(enrollments: seq<Enrollment>, studentCount: nat, courseCount: nat, e: Enrollment)
    requires EnrollmentsValid(enrollments, studentCount, courseCount)
    requires e.id == |enrollments| + 1 && 1 <= e.studentId <= studentCount && 1 <= e.courseId <= courseCount
    requires e.status in EnrollmentModel.Statuses
    ensures var all := enrollments + [e];
            forall i :: 0 <= i < |all| ==>
              && all[i].id == i + 1 && 1 <= all[i].studentId <= studentCount && 1 <= all[i].courseId <= courseCount
              && all[i].status in EnrollmentModel.Statuses
  {
  }

  /** Adding an enrollment to a course whose count is below its maximum keeps every course
      within capacity: only that course's count moves, by one. */
  lemma CapacitySnoc(courses: seq<Course>, enrollments: seq<Enrollment>, e: Enrollment, max: int)
    requires WithinCapacity(courses, enrollments)
    requires forall i :: 0 <= i < |courses| && courses[i].id == e.courseId ==> courses[i].maxEnrollment == max
    requires CourseModel.EnrolledCount(enrollments, e.courseId) < max
    ensures WithinCapacity(courses, enrollments + [e])
  {
    forall i | 0 <= i < |courses|
      ensures CourseModel.EnrolledCount(enrollments + [e], courses[i].id) <= courses[i].maxEnrollment
              || CourseModel.EnrolledCount(enrollments + [e], courses[i].id) == 0
    {
      CourseModel.EnrolledCountSnoc(enrollments, e, courses[i].id);
    }
  }

  /** `get_my_courses`: a student sees their own enrollments, a professor the courses they
      teach, both in table order; anyone else gets 403, and a student without a profile a 500. */
  method GetMyCourses(db: Backend) returns (r: Reply<MyCourses>)
    requires db.Valid()
    ensures
      if db.currentUser.None? then r == LoginRequired
      else if db.Me().value.role == StudentRole then
        var student := First(db.students, StudentOfUser(db.currentUser.value));
        if student.None? then r == ServerError
        else r == Ok(200, AsStudent(EnrollmentModel.ToDicts(Filter(db.enrollments, EnrollmentOf(student.value.id)),
                                                             db.users, db.students, db.courses, db.enrollments)))
      else if db.Me().value.role == ProfessorRole then
        r == Ok(200, AsProfessor(CourseModel.ToDicts(Filter(db.courses, CourseTaughtBy(db.currentUser.value)),
                                                     db.users, db.enrollments)))
      else r == Refused(403, AccessDenied)
  {
    var me := db.Me();
    if me.None? {
      return LoginRequired;
    }
    if me.value.role == StudentRole {
      var student := First(db.students, StudentOfUser(me.value.id));
      if student.None? {
        return ServerError;
      }
      var mine := Filter(db.enrollments, EnrollmentOf(student.value.id));
      r := Ok(200, AsStudent(EnrollmentModel.ToDicts(mine, db.users, db.students, db.courses, db.enrollments)));
    } else if me.value.role == ProfessorRole {
      var mine := Filter(db.courses, CourseTaughtBy(me.value.id));
      r := Ok(200, AsProfessor(CourseModel.ToDicts(mine, db.users, db.enrollments)));
    } else {
      r := Refused(403, AccessDenied);
    }
  }

  /** The enrollments a student is shown are exactly the table's enrollments of that student. */
  lemma MyEnrollmentsExact(enrollments: seq<Enrollment>, studentId: nat, e: Enrollment)
    ensures e in Filter(enrollments, EnrollmentOf(studentId)) <==> e in enrollments && e.studentId == studentId
  {
    FilterMember(enrollments, EnrollmentOf(studentId), e);
  }
}
