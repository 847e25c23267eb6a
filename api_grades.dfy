/** backend/app/api/grades.py: recording grades, and listing them for everyone, for one
    course and for the signed-in student grouped by course. An enrollment's `grades`
    backref is read as the grades table's rows for that enrollment, in table order. */
module GradesApi {
  import opened Wrappers
  import opened Schema
  import opened Query
  import opened Database
  import CourseModel
  import GradeModel
  import EnrollmentModel

  const AccessDenied: string := "Access denied"

  /** The JSON body of `POST /grades/`; None stands for an absent key. */
  datatype GradeRequest = GradeRequest(
    enrollmentId: Option<int>,
    assignmentName: Option<string>,
    gradeValue: Option<real>,
    maxPoints: Option<real>,
    assignmentType: Option<string>)

  /** The grades of each given enrollment, enrollment after enrollment: the list the
      handlers build with `grades.extend(enrollment.grades)`. */
  function GradesOf(es: seq<Enrollment>, grades: seq<Grade>): seq<Grade> {
    if es == [] then []
    else GradesOf(es[..|es| - 1], grades) + Filter(grades, GradeOf(es[|es| - 1].id))
  }

  /** A grade is collected exactly when it is in the table and belongs to one of the
      given enrollments. */
  lemma {:induction false} GradesOfMember(es: seq<Enrollment>, grades: seq<Grade>, g: Grade)
    ensures g in GradesOf(es, grades) <==> g in grades && exists i :: 0 <= i < |es| && es[i].id == g.enrollmentId
  {
    if es != [] {
      var init, last := es[..|es| - 1], es[|es| - 1];
      GradesOfMember(init, grades, g);
      FilterMember(grades, GradeOf(last.id), g);
      if exists i :: 0 <= i < |es| && es[i].id == g.enrollmentId {
        var i :| 0 <= i < |es| && es[i].id == g.enrollmentId;
        if i < |es| - 1 {
          assert init[i] == es[i];
        }
      }
    }
  }

  /** The extend loop of `get_grades` and `get_course_grades`. */
  method CollectGrades(es: seq<Enrollment>, grades: seq<Grade>) returns (out: seq<Grade>)
    ensures out == GradesOf(es, grades)
  {
    out := [];
    var i := 0;
    while i < |es|
      invariant 0 <= i <= |es|
      invariant out == GradesOf(es[..i], grades)
    {
      assert es[..i + 1][..i] == es[..i];
      out := out + Filter(grades, GradeOf(es[i].id));
      i := i + 1;
    }
    assert es[..|es|] == es;
  }

  /** What a student is shown are exactly the table's grades recorded against one of that
      student's enrollments. */
  lemma OwnGradesExact(enrollments: seq<Enrollment>, grades: seq<Grade>, studentId: int, g: Grade)
    ensures g in GradesOf(Filter(enrollments, EnrollmentOf(studentId)), grades)
            <==> g in grades && exists j :: 0 <= j < |enrollments| && enrollments[j].studentId == studentId
                                           && enrollments[j].id == g.enrollmentId
  {
    var mine := Filter(enrollments, EnrollmentOf(studentId));
    GradesOfMember(mine, grades, g);
    if exists i :: 0 <= i < |mine| && mine[i].id == g.enrollmentId {
      var i :| 0 <= i < |mine| && mine[i].id == g.enrollmentId;
      FilterMember(enrollments, EnrollmentOf(studentId), mine[i]);
    }
    if exists j :: 0 <= j < |enrollments| && enrollments[j].studentId == studentId && enrollments[j].id == g.enrollmentId {
      var j :| 0 <= j < |enrollments| && enrollments[j].studentId == studentId && enrollments[j].id == g.enrollmentId;
      FilterMember(enrollments, EnrollmentOf(studentId), enrollments[j]);
    }
  }

  /** `get_grades`: a student sees the grades of their own enrollments, anyone else every
      grade; a student without a profile gets a 500. */
  method GetGrades(db: Backend) returns (r: Reply<seq<GradeModel.GradeView>>)
    requires db.Valid()
    ensures
      if db.currentUser.None? then r == LoginRequired
      else if db.Me().value.role == StudentRole then
        var student := First(db.students, StudentOfUser(db.currentUser.value));
        if student.None? then r == ServerError
        else r == Ok(200, GradeModel.ToDicts(GradesOf(Filter(db.enrollments, EnrollmentOf(student.value.id)), db.grades)))
      else r == Ok(200, GradeModel.ToDicts(db.grades))
  {
    var me := db.Me();
    if me.None? {
      return LoginRequired;
    }
    if me.value.role == StudentRole {
      var student := First(db.students, StudentOfUser(me.value.id));
      if student.None? {
        return ServerError;
      }
      var collected := CollectGrades(Filter(db.enrollments, EnrollmentOf(student.value.id)), db.grades);
      r := Ok(200, GradeModel.ToDicts(collected));
    } else {
      r := Ok(200, GradeModel.ToDicts(db.grades));
    }
  }

  /** `create_grade`: only professors and admins may record a grade; a missing required key
      is a KeyError and so a 500. Otherwise one grade row is added with the next key and
      `max_points` defaulting to 100. The enrollment id is not checked: SQLite does not
      enforce the foreign key unless asked to. */
  method CreateGrade(db: Backend, data: GradeRequest) returns (r: Reply<GradeModel.GradeView>)
    requires db.Valid()
    modifies db`grades
    ensures db.Valid()
    ensures
      var me := old(db.Me());
      if me.None? then
        r == LoginRequired && db.grades == old(db.grades)
      else if me.value.role != ProfessorRole && me.value.role != AdminRole then
        r == Refused(403, AccessDenied) && db.grades == old(db.grades)
      else if data.enrollmentId.None? || data.assignmentName.None? || data.gradeValue.None?
              || data.assignmentType.None? then
        r == ServerError && db.grades == old(db.grades)
      else
        var grade := Grade(|old(db.grades)| + 1, data.enrollmentId.value, data.assignmentName.value,
                           data.gradeValue.value, data.maxPoints.GetOr(GradeModel.DefaultMaxPoints),
                           data.assignmentType.value);
        db.grades == old(db.grades) + [grade] && r == Ok(201, GradeModel.ToDict(grade))
  {
    var me := db.Me();
    if me.None? {
      return LoginRequired;
    }
    if me.value.role != ProfessorRole && me.value.role != AdminRole {
      return Refused(403, AccessDenied);
    }
    if data.enrollmentId.None? || data.assignmentName.None? || data.gradeValue.None? || data.assignmentType.None? {
      return ServerError;
    }
    var grade := Grade(|db.grades| + 1, data.enrollmentId.value, data.assignmentName.value,
                       data.gradeValue.value, data.maxPoints.GetOr(GradeModel.DefaultMaxPoints),
                       data.assignmentType.value);
    db.grades := db.grades + [grade];
    r := Ok(201, GradeModel.ToDict(grade));
  }

  /** `get_course_grades`: the grades of every enrollment in the course, for any signed-in
      user whatever their role. */
  method GetCourseGrades(db: Backend, courseId: nat) returns (r: Reply<seq<GradeModel.GradeView>>)
    requires db.Valid()
    ensures db.currentUser.None? ==> r == LoginRequired
    ensures db.currentUser.Some? ==>
              r == Ok(200, GradeModel.ToDicts(GradesOf(Filter(db.enrollments, EnrollmentIn(courseId)), db.grades)))
  {
    if db.currentUser.None? {
      return LoginRequired;
    }
    var collected := CollectGrades(Filter(db.enrollments, EnrollmentIn(courseId)), db.grades);
    r := Ok(200, GradeModel.ToDicts(collected));
  }

  /** The `"course"` part of a `my-grades` entry. */
  datatype CourseSummary = CourseSummary(code: string, title: string, credits: int)

  /** One value of the `my-grades` dictionary. */
  datatype CourseGrades = CourseGrades(course: CourseSummary, grades: seq<GradeModel.GradeView>)

  function Summary(c: Course): CourseSummary {
    CourseSummary(c.code, c.title, c.credits)
  }

  /** Every enrollment refers to a course in the table. */
  predicate Resolves(es: seq<Enrollment>, courses: seq<Course>) {
    forall i :: 0 <= i < |es| ==> First(courses, CourseWithId(es[i].courseId)).Some?
  }

  /** The dictionary `get_my_grades` builds, keyed by course code, a later enrollment
      overwriting an earlier one with the same code; None when some enrollment's course is
      missing, where `enrollment.course.course_code` raises. */
  function ByCourse(es: seq<Enrollment>, courses: seq<Course>, grades: seq<Grade>): (r: Option<map<string, CourseGrades>>)
    ensures r.Some? <==> Resolves(es, courses)
  {
    if es == [] then Some(map[])
    else
      var init, last := es[..|es| - 1], es[|es| - 1];
      var prev := ByCourse(init, courses, grades);
      var course := First(courses, CourseWithId(last.courseId));
      assert forall i :: 0 <= i < |init| ==> init[i] == es[i];
      if prev.None? || course.None? then None
      else Some(prev.value[course.value.code := CourseGrades(Summary(course.value),
                                                             GradeModel.ToDicts(Filter(grades, GradeOf(last.id))))])
  }

  /** Every key of the dictionary is the code of the course of one of the enrollments. */
  lemma {:induction false} ByCourseKeys(es: seq<Enrollment>, courses: seq<Course>, grades: seq<Grade>, k: string)
    requires ByCourse(es, courses, grades).Some?
    ensures k in ByCourse(es, courses, grades).value ==>
              exists i :: 0 <= i < |es| && Some(k) == ByCode(First(courses, CourseWithId(es[i].courseId)))
  {
    if es != [] {
      var init := es[..|es| - 1];
      if k in ByCourse(init, courses, grades).value {
        ByCourseKeys(init, courses, grades, k);
        var i :| 0 <= i < |init| && Some(k) == ByCode(First(courses, CourseWithId(init[i].courseId)));
        assert init[i] == es[i];
      } else if k in ByCourse(es, courses, grades).value {
        assert Some(k) == ByCode(First(courses, CourseWithId(es[|es| - 1].courseId)));
      }
    }
  }

  /** The code of a course that was found. */
  function ByCode(c: Option<Course>): Option<string> {
    if c.Some? then Some(c.value.code) else None
  }

  /** An enrollment that no later one shares a course with has an entry under its course's
      code holding the course's summary and exactly that enrollment's grades, provided
      codes are unique. */
  lemma {:induction false} ByCourseEntry(es: seq<Enrollment>, courses: seq<Course>, grades: seq<Grade>, i: nat)
    requires CourseModel.UniqueCodes(courses)
    requires i < |es| && ByCourse(es, courses, grades).Some?
    requires forall j :: i < j < |es| ==> es[j].courseId != es[i].courseId
    ensures var c := First(courses, CourseWithId(es[i].courseId)).value;
            var m := ByCourse(es, courses, grades).value;
            c.code in m && m[c.code] == CourseGrades(Summary(c), GradeModel.ToDicts(Filter(grades, GradeOf(es[i].id))))
  {
    var init := es[..|es| - 1];
    var c := First(courses, CourseWithId(es[i].courseId)).value;
    if i < |es| - 1 {
      assert init[i] == es[i];
      assert forall j :: i < j < |init| ==> init[j] == es[j];
      ByCourseEntry(init, courses, grades, i);
      var d := First(courses, CourseWithId(es[|es| - 1].courseId)).value;
      var a :| 0 <= a < |courses| && courses[a] == c;
      var b :| 0 <= b < |courses| && courses[b] == d;
      assert a != b;
      assert c.code != d.code by {
        if a < b { assert CodeOf(courses[a]) != CodeOf(courses[b]); } else { assert CodeOf(courses[b]) != CodeOf(courses[a]); }
      }
    }
  }

  /** In a consistent database every enrollment's course exists, so `get_my_grades` never
      reaches its 500 path for a student with a profile. */
  lemma ConsistentResolves(db: Backend, es: seq<Enrollment>)
    requires db.Valid()
    requires forall i :: 0 <= i < |es| ==> es[i] in db.enrollments
    ensures Resolves(es, db.courses)
  {
    forall i | 0 <= i < |es| ensures First(db.courses, CourseWithId(es[i].courseId)).Some? {
      var k :| 0 <= k < |db.enrollments| && db.enrollments[k] == es[i];
      assert CourseWithId(es[i].courseId)(db.courses[es[i].courseId - 1]);
    }
  }

  /** Under the one-row-per-pair constraint a student's enrollments are all in different courses. */
  lemma {:induction false} OwnCoursesDistinct(enrollments: seq<Enrollment>, studentId: int)
    requires EnrollmentModel.UniquePairs(enrollments)
    ensures var mine := Filter(enrollments, EnrollmentOf(studentId));
            forall i, j :: 0 <= i < j < |mine| ==> mine[i].courseId != mine[j].courseId
  {
    if enrollments != [] {
      var init, last := enrollments[..|enrollments| - 1], enrollments[|enrollments| - 1];
      assert forall k :: 0 <= k < |init| ==> init[k] == enrollments[k];
      UniquePrefix(enrollments, |init|, PairOf);
      OwnCoursesDistinct(init, studentId);
      var prev := Filter(init, EnrollmentOf(studentId));
      assert enrollments == init + [last];
      FilterSnoc(init, last, EnrollmentOf(studentId));
      if EnrollmentOf(studentId)(last) {
        var mine := prev + [last];
        forall i, j | 0 <= i < j < |mine| ensures mine[i].courseId != mine[j].courseId {
          if j == |prev| {
            FilterMember(init, EnrollmentOf(studentId), prev[i]);
            var k :| 0 <= k < |init| && init[k] == prev[i];
            assert enrollments[k] == prev[i] && enrollments[|init|] == last;
            assert PairOf(enrollments[k]) != PairOf(enrollments[|init|]);
          } else {
            assert mine[i] == prev[i] && mine[j] == prev[j];
          }
        }
      }
    }
  }

  /** In a consistent database `get_my_grades` lists every enrollment of the student under
      its course's code, with that course's summary and exactly that enrollment's grades. */
  lemma MyGradesComplete(db: Backend, studentId: int, e: Enrollment)
    requires db.Valid()
    requires e in db.enrollments && e.studentId == studentId
    ensures var mine := Filter(db.enrollments, EnrollmentOf(studentId));
            var grouped := ByCourse(mine, db.courses, db.grades);
            && grouped.Some? && First(db.courses, CourseWithId(e.courseId)).Some?
            && var c := First(db.courses, CourseWithId(e.courseId)).value;
               c.code in grouped.value
               && grouped.value[c.code] == CourseGrades(Summary(c), GradeModel.ToDicts(Filter(db.grades, GradeOf(e.id))))
  {
    var mine := Filter(db.enrollments, EnrollmentOf(studentId));
    forall i | 0 <= i < |mine| ensures mine[i] in db.enrollments {
      FilterMember(db.enrollments, EnrollmentOf(studentId), mine[i]);
    }
    ConsistentResolves(db, mine);
    FilterMember(db.enrollments, EnrollmentOf(studentId), e);
    var i :| 0 <= i < |mine| && mine[i] == e;
    OwnCoursesDistinct(db.enrollments, studentId);
    ByCourseEntry(mine, db.courses, db.grades, i);
  }

  /** The dictionary-building loop of `get_my_grades`. */
  method GroupByCourse(es: seq<Enrollment>, courses: seq<Course>, grades: seq<Grade>)
    returns (m: Option<map<string, CourseGrades>>)
    ensures m == ByCourse(es, courses, grades)
  {
    var acc: map<string, CourseGrades> := map[];
    var i := 0;
    while i < |es|
      invariant 0 <= i <= |es|
      invariant ByCourse(es[..i], courses, grades) == Some(acc)
    {
      var course := First(courses, CourseWithId(es[i].courseId));
      if course.None? {
        assert !Resolves(es, courses);
        return None;
      }
      assert es[..i + 1][..i] == es[..i];
      acc := acc[course.value.code := CourseGrades(Summary(course.value),
                                                   GradeModel.ToDicts(Filter(grades, GradeOf(es[i].id))))];
      i := i + 1;
    }
    assert es[..|es|] == es;
    m := Some(acc);
  }

  /** `get_my_grades`: only students; a student without a profile is a 500; otherwise their
      enrollments' grades grouped by course code. */
  method GetMyGrades(db: Backend) returns (r: Reply<map<string, CourseGrades>>)
    requires db.Valid()
    ensures
      if db.currentUser.None? then r == LoginRequired
      else if db.Me().value.role != StudentRole then r == Refused(403, AccessDenied)
      else
        var student := First(db.students, StudentOfUser(db.currentUser.value));
        if student.None? then r == ServerError
        else
          var grouped := ByCourse(Filter(db.enrollments, EnrollmentOf(student.value.id)), db.courses, db.grades);
          r == if grouped.None? then ServerError else Ok(200, grouped.value)
  {
    var me := db.Me();
    if me.None? {
      return LoginRequired;
    }
    if me.value.role != StudentRole {
      return Refused(403, AccessDenied);
    }
    var student := First(db.students, StudentOfUser(me.value.id));
    if student.None? {
      return ServerError;
    }
    var grouped := GroupByCourse(Filter(db.enrollments, EnrollmentOf(student.value.id)), db.courses, db.grades);
    if grouped.None? {
      return ServerError;
    }
    r := Ok(200, grouped.value);
  }
}
