/** backend/app/models/enrollment.py: the `enrollments` table's composite unique constraint,
    its default status and `to_dict`. */
module EnrollmentModel {
  import opened Wrappers
  import opened Schema
  import opened Query
  import StudentModel
  import CourseModel

  const DefaultStatus: string := "enrolled"

  /** The statuses the column's comment lists; nothing enforces them. */
  const Statuses: set<string> := {"enrolled", "dropped", "completed"}

  /** `UniqueConstraint("student_id", "course_id")`: no two rows join the same pair. */
  predicate UniquePairs(enrollments: seq<Enrollment>) {
    Unique(enrollments, PairOf)
  }

  /** Under the constraint a (student, course) pair has at most one enrollment. */
  lemma {:induction false} AtMostOnePerPair(enrollments: seq<Enrollment>, studentId: int, courseId: int)
    requires UniquePairs(enrollments)
    ensures Count(enrollments, EnrollmentPair(studentId, courseId)) <= 1
  {
    if enrollments != [] {
      var n := |enrollments| - 1;
      var init := enrollments[..n];
      UniquePrefix(enrollments, n, PairOf);
      if EnrollmentPair(studentId, courseId)(enrollments[n]) {
        forall i | 0 <= i < |init| ensures !EnrollmentPair(studentId, courseId)(init[i]) {
          assert PairOf(enrollments[i]) != PairOf(enrollments[n]);
        }
        FilterNone(init, EnrollmentPair(studentId, courseId));
      } else {
        AtMostOnePerPair(init, studentId, courseId);
      }
    }
  }

  /** Adding a row keeps the constraint exactly when its pair is not already present. */
  lemma UniquePairsSnoc(enrollments: seq<Enrollment>, e: Enrollment)
    requires UniquePairs(enrollments)
    ensures UniquePairs(enrollments + [e]) <==> First(enrollments, EnrollmentPair(e.studentId, e.courseId)).None?
  {
    var all := enrollments + [e];
    if First(enrollments, EnrollmentPair(e.studentId, e.courseId)).Some? {
      var i :| 0 <= i < |enrollments| && EnrollmentPair(e.studentId, e.courseId)(enrollments[i]);
      assert all[i] == enrollments[i] && all[|enrollments|] == e;
      assert PairOf(all[i]) == PairOf(all[|enrollments|]);
    } else {
      forall i | 0 <= i < |enrollments| ensures PairOf(enrollments[i]) != PairOf(e) {
        assert !EnrollmentPair(e.studentId, e.courseId)(enrollments[i]);
      }
      UniqueSnoc(enrollments, e, PairOf);
    }
  }

  /** The dictionary `to_dict` returns (without `enrollment_date`). */
  datatype EnrollmentView = EnrollmentView(
    id: nat,
    studentId: nat,
    courseId: nat,
    status: string,
    student: Option<StudentModel.StudentView>,
    course: Option<CourseModel.CourseView>)

  /** `Enrollment.to_dict`: the stored fields unchanged, and the student's and the course's
      own dictionaries, each None when the row it refers to is missing. */
  function ToDict(e: Enrollment, users: seq<User>, students: seq<Student>, courses: seq<Course>,
                  enrollments: seq<Enrollment>): (v: EnrollmentView)
    ensures FromView(v) == e
    ensures v.student.Some? <==> exists i :: 0 <= i < |students| && students[i].id == e.studentId
    ensures v.student.Some? ==> v.student.value.id == e.studentId
                                && StudentModel.FromView(v.student.value) in students
                                && v.student.value == StudentModel.ToDict(StudentModel.FromView(v.student.value), users)
    ensures v.course.Some? <==> exists i :: 0 <= i < |courses| && courses[i].id == e.courseId
    ensures v.course.Some? ==> v.course.value.id == e.courseId
                               && v.course.value.enrolledCount == CourseModel.EnrolledCount(enrollments, e.courseId)
                               && CourseModel.FromView(v.course.value) in courses
                               && v.course.value == CourseModel.ToDict(CourseModel.FromView(v.course.value), users, enrollments)
  {
    var student := First(students, StudentWithId(e.studentId));
    var course := First(courses, CourseWithId(e.courseId));
    EnrollmentView(e.id, e.studentId, e.courseId, e.status,
                   if student.Some? then Some(StudentModel.ToDict(student.value, users)) else None,
                   if course.Some? then Some(CourseModel.ToDict(course.value, users, enrollments)) else None)
  }

  /** `[enrollment.to_dict() for enrollment in enrollments]` */
  function ToDicts(rows: seq<Enrollment>, users: seq<User>, students: seq<Student>, courses: seq<Course>,
                   enrollments: seq<Enrollment>): (vs: seq<EnrollmentView>)
    ensures |vs| == |rows| && forall i :: 0 <= i < |rows| ==> vs[i] == ToDict(rows[i], users, students, courses, enrollments)
    ensures forall i :: 0 <= i < |vs| ==> FromView(vs[i]) == rows[i]
  {
    seq(|rows|, i requires 0 <= i < |rows| => ToDict(rows[i], users, students, courses, enrollments))
  }

  /** The stored row a view was made from. */
  function FromView(v: EnrollmentView): Enrollment {
    Enrollment(v.id, v.studentId, v.courseId, v.status)
  }
}
