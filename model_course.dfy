/** backend/app/models/course.py: the `courses` table's constraints, column defaults and
    `to_dict` with its count of enrollments. */
module CourseModel {
  import opened Wrappers
  import opened Schema
  import opened Query

  const DefaultCredits: int := 3
  const DefaultMaxEnrollment: int := 30

  /** `course_code` is `unique=True`: no two courses share a code. */
  predicate UniqueCodes(courses: seq<Course>) {
    Unique(courses, CodeOf)
  }

  /** `course.enrollments.count()`: the enrollments that reference the course. */
  function EnrolledCount(enrollments: seq<Enrollment>, courseId: int): nat {
    Count(enrollments, EnrollmentIn(courseId))
  }

  /** A new enrollment raises the count of its own course by one and of no other. */
  lemma EnrolledCountSnoc(enrollments: seq<Enrollment>, e: Enrollment, courseId: int)
    ensures EnrolledCount(enrollments + [e], courseId)
         == EnrolledCount(enrollments, courseId) + (if e.courseId == courseId then 1 else 0)
  {
    FilterSnoc(enrollments, e, EnrollmentIn(courseId));
  }

  /** A course no enrollment references has a count of zero. */
  lemma EnrolledCountZero(enrollments: seq<Enrollment>, courseId: int)
    requires forall i :: 0 <= i < |enrollments| ==> enrollments[i].courseId != courseId
    ensures EnrolledCount(enrollments, courseId) == 0
  {
    FilterNone(enrollments, EnrollmentIn(courseId));
  }

  /** The dictionary `to_dict` returns; `professor` stands for the professor's user row,
      whose own `to_dict` is not part of this model. */
  datatype CourseView = CourseView(
    id: nat,
    code: string,
    title: string,
    description: string,
    credits: int,
    professorId: int,
    department: string,
    semester: string,
    year: int,
    maxEnrollment: int,
    professor: Option<User>,
    enrolledCount: nat)

  /** `Course.to_dict`: the stored fields unchanged, the professor or None, and the number
      of enrollments that reference the course. */
  function ToDict(c: Course, users: seq<User>, enrollments: seq<Enrollment>): (v: CourseView)
    ensures FromView(v) == c
    ensures v.professor.Some? <==> exists i :: 0 <= i < |users| && users[i].id == c.professorId
    ensures v.professor.Some? ==> v.professor.value in users && v.professor.value.id == c.professorId
    ensures v.enrolledCount == |Filter(enrollments, EnrollmentIn(c.id))|
    ensures v.enrolledCount <= |enrollments|
  {
    CourseView(c.id, c.code, c.title, c.description, c.credits, c.professorId, c.department,
               c.semester, c.year, c.maxEnrollment,
               First(users, UserWithId(c.professorId)), EnrolledCount(enrollments, c.id))
  }

  /** `[course.to_dict() for course in courses]` */
  function ToDicts(courses: seq<Course>, users: seq<User>, enrollments: seq<Enrollment>): (vs: seq<CourseView>)
    ensures |vs| == |courses| && forall i :: 0 <= i < |courses| ==> vs[i] == ToDict(courses[i], users, enrollments)
    ensures forall i :: 0 <= i < |vs| ==>
              FromView(vs[i]) == courses[i] && vs[i].enrolledCount == EnrolledCount(enrollments, courses[i].id)
  {
    seq(|courses|, i requires 0 <= i < |courses| => ToDict(courses[i], users, enrollments))
  }

  /** The stored row a view was made from. */
  function FromView(v: CourseView): Course {
    Course(v.id, v.code, v.title, v.description, v.credits, v.professorId, v.department,
           v.semester, v.year, v.maxEnrollment)
  }
}
