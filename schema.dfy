/** The rows of the university variant's tables, one datatype per SQLAlchemy model.
    Integer keys are `nat`; Float columns are `real`; nullable text columns that the
    handlers always fill are plain strings. Timestamps are left out. */
module Schema {

  const StudentRole: string := "student"
  const ProfessorRole: string := "professor"
  const AdminRole: string := "admin"

  /** A row of `users`. backend/app/models/user.py is not part of this model: the fields
      are the ones the handlers read and write, and `passwordHash` is whatever
      `set_password` stored. */
  datatype User = User(
    id: nat,
    username: string,
    email: string,
    firstName: string,
    lastName: string,
    role: string,
    passwordHash: string)

  /** A row of `students`: the profile of a student-role user. */
  datatype Student = Student(
    id: nat,
    userId: nat,
    studentId: string,
    major: string,
    yearLevel: string,
    gpa: real,
    totalCredits: int)

  /** A row of `courses`. */
  datatype Course = Course(
    id: nat,
    code: string,
    title: string,
    description: string,
    credits: int,
    professorId: int,
    department: string,
    semester: string,
    year: int,
    maxEnrollment: int)

  /** A row of `enrollments`, joining a student profile (`students.id`) to a course. */
  datatype Enrollment = Enrollment(
    id: nat,
    studentId: nat,
    courseId: nat,
    status: string)

  /** A row of `grades`. */
  datatype Grade = Grade(
    id: nat,
    enrollmentId: int,
    assignmentName: string,
    gradeValue: real,
    maxPoints: real,
    assignmentType: string)

  /** The primary keys, for `Query.Replace`. */
  function UserKey(u: User): int { u.id }
  function StudentKey(s: Student): int { s.id }

  /** The columns with a unique constraint, as keys for `Query.Unique`. */
  function UsernameOf(u: User): string { u.username }
  function EmailOf(u: User): string { u.email }
  function OwnerOf(s: Student): nat { s.userId }
  function NumberOf(s: Student): string { s.studentId }
  function CodeOf(c: Course): string { c.code }
  function PairOf(e: Enrollment): (nat, nat) { (e.studentId, e.courseId) }

  /** The column filters the handlers query by. */
  function UserWithId(id: int): User -> bool { (u: User) => u.id == id }
  function UserNamed(username: string): User -> bool { (u: User) => u.username == username }
  function UserWithEmail(email: string): User -> bool { (u: User) => u.email == email }
  function StudentWithId(id: int): Student -> bool { (s: Student) => s.id == id }
  function StudentOfUser(userId: int): Student -> bool { (s: Student) => s.userId == userId }
  function CourseWithId(id: int): Course -> bool { (c: Course) => c.id == id }
  function CourseWithCode(code: string): Course -> bool { (c: Course) => c.code == code }
  function CourseTaughtBy(professorId: int): Course -> bool { (c: Course) => c.professorId == professorId }
  function EnrollmentOf(studentId: int): Enrollment -> bool { (e: Enrollment) => e.studentId == studentId }
  function EnrollmentIn(courseId: int): Enrollment -> bool { (e: Enrollment) => e.courseId == courseId }
  function EnrollmentPair(studentId: int, courseId: int): Enrollment -> bool {
    (e: Enrollment) => e.studentId == studentId && e.courseId == courseId
  }
  function GradeOf(enrollmentId: int): Grade -> bool { (g: Grade) => g.enrollmentId == enrollmentId }
}
