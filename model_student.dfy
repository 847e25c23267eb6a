/** backend/app/models/student.py: the `students` table's constraints, column defaults
    and `to_dict`. */
module StudentModel {
  import opened Wrappers
  import opened Schema
  import opened Query

  const DefaultGpa: real := 0.0
  const DefaultTotalCredits: int := 0

  /** The year levels the column's comment lists. Nothing enforces them: the column
      only refuses null. */
  const YearLevels: set<string> := {"freshman", "sophomore", "junior", "senior"}

  /** A profile as inserted: `gpa` and `total_credits` take their column defaults. */
  function NewStudent(id: nat, userId: nat, studentId: string, major: string, yearLevel: string): Student {
    Student(id, userId, studentId, major, yearLevel, DefaultGpa, DefaultTotalCredits)
  }

  /** `student_id` is `unique=True`: no two profiles share a student number. */
  predicate UniqueStudentIds(students: seq<Student>) {
    Unique(students, NumberOf)
  }

  /** The dictionary `to_dict` returns; `user` stands for the linked user row, whose own
      `to_dict` is not part of this model. */
  datatype StudentView = StudentView(
    id: nat,
    userId: nat,
    studentId: string,
    major: string,
    yearLevel: string,
    gpa: real,
    totalCredits: int,
    user: Option<User>)

  /** `Student.to_dict`: the stored fields unchanged, and the linked user, or None when no
      user row has the profile's `user_id`. */
  function ToDict(s: Student, users: seq<User>): (v: StudentView)
    ensures FromView(v) == s
    ensures v.user.Some? <==> exists i :: 0 <= i < |users| && users[i].id == s.userId
    ensures v.user.Some? ==> v.user.value in users && v.user.value.id == s.userId
  {
    StudentView(s.id, s.userId, s.studentId, s.major, s.yearLevel, s.gpa, s.totalCredits,
                First(users, UserWithId(s.userId)))
  }

  /** `[student.to_dict() for student in students]` */
  function ToDicts(students: seq<Student>, users: seq<User>): (vs: seq<StudentView>)
    ensures |vs| == |students| && forall i :: 0 <= i < |students| ==> vs[i] == ToDict(students[i], users)
    ensures forall i :: 0 <= i < |vs| ==> FromView(vs[i]) == students[i]
  {
    seq(|students|, i requires 0 <= i < |students| => ToDict(students[i], users))
  }

  /** The stored row a view was made from. */
  function FromView(v: StudentView): Student {
    Student(v.id, v.userId, v.studentId, v.major, v.yearLevel, v.gpa, v.totalCredits)
  }
}
