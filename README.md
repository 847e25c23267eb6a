# flask-sqlite-auth in Dafny

A Dafny model of the two server variants in this repository, with proofs about each.

- **The single-file app (`app.py`).** It keeps a table from username to password hash and a session slot. Four form handlers guard every change: `login`, `signup`, `settings` and `logout`.
- **The university JSON API (`backend/app`).** It has five tables: users, student profiles, courses, enrollments and grades. Flask-Login holds the signed-in user. Handlers register and log in users, create courses and grades, enrol students under a duplicate check and a capacity check, edit a student's own profile key by key, and list grades grouped per enrollment and per course code.

Both variants change state in place, so each is a class:

- `FlaskApp.App` has the user map and the session.
- `Database.Backend` has the five tables, kept as sequences in insertion order, plus the signed-in user's id.

Every handler is a method whose `ensures` states the reply and the whole new state for each branch of its guard chain. Every mutating handler preserves `Backend.Valid()`, the database invariant:

- keyed rows;
- unique usernames, emails, course codes, profile owners and (student, course) pairs;
- resolving foreign keys for `students.user_id`, `enrollments.student_id` and `enrollments.course_id`;
- no course over its `max_enrollment`;
- a signed-in user who exists.

The model classes' `to_dict`, the student-number formatter `STU{id:06d}` and the grade bands are pure functions. Lemmas relate them to reference definitions: a parser for the round trip, thresholds for the letter bands, and membership characterisations for the query results.

Modules, one per source file or shared concern:

- `Wrappers`: Option.
- `Query`: `filter_by().all()`, `.first()`, `.count()` and unique columns.
- `Schema`: the rows.
- `StudentIds`.
- `StudentModel`, `CourseModel`, `EnrollmentModel`, `GradeModel`.
- `Database`: the invariant and the backend class.
- `AuthApi`, `CoursesApi`, `GradesApi`, `StudentsApi`.
- `FlaskApp`.

Two points where the model follows the code rather than the intended schema:

- A missing row looked up with `get_or_404` / `first_or_404` raises NotFound inside the handlers' broad `except Exception`, so the reply is a 500 and not a 404.
- A grade is not checked to reference an existing enrollment. SQLite does not enforce foreign keys unless asked to, and `create_grade` checks nothing.

## Model

| member | source | states |
|---|---|---|
| FlaskApp.App.constructor | app.py:12-18 | a fresh application has an empty users table and nobody signed in |
| FlaskApp.App.LookupMatches | app.py:25-28 | the lookup returns the hash of a password exactly when that password opens the account, which is what `login` and `settings` compare |
| FlaskApp.App.CreateUser | app.py:31-40 | returns true iff the username was free; then exactly that one row, mapping the name to `hash_pw(password)`, is added, otherwise the table is unchanged; after a successful insert the lookup returns that hash and the password opens the account; the session never changes |
| FlaskApp.App.UpdatePassword | app.py:43-52 | the named row alone gets the new password's hash, after which the new password opens it; an unknown name changes nothing |
| FlaskApp.App.Login | app.py:60-73 | a POST signs the user in and redirects to the dashboard iff the stored hash equals `hash_pw(password)`; otherwise "Invalid credentials" and the session is unchanged; a missing form field is a 400; the table never changes |
| FlaskApp.App.Signup | app.py:76-98 | guards in order: username under 3, password under 6, confirmation mismatch, name taken, each with its message and the table unchanged; otherwise exactly one row with `hash_pw(password)` and a redirect to login; the session never changes |
| FlaskApp.App.Dashboard | app.py:101-105 | redirects to login without a session user, otherwise shows the dashboard for that user |
| FlaskApp.App.Settings | app.py:108-133 | without a session user, a redirect and no change; on POST, old password wrong, then new password under 6, then mismatch, each an error page with the table unchanged; otherwise only the session user's row changes, to `hash_pw(new)` |
| FlaskApp.App.Logout | app.py:136-139 | the session is empty afterwards and the table is unchanged |
| FlaskApp.SignupThenLogin | app.py:60-98 | a valid signup of a free name followed by a login with the same password signs that user in |
| FlaskApp.SignupTwice | app.py:76-96 | a second signup of the same name fails with "Username already exists" and the one row keeps the first password's hash |
| FlaskApp.ChangePasswordThenLogin | app.py:108-131 | after a successful change the new password logs in and the old one is refused (when the two hash differently) |
| Database.Backend.constructor | backend/app/__init__.py:44-45 | the tables start empty, nobody is signed in, and the invariant holds |
| Database.Backend.Me | backend/app/__init__.py:37-41 | the signed-in user, loaded by id, is a row of `users` stored at its key; under the invariant it exists exactly when someone is signed in |
| Database.UsersSnoc | backend/app/api/auth.py:16-33 | a user appended with the next key and a username and an email nobody holds keeps `users` keyed and both columns unique |
| Database.StudentsSnoc | backend/app/api/auth.py:36-44 | a profile for a user without one, numbered from that user's id, keeps `students` valid |
| Database.NumbersFollowUsers | backend/app/models/student.py:9 | one profile per user implies the `student_id` unique constraint |
| AuthApi.Register | backend/app/api/auth.py:10-54 | taken username then taken email refuse with 400 and change nothing; a missing required key is a 500 and changes nothing; otherwise exactly one user row with the role defaulting to "student" and, for a student, exactly one profile numbered `STU{id:06d}` with major and year level defaulting to "Undeclared" and "freshman"; the invariant is kept |
| AuthApi.ProfilesAfter | backend/app/api/auth.py:35-44 | a student-role user adds one profile after the old rows unchanged: the next key, the user's id, the number `STU{id:06d}`, the given major and year level, GPA 0.0 and 0 credits; any other role adds none |
| AuthApi.AddAccount | backend/app/api/auth.py:32-44 | the inserts of `register` keep the database invariant and append exactly the user and that user's profile, if any |
| AuthApi.AccountKeepsValid | backend/app/api/auth.py:16-44 | a user with the next id, a free username and a free email, plus that user's profile, keeps every table valid |
| AuthApi.ProfilesKeepValid | backend/app/api/auth.py:36-44 | the profile registration adds keeps `students` valid and every enrollment resolving |
| AuthApi.Login | backend/app/api/auth.py:57-70 | 200 and that user signed in iff the username exists and `check_password` accepts; an unknown name is 401; a known name with no password key is a KeyError and so a 500, as is a missing username; a wrong password is 401; nobody new is signed in except on 200 |
| AuthApi.Logout | backend/app/api/auth.py:73-77 | afterwards nobody is signed in; an anonymous request is turned away by `login_required` |
| AuthApi.GetCurrentUser | backend/app/api/auth.py:80-83 | the reply is the signed-in user's own row, and login-required exactly when nobody is signed in |
| AuthApi.RegisterThenLogin | backend/app/api/auth.py:10-70 | registering a free name and email and then logging in with the same password signs in exactly the registered user |
| StudentIds.Decimal | backend/app/api/auth.py:39 | a non-empty string of decimal digits, one digit below ten |
| StudentIds.ZeroPad | backend/app/api/auth.py:39 | the string padded on the left with zeros to the width, ending in the original string |
| StudentIds.ParseStudentId | backend/app/api/auth.py:39 | accepts exactly "STU" followed by one or more digits |
| StudentIds.StudentIdShape | backend/app/api/auth.py:39 | a number is "STU" and at least six digits, exactly six iff the id is below one million |
| StudentIds.DecimalRoundTrip | backend/app/api/auth.py:39 | the digits of a number read back to that number |
| StudentIds.DecimalLength | backend/app/api/auth.py:39 | an id fits six digits iff it is below one million |
| StudentIds.StudentIdRoundTrip | backend/app/api/auth.py:39 | the digit suffix of `STU{id:06d}` parses back to the id |
| StudentIds.StudentIdInjective | backend/app/models/student.py:9 | distinct user ids give distinct student numbers |
| StudentModel.ToDict | backend/app/models/student.py:21-31 | the stored fields are copied unchanged; `user` is the row with the profile's `user_id`, and None iff there is none |
| StudentModel.ToDicts | backend/app/api/students.py:15 | one view per profile, in order, and each view reads back as exactly its profile row |
| CourseModel.ToDict | backend/app/models/course.py:22-36 | the stored fields are copied unchanged; `professor` is None iff no user has the professor id; `enrolled_count` is the number of enrollments referencing the course |
| CourseModel.ToDicts | backend/app/api/courses.py:16 | one view per course, in order; each view reads back as exactly its course row and counts that course's enrollments |
| CourseModel.EnrolledCountSnoc | backend/app/models/course.py:35 | a new enrollment raises its own course's count by one and no other course's |
| CourseModel.EnrolledCountZero | backend/app/models/course.py:35 | a course no enrollment references has a count of zero |
| EnrollmentModel.AtMostOnePerPair | backend/app/models/enrollment.py:15-18 | under the composite unique constraint a (student, course) pair has at most one enrollment |
| EnrollmentModel.UniquePairsSnoc | backend/app/models/enrollment.py:15-18 | appending a row keeps the constraint iff its pair is not already present |
| EnrollmentModel.ToDict | backend/app/models/enrollment.py:20-31 | the stored fields are copied unchanged; `student` and `course` are the referenced rows' views, each None iff the row is missing; a present nested view is the view of a row of that table (with its own nested data) |
| EnrollmentModel.ToDicts | backend/app/api/courses.py:111 | one view per enrollment, in order, and each view reads back as exactly its enrollment row |
| CoursesApi.GetCourses | backend/app/api/courses.py:11-18 | every course's view, in table order |
| CoursesApi.GetCourse | backend/app/api/courses.py:21-28 | 200 iff a course has the key, with that course's view; otherwise 500 |
| CoursesApi.CreateCourse | backend/app/api/courses.py:31-63 | non-professor/admin is 403; a missing required key or a code in use is 500; all of these change nothing; otherwise exactly one course with defaults "" / 3 / the creator / 30 and an enrolled count of zero; the invariant is kept |
| CoursesApi.AddCourse | backend/app/api/courses.py:40-53 | inserting a course with the next key and a free code keeps the invariant and the new course has no enrollments |
| CoursesApi.CoursesSnoc | backend/app/models/course.py:8 | a course with the next key and a code not in use keeps `courses` keyed with unique codes |
| CoursesApi.EnrollInCourse | backend/app/api/courses.py:66-101 | non-student 403, then no profile or no course 500, then an existing pair 400 "Already enrolled", then a count at or over the maximum 400 "Course is full", each changing nothing; otherwise exactly one "enrolled" row for the pair, the course's count up by one and still within its maximum; the invariant is kept |
| CoursesApi.EnrollAs | backend/app/api/courses.py:73-98 | the guards and the insert after the role check, with the same outcomes |
| CoursesApi.AddEnrollment | backend/app/api/courses.py:88-91 | inserting a fresh pair into a course with room keeps the invariant, appends exactly that row, raises the count by one and keeps it within the maximum |
| CoursesApi.EnrollmentKeepsValid | backend/app/api/courses.py:77-91 | an existing student in an existing course with room, for a pair not yet enrolled, keeps every table valid |
| CoursesApi.EnrollmentsSnoc | backend/app/models/enrollment.py:15-18 | an enrollment of an existing student in an existing course, for a new pair, keeps `enrollments` valid |
| CoursesApi.CapacitySnoc | backend/app/api/courses.py:84-91 | an enrollment in a course below its maximum keeps every course within capacity |
| CoursesApi.GetMyCourses | backend/app/api/courses.py:104-119 | a student sees exactly their own enrollments (500 without a profile), a professor the courses they teach, anyone else 403 |
| CoursesApi.MyEnrollmentsExact | backend/app/api/courses.py:110 | an enrollment is listed iff it is in the table and belongs to the student |
| GradeModel.Percentage | backend/app/models/grade.py:22-24 | with a positive maximum, percentage × max = value × 100 (between 0 and 100 when the value is); otherwise 0 |
| GradeModel.LetterOf | backend/app/models/grade.py:26-38 | the best letter whose threshold the percentage reaches: A iff ≥ 90, B iff in [80, 90), C iff in [70, 80), D iff in [60, 70), F iff below 60 |
| GradeModel.LetterName | backend/app/models/grade.py:29-38 | each letter is a one-character string, and "A", "B", "C", "D", "F" each name exactly their own letter |
| GradeModel.LetterMonotone | backend/app/models/grade.py:27-38 | a higher percentage never gives a worse letter |
| GradeModel.BoundariesGoUp | backend/app/models/grade.py:29-36 | 90, 80, 70 and 60 exactly fall in the higher band |
| GradeModel.NoMaximumFails | backend/app/models/grade.py:22-38 | a maximum of at most 0 gives percentage 0 and letter F |
| GradeModel.ToDict | backend/app/models/grade.py:40-53 | the stored fields are copied unchanged; percentage and letter are consistent with the two properties; the letter is "A" iff the percentage is at least 90, "B" iff in [80, 90), "C" iff in [70, 80), "D" iff in [60, 70), "F" iff below 60; no maximum gives 0 and "F" |
| GradeModel.ToDicts | backend/app/api/grades.py:21 | one view per grade, in order; each view reads back as exactly its grade row and carries that grade's letter |
| GradesApi.GradesOfMember | backend/app/api/grades.py:17-20 | a grade is collected iff it is in the table and belongs to one of the given enrollments |
| GradesApi.CollectGrades | backend/app/api/grades.py:18-20 | the extend loop yields the grades of the enrollments, enrollment by enrollment |
| GradesApi.OwnGradesExact | backend/app/api/grades.py:15-21 | a student is shown a grade iff it is in the table and recorded against one of that student's enrollments |
| GradesApi.GetGrades | backend/app/api/grades.py:11-27 | a student gets the grades of their enrollments (500 without a profile); other roles get every grade |
| GradesApi.CreateGrade | backend/app/api/grades.py:30-58 | non-professor/admin is 403; a missing required key is 500; both change nothing; otherwise exactly one grade with `max_points` defaulting to 100; the invariant is kept |
| GradesApi.GetCourseGrades | backend/app/api/grades.py:61-72 | the grades of exactly the course's enrollments, for any signed-in user |
| GradesApi.ByCourse | backend/app/api/grades.py:85-96 | the dictionary exists iff every enrollment's course exists |
| GradesApi.ByCourseKeys | backend/app/api/grades.py:85-96 | every key is the code of the course of one of the enrollments |
| GradesApi.ByCourseEntry | backend/app/api/grades.py:85-96 | with unique codes, an enrollment not overwritten by a later one in the same course has an entry holding its course summary and exactly its grades |
| GradesApi.ConsistentResolves | backend/app/api/grades.py:87-88 | in a valid database every enrollment's course exists, so the grouping never fails |
| GradesApi.OwnCoursesDistinct | backend/app/models/enrollment.py:15-18 | under the pair constraint a student's enrollments are all in different courses |
| GradesApi.MyGradesComplete | backend/app/api/grades.py:82-98 | in a valid database every enrollment of the student appears under its course code with the course's code, title, credits and exactly that enrollment's grades |
| GradesApi.GroupByCourse | backend/app/api/grades.py:85-96 | the dictionary loop computes the grouping, or fails when a course is missing |
| GradesApi.GetMyGrades | backend/app/api/grades.py:75-101 | non-student 403, no profile 500, otherwise the grades of the student's enrollments grouped by course code |
| StudentsApi.UpdateStudent | backend/app/api/students.py:54-57 | major and year level change exactly when their keys are present; key, user, number, gpa and credits never change |
| StudentsApi.UpdateUser | backend/app/api/students.py:60-66 | first name, last name and email change exactly when their keys are present; id, username, role and password hash never change |
| StudentsApi.UpdateIdempotent | backend/app/api/students.py:54-66 | applying the same update twice equals applying it once |
| StudentsApi.EmptyUpdate | backend/app/api/students.py:54-66 | an update with none of the keys changes nothing |
| StudentsApi.UpdatesCompose | backend/app/api/students.py:54-66 | two updates in a row equal one update carrying the keys of both, the later winning |
| Query.Replace | backend/app/api/students.py:53-68 | committing an edited row replaces every row with its key by it; every other row stays |
| Query.ReplaceKeyed | backend/app/api/students.py:53-68 | on a table keyed by position, committing an edited row changes exactly the position its key names |
| StudentsApi.GetStudents | backend/app/api/students.py:10-17 | every profile's view, in table order |
| StudentsApi.GetStudent | backend/app/api/students.py:20-27 | 200 iff a profile has the key, with that profile's view; otherwise 500 |
| StudentsApi.GetMyProfile | backend/app/api/students.py:30-40 | non-student 403; a student's own profile, or 500 without one |
| StudentsApi.UpdateMyProfile | backend/app/api/students.py:43-81 | non-student 403, no profile 500, an email held by another user 500, each changing nothing; otherwise only the caller's profile and user rows change, key by key, the reply shows the updated profile, and the invariant is kept |
| StudentsApi.ApplyUpdate | backend/app/api/students.py:53-78 | the assignments and commit replace exactly the caller's profile and user row and keep the invariant |
| StudentsApi.ProfileEditKeepsValid | backend/app/api/students.py:53-68 | editing the caller's own rows with an email nobody else holds keeps every table valid |
| StudentsApi.FoundProfileKeepsValid | backend/app/api/students.py:51-57 | editing the profile the query finds keeps `students` valid |
| StudentsApi.ProfileKeepsValid | backend/app/api/students.py:54-57 | replacing a profile by one with the same key, user and number keeps `students` valid |
| StudentsApi.MyRowKeepsValid | backend/app/api/students.py:60-68 | editing a user's own row keeps `users` valid when the new email is not another user's |
| StudentsApi.OwnEmailFree | backend/app/api/students.py:65-68 | a user's own email is not held by anyone else |
| StudentsApi.EmailFreeFor | backend/app/api/students.py:65-68 | an email no other user holds is held by nobody else |
| StudentsApi.UserKeepsValid | backend/app/api/students.py:60-68 | replacing a user row by one with the same username and an email no other user holds keeps usernames and emails unique |

## Left out

- The database file, connections and commits (`init_db`'s file check, `with sqlite3.connect`) are left out: tables are in-memory sequences and maps.
- A commit that fails for a reason other than a unique constraint is left out. So is `update_password` returning False and the "Error changing password" page.
- `hash_pw` (SHA-256) and werkzeug's `set_password` / `check_password` are fixed functions given when the application or backend is built. The random salt is not modelled.
- Flask's session cookie and Flask-Login are modelled as an optional username or user id field.
- `backend/app/models/user.py` is not part of this model. `User` holds only the fields the handlers use, and `user.to_dict()` is returned as the row itself.
- Request bodies are typed records whose fields are Option (absent key). JSON `null`, values of the wrong type, and bodies that are not JSON are left out.
- Timestamps (`enrollment_date`, `date_recorded`) and their `isoformat` are left out of the views.
- Float columns are real numbers, so rounding and division by tiny maxima are not modelled.
- The text of `str(e)` in 500 replies is not modelled; only that a 500 is returned.
- Template rendering, the `index` redirect, CORS, the app factory, `frontend/static/js/app.js` and the read-only `GET` page handlers beyond those in the table are left out.
- Concurrent requests are not modelled: each handler is one atomic step. Under concurrency, two `register` or `enroll_in_course` requests can both pass the check before either inserts, and the model cannot show that race.
- `users.email` is assumed unique, as a database constraint, since `user.py` is not part of this model. The profile update (`backend/app/api/students.py:65-66`) assigns the email without checking it. The model relies on the constraint: a taken email fails the commit and gives a 500. Without the constraint the source would store a duplicate email and reply 200.
- `courses.professor_id` is stored unchecked: `create_course` stores the given professor id, or the creator's id when none is given, without looking it up (`backend/app/api/courses.py:45`). The invariant therefore does not require it to resolve, and `CourseModel.ToDict` gives no `professor` view when it does not.
- Deleting rows is not modelled: no handler in these files deletes. Row keys are therefore positions plus one.
- Year level and enrollment status values are listed (`StudentModel.YearLevels`, `EnrollmentModel.Statuses`). Nothing in the code enforces the year levels. The invariant's status condition holds only because no handler writes a status other than the default.
- The database invariant requires every enrollment to reference an existing student and course, because the handlers only create such rows. The grades table's `enrollment_id` is not required to resolve, because `create_grade` does not check it.
