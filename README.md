# Enrollment and grading ledger of Lab_8/app.py

`Lab_8/app.py` is a small Flask application. Students enroll in courses and drop
them, teachers record grades for the students of the courses they teach, and
admins edit the raw tables. The part with real rules is the ledger: five tables,
their unique keys and cascades, and the handlers that check and then write these
tables. This project models that ledger in Dafny and proves its rules.

- `schema.dfy` (module `Schema`): the five tables and the constraints the
  schema declares.
  - The tables: users, courses, enrollments, grades and teacher assignments.
  - The constraints: primary keys, unique usernames, the `unique_enrollment`
    and `unique_teacher_course` pairs, and at most one grade per enrollment.
  - It also requires that no grade outlives its enrollment.
  - `Valid` is their conjunction.
- `tables.dfy` (module `Tables`): the queries the handlers run.
  - The lookups that `get_or_404` and `filter_by(...).first()` perform.
  - `Course.get_enrollment_count` (`Count`) and `Course.is_full` (`IsFull`).
  - The `Enrollment.grade` relationship.
  - The delete cascade of that relationship.
  - The row id SQLite assigns on insert: one more than the largest id, or 1
    for an empty table.
- `access.dfy` (module `Access`): the caller context, the gates and the login
  view.
  - The session is an explicit value `Session(loggedIn, userId, role)`.
  - `LoginGate` models the `login_required` decorator and `RoleGate` models
    `role_required`; `RouteGate` is the two stacked as the routes use them.
  - `Login` models the login view's POST branch, with `str.strip()` (`Strip`).
- `rules.dfy` (module `Rules`): every handler of the core as a pure function
  from the database and the session to a result.
  - The handlers that write return the new database and a typed outcome.
  - The read-only handlers return a refusal or the data their page shows.
  - This file also holds the lemmas about the handlers.
- `store.dfy` (module `Store`): class `Ledger`, whose `seq` fields are the
  tables.
  - `StudentEnroll`, `StudentDrop` and `TeacherEditGrade` change those fields
    the way the handlers do.
    - `db.session.add` becomes an append.
    - `db.session.delete` becomes two slices: the cascade first removes the
      enrollment's grade row, if it has one, and then the enrollment row goes.
    - The grade write is an in-place update of the existing row.
  - `TeacherCourseDetail` builds `students_data` with a loop.
  - Each of the three writing methods is proved to have exactly the effect and
    outcome of its rule in `Rules`, and to keep `Valid`.
  - `TeacherCourseDetail` changes nothing, and is proved to return exactly
    what `Rules.CourseDetail` gives.
- `scenarios.dfy` (module `Scenarios`): concrete checks.
  - The rows `init_db` creates, with their status query.
  - A course with one seat filled, refused, freed and filled again.
  - A teacher editing a grade in a course they do not teach.
  - The inclusive grade bounds.
- `wrappers.dfy`: `Option`.

Each flash-and-redirect branch of a handler is one constructor of
`Rules.Outcome`. A `get_or_404` miss is `NotFound`. An `AttributeError` on a
missing related row, which the application turns into an HTTP 500, is
`BrokenReference`.

What the code does, and the model with it:
- The code does not check that a capacity is positive. `Course.capacity` is an
  `int`, and a course with capacity 0 or less is always full.
- Admins are not let through the student and teacher routes, because
  `role_required('student')` and `role_required('teacher')` name a single
  role. Admins write the tables only through the Flask-Admin views, which are
  not part of this model.
- Refusing a teacher who is not assigned to a course is a flash and a redirect,
  not an HTTP 403. It is the outcome `NotTeacherOfCourse`.
- `teacher_edit_grade` reads a missing `grade` form field as `0`, so that field
  arrives as the input `Some(0.0)`. A value that `float(...)` rejects arrives as
  `None`.

## Model

| member | source | states |
|---|---|---|
| Tables.FirstIndex | Lab_8/app.py:349 | `.first()`: the index returned holds a match and no earlier row matches; None exactly when no row matches |
| Tables.CourseById | Lab_8/app.py:346 | `get_or_404` on courses: the row returned has that id; None exactly when no course has it |
| Tables.EnrollmentById | Lab_8/app.py:445 | `get_or_404` on enrollments: the row returned has that id; None exactly when the id is not among the enrollment ids |
| Tables.FindEnrollment | Lab_8/app.py:349 | the index returned is a row for this (user, course) pair; None exactly when no row has the pair |
| Tables.FindGrade | Lab_8/app.py:80 | the index returned is a grade of this enrollment; None exactly when the enrollment has no grade |
| Tables.GradeFor | Lab_8/app.py:80 | `enrollment.grade` is a grade row of the enrollment, None when it has none, and with one grade per enrollment it is that grade |
| Tables.UserById | Lab_8/app.py:427 | `enrollment.user` has the enrollment's user id; None exactly when no user has it |
| Tables.FindUserByName | Lab_8/app.py:262 | the user returned has the name; None exactly when nobody has it; with unique names it is the one user with it |
| Tables.Teaches | Lab_8/app.py:417-418 | true exactly when some assignment row pairs the teacher with the course |
| Tables.Count | Lab_8/app.py:60-62 | the count never exceeds the number of rows and is 0 exactly when no row references the course; `Tables.CountAppend`, `Tables.CountRemoveAt` and `Tables.CountIsHeadcount` carry how it moves and what it counts |
| Tables.CountAppend | Lab_8/app.py:60-62 | adding a row raises its course's count by one and leaves every other count alone |
| Tables.CountRemoveAt | Lab_8/app.py:60-62 | deleting a row lowers its course's count by one and leaves every other count alone |
| Tables.CountIsHeadcount | Lab_8/app.py:60-62 | with the `unique_enrollment` pairs, the count of a course is the number of distinct students in it |
| Tables.StudentsSnoc | Lab_8/app.py:60-62 | one more row adds its student to its course's students and changes no other course's students |
| Tables.LastStudentIsNew | Lab_8/app.py:83 | under the `unique_enrollment` constraint, the last row's student has no earlier row in its course, and the earlier rows keep unique keys |
| Tables.IsFull | Lab_8/app.py:64-66 | full exactly when the course's `enrollments` list is at least as long as the capacity, so a capacity of 0 or less is always full; `Tables.IsFullIffHeadcount` states it in distinct students |
| Tables.IsFullIffHeadcount | Lab_8/app.py:64-66 | a course is full exactly when at least `capacity` distinct students are enrolled in it |
| Tables.EnrollmentsIn | Lab_8/app.py:423 | the course's enrollments, as many as its count, and exactly the rows with that course id |
| Tables.NextId | Lab_8/app.py:75 | the new row id exceeds every id in the table; it is 1 for an empty table and otherwise one more than an existing id |
| Tables.NextEnrollmentId | Lab_8/app.py:75 | a new enrollment id is not in use |
| Tables.NextGradeId | Lab_8/app.py:92 | a new grade id exceeds every grade id in use |
| Tables.GradesWithout | Lab_8/app.py:80 | the cascade keeps exactly the grades that belong to other enrollments |
| Tables.GradesWithoutNoGrade | Lab_8/app.py:80 | the cascade removes nothing from an enrollment that has no grade |
| Tables.GradesWithoutIsOneDelete | Lab_8/app.py:80 | with one grade per enrollment, the cascade deletes exactly the one grade row the relationship finds |
| Access.LoginGate | Lab_8/app.py:195-203 | lets a request through exactly when the session is logged in, and otherwise asks for a login |
| Access.RoleGate | Lab_8/app.py:205-218 | lets a request through exactly when the session is logged in with an allowed role; asks for a login exactly when it is not logged in |
| Access.RouteGate | Lab_8/app.py:341-342 | the decorator stack lets a request through exactly when the session is logged in with an allowed role, and asks for a login exactly when it is not logged in; `Access.RouteGateIsRoleGate` shows it decides as `role_required` alone |
| Access.RouteGateIsRoleGate | Lab_8/app.py:341-342 | the stacked `login_required` and `role_required` decide exactly as `role_required` alone |
| Access.TrimStart | Lab_8/app.py:255-256 | removes a prefix made of white space only, and what remains does not start with white space |
| Access.TrimEnd | Lab_8/app.py:255-256 | removes a suffix made of white space only, and what remains does not end with white space |
| Access.Strip | Lab_8/app.py:255-256 | the result is the text between a prefix and a suffix made of white space only; it is empty exactly when the text is all white space, and otherwise neither starts nor ends with white space |
| Access.SliceBetween | Lab_8/app.py:255-256 | trimming the start and then the end leaves the slice of the text between the two white-space cuts |
| Access.StripIsIdempotent | Lab_8/app.py:255-256 | stripping an already stripped text changes nothing |
| Access.Login | Lab_8/app.py:254-272 | both stripped fields are required; a login names a user whose hash matches, and the session gets that user's id and role; an unknown name gets the same answer as a wrong password; with unique names the one user of that name decides |
| Rules.NewEnrollment | Lab_8/app.py:360-361 | the inserted row carries the caller and the course, and an id above every enrollment id in use; `Rules.EnrollAddsOneUngradedRow` shows it is the one row a success adds |
| Rules.Enroll | Lab_8/app.py:343-365 | the gate comes first, then the 404, the duplicate, the full course with its count and capacity; success happens exactly when the course exists, the pair is new and count < capacity, and appends exactly one row; every refusal leaves the database as it was |
| Rules.AppendEnrollmentKeepsValid | Lab_8/app.py:83 | an enrollment with a fresh id and a new pair keeps the database consistent |
| Rules.EnrollPreservesValid | Lab_8/app.py:359-362 | enrolling keeps every constraint of the schema |
| Rules.EnrollAddsOneUngradedRow | Lab_8/app.py:359-362 | a success adds the one row for the pair, with no grade, and raises only that course's count, by one |
| Rules.EnrollRespectsCapacity | Lab_8/app.py:355-362 | a course within capacity is still within capacity after any enroll request |
| Rules.Drop | Lab_8/app.py:370-383 | the gate comes first; a drop succeeds exactly when the caller holds the enrollment and its course exists, and it removes that row together with its grades; not found otherwise; every refusal leaves the database as it was |
| Rules.RemoveAtIndex | Lab_8/app.py:377 | the row positions after a delete |
| Rules.RemoveEnrollment | Lab_8/app.py:377 | deleting one enrollment keeps the keys unique and removes exactly that row |
| Rules.RemoveGrade | Lab_8/app.py:93 | deleting one grade row keeps grade keys unique |
| Rules.GradesWithoutKeepsKeys | Lab_8/app.py:93 | after the cascade there is still at most one grade per enrollment |
| Rules.DropCascades | Lab_8/app.py:373-381 | a drop removes the caller's enrollment and its grade and keeps every other enrollment and grade; the pair is then gone, the course's count drops by one, and the database stays consistent |
| Rules.DropDeletes | Lab_8/app.py:377-378 | a drop is the delete of the enrollment row followed by the delete of the one grade row the relationship finds, if any, and keeps the database consistent |
| Rules.DropPreservesValid | Lab_8/app.py:373-381 | dropping keeps every constraint of the schema |
| Rules.DropTwiceFails | Lab_8/app.py:373-383 | a second drop of the same course reports not found and changes nothing |
| Rules.DropUndoesEnroll | Lab_8/app.py:359-378 | dropping right after enrolling gives back the database as it was |
| Rules.GradeValue | Lab_8/app.py:433 | no value exactly when the enrollment has no grade row; with one grade per enrollment, the value of that row; `Rules.Upsert` and `Rules.EditGradePreservesValid` state what a save leaves there, and `Rules.RowFor` puts it on the roster |
| Rules.Upsert | Lab_8/app.py:463-467 | an existing grade row keeps its id and only its value changes; an enrollment without a grade gets one new row with an id above every id in use; the value is stored, one grade per enrollment remains, and no other enrollment's grade changes |
| Rules.OverwriteGrade | Lab_8/app.py:463-464 | overwriting the value of an existing grade keeps the row and its id, keeps one grade per enrollment, stores the value, and leaves every other enrollment's grade as it was |
| Rules.AddGrade | Lab_8/app.py:465-467 | adding a grade row to an enrollment without one gives it the new row with an unused id, keeps one grade per enrollment, stores the value, and leaves every other enrollment's grade as it was |
| Rules.InRange | Lab_8/app.py:455 | a value passes the range check exactly when it lies in [0, 100], bounds included; `Rules.EditGrade` refuses every other number and `Scenarios.GradeBoundsInclusive` shows the bounds |
| Rules.EditGrade | Lab_8/app.py:442-471 | the gate comes first, then the 404, then the assignment check, whatever the value; then "Invalid grade value." for a non-number and "Grade must be between 0 and 100." outside the range; a save happens exactly when the caller teaches the course and the number lies in [0, 100], bounds included; every refusal leaves the database as it was |
| Rules.EditGradePreservesValid | Lab_8/app.py:462-469 | an edit keeps the database consistent and stored grades in range, changes neither enrollments nor assignments nor other enrollments' grades, and a save stores the input |
| Rules.LastEditWins | Lab_8/app.py:463-467 | after any sequence of edits by the course's teacher, the enrollment still has at most one grade, and its value is the last accepted one, or the original value if no edit was accepted |
| Rules.RowFor | Lab_8/app.py:427-435 | a roster entry carries the enrollment id, the student's id and name, and the grade and grade id if there is a grade; no entry when the user row is missing |
| Rules.Rows | Lab_8/app.py:425-435 | one entry per enrollment, in order; no page as soon as one entry fails |
| Rules.RowsSnoc | Lab_8/app.py:426-435 | one more enrollment adds its entry at the end, or makes the whole list fail |
| Rules.RosterEntries | Lab_8/app.py:425-435 | every entry of a course's roster carries its enrollment id, student id and name, grade and grade id |
| Rules.RosterOrphan | Lab_8/app.py:427 | a roster that fails has an enrollment of the course whose user row is gone |
| Rules.CourseDetail | Lab_8/app.py:412-437 | the gate, then the assignment check, before the 404; a teacher of an existing course gets the page exactly when every enrolled student's user row exists, and otherwise an HTTP 500 caused by such a missing row; the page lists each enrollment of the course in table order with the student's id and name and the grade and grade id |
| Rules.EnrollmentStatus | Lab_8/app.py:478-489 | any logged-in caller gets the status of an existing course: enrolled is the count, available is capacity minus enrolled, and is_full holds exactly when enrolled >= capacity |
| Rules.StatusPredictsEnroll | Lab_8/app.py:482-489 | enrolled is the number of distinct students, and a new student is admitted exactly when the status says the course is not full |
| Store.Ledger.StudentEnroll | Lab_8/app.py:343-365 | the handler leaves the tables and returns the outcome `Rules.Enroll` gives, and keeps them consistent |
| Store.Ledger.StudentDrop | Lab_8/app.py:370-383 | the handler, with the delete cascading to the grade row, matches `Rules.Drop` and keeps the tables consistent |
| Store.Ledger.TeacherEditGrade | Lab_8/app.py:442-471 | the handler, with the in-place grade update or the insert, matches `Rules.EditGrade` and keeps the tables consistent |
| Store.Ledger.TeacherCourseDetail | Lab_8/app.py:412-437 | the loop that builds `students_data` returns exactly `Rules.CourseDetail` |
| Scenarios.SampleDbIsValid | Lab_8/app.py:493-558 | the rows `init_db` creates meet every constraint |
| Scenarios.SampleStatus | Lab_8/app.py:534-550 | the first sample course reports 2 enrolled, capacity 30, 28 available, not full |
| Scenarios.OneSeatScenario | Lab_8/app.py:343-383 | in a one-seat course, A enrolls and the course is full; B is refused with 1/1; A drops; the course is no longer full and B enrolls |
| Scenarios.ForeignCourseEditRefused | Lab_8/app.py:448-451 | a teacher's edit in a course they do not teach is refused for every input and changes nothing |
| Scenarios.GradeBoundsInclusive | Lab_8/app.py:455-457 | 0 and 100 are saved; -0.01 and 100.01 are refused with nothing changed |
| Scenarios.DropNothing | Lab_8/app.py:373-381 | dropping with no enrollment reports not found and changes nothing |

## Left out

- Flask routing, `redirect`, `render_template`, `flash` and `jsonify` are not
  modelled. Each flash branch is a typed outcome, and each page is the data it
  is rendered from.
- The Flask-Admin views (Lab_8/app.py:115-191) are generic create, edit and
  delete screens. Their writes bypass the capacity check, so the capacity
  property is stated for the enroll route only. Their deletes of users and
  courses, with the cascades of lines 41-42 and 57-58, are not modelled either.
- Password hashing with werkzeug is the function parameter `matches` of
  `Access.Login`, and the stored digests are opaque strings.
- SQLAlchemy sessions, commits and SQLite persistence are not modelled. Each
  request is one atomic step on an in-memory state.
- Concurrency is not modelled: the model is sequential. The race between the
  capacity check and the insert (lines 355-362) is therefore not covered.
  Neither is a race between two grade inserts.
- Parsing the grade with `float(...)` (line 454) is not modelled. The input is
  an already parsed number, or None when parsing fails.
- Grades are `real`, so float rounding and the special float values are not
  modelled. Infinities fail the range check of line 455 like any other number
  outside [0, 100]. NaN passes both comparisons of line 455, but SQLite stores
  a NaN as NULL, and `grade_value` is declared `nullable=False` (line 94), so
  the commit of line 469 fails with an integrity error and the request ends in
  an HTTP 500 with nothing stored. That failing path is not modelled.
- `Rules.EditGradePreservesValid`: "grades stay in [0, 100]" is proved for real
  numbers. Since a NaN never reaches the table, it also holds for the stored
  floats.
- `Rules.CourseDetail`: the page is the `students` list only. The `course`
  row that line 437 also passes to the template is not part of it; the model
  shows only that the course exists.
- The role column (line 38) is a free string in the source, and the admin's user
  editor (line 147) accepts any text there. The model closes it to three roles.
  A role outside the three behaves like `Admin` in every modelled handler: the
  student and teacher routes refuse it and the status query admits it.
- `Access.IsSpace` lists the characters Python's `str.isspace()` accepts.
  Whether these match the Unicode database of a particular Python version is
  not checked.
- Enrollments are not required to reference existing users and courses: SQLite
  does not enforce foreign keys unless asked to, and a stale session may still
  name a deleted user. The roster and the drop report `BrokenReference` for a
  missing row instead.
- `init_db` and `app.run` are not modelled as code. `Scenarios.SampleDb` is the
  state `init_db` leaves.
- The listing routes `student_courses`, `student_add` and `teacher_courses`,
  and `index`, `logout` and the 403 handler only compose queries already
  modelled here, and are left out.
- The rest of the login view is left out: the GET branch, storing `username`
  in the session, and `logout`'s `session.clear()`.
