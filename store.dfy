/** The ledger as the running application holds it: one object whose table
    fields the request handlers of Lab_8/app.py change in place, with
    `db.session.add`, `db.session.delete` and the field assignment
    `enrollment.grade.grade_value = grade_value`. Every handler is proved to
    have exactly the effect and the outcome its rule in module Rules gives, and
    to keep the schema's constraints. */
module Store {
  import opened Wrappers
  import opened Schema
  import opened Tables
  import opened Access
  import opened Rules

  class Ledger {
    var users: seq<User>
    var courses: seq<Course>
    var enrollments: seq<Enrollment>
    var grades: seq<Grade>
    var teacherCourses: seq<TeacherCourse>

    /** The tables as one value. */
    function State(): Db
      reads this
    {
      Db(users, courses, enrollments, grades, teacherCourses)
    }

    /** Opens a database whose tables meet the schema's constraints. */
    constructor (db: Db)
      requires Valid(db)
      ensures State() == db
    {
      users, courses, enrollments, grades, teacherCourses :=
        db.users, db.courses, db.enrollments, db.grades, db.teacherCourses;
    }

    /** `student_enroll`. */
    method StudentEnroll(s: Session, courseId: nat) returns (outcome: Outcome)
      requires Valid(State())
      modifies this
      ensures Valid(State())
      ensures Step(State(), outcome) == Enroll(old(State()), s, courseId)
    {
      var denial := RouteGate(s, {Student});
      if denial.Some? {
        return Denied(denial.value);
      }
      var course := CourseById(courses, courseId);
      if course.None? {
        return NotFound;
      }
      var existing := FindEnrollment(enrollments, s.userId, courseId);
      if existing.Some? {
        return AlreadyEnrolled;
      }
      if IsFull(enrollments, course.value) {
        return CourseFull(Count(enrollments, courseId), course.value.capacity);
      }
      EnrollPreservesValid(State(), s, courseId);
      enrollments := enrollments + [NewEnrollment(enrollments, s.userId, courseId)];
      outcome := Enrolled;
    }

    /** `student_drop`; deleting the enrollment deletes its grade with it. */
    method StudentDrop(s: Session, courseId: nat) returns (outcome: Outcome)
      requires Valid(State())
      modifies this
      ensures Valid(State())
      ensures Step(State(), outcome) == Drop(old(State()), s, courseId)
    {
      ghost var before := State();
      var denial := RouteGate(s, {Student});
      if denial.Some? {
        return Denied(denial.value);
      }
      var found := FindEnrollment(enrollments, s.userId, courseId);
      if found.None? {
        return EnrollmentNotFound;
      }
      var i := found.value;
      var enrollment := enrollments[i];
      if CourseById(courses, enrollment.courseId).None? {
        return BrokenReference;
      }
      assert Drop(before, s, courseId).outcome == Dropped;
      DropDeletes(before, s, courseId);
      var grade := FindGrade(grades, enrollment.id);
      if grade.Some? {
        grades := grades[..grade.value] + grades[grade.value + 1..];
      }
      enrollments := enrollments[..i] + enrollments[i + 1..];
      outcome := Dropped;
      assert State() == Drop(before, s, courseId).db;
    }

    /** `teacher_edit_grade`; `input` is the form's grade after `float(...)`,
        None when that conversion raises. */
    method TeacherEditGrade(s: Session, enrollmentId: nat, input: Option<real>) returns (outcome: Outcome)
      requires Valid(State())
      modifies this
      ensures Valid(State())
      ensures Step(State(), outcome) == EditGrade(old(State()), s, enrollmentId, input)
    {
      var denial := RouteGate(s, {Teacher});
      if denial.Some? {
        return Denied(denial.value);
      }
      var enrollment := EnrollmentById(enrollments, enrollmentId);
      if enrollment.None? {
        return NotFound;
      }
      if !Teaches(teacherCourses, s.userId, enrollment.value.courseId) {
        return NotTeacherOfCourse;
      }
      if input.None? {
        return InvalidGrade;
      }
      var v := input.value;
      if v < 0.0 || v > 100.0 {
        return GradeOutOfRange;
      }
      EditGradePreservesValid(State(), s, enrollmentId, input);
      var grade := FindGrade(grades, enrollmentId);
      if grade.Some? {
        grades := grades[grade.value := grades[grade.value].(gradeValue := v)];
      } else {
        grades := grades + [Grade(NextGradeId(grades), enrollmentId, v)];
      }
      outcome := GradeSaved;
    }

    /** `teacher_course_detail`: builds `students_data` one enrollment at a time. */
    method TeacherCourseDetail(s: Session, courseId: nat) returns (r: Reply<seq<StudentRow>>)
      ensures r == CourseDetail(State(), s, courseId)
    {
      var denial := RouteGate(s, {Teacher});
      if denial.Some? {
        return Refused(Denied(denial.value));
      }
      if !Teaches(teacherCourses, s.userId, courseId) {
        return Refused(NotTeacherOfCourse);
      }
      if CourseById(courses, courseId).None? {
        return Refused(NotFound);
      }
      var roster := EnrollmentsIn(enrollments, courseId);
      var studentsData: seq<StudentRow> := [];
      var i := 0;
      while i < |roster|
        invariant 0 <= i <= |roster|
        invariant Rows(users, grades, roster[..i]) == Some(studentsData)
      {
        var enrollment := roster[i];
        RowsSnoc(users, grades, roster, i);
        var student := UserById(users, enrollment.userId);
        if student.None? {
          return Refused(BrokenReference);
        }
        var grade := GradeFor(grades, enrollment.id);
        studentsData := studentsData + [StudentRow(
          enrollment.id, student.value.id, student.value.username,
          if grade.Some? then Some(grade.value.gradeValue) else None,
          if grade.Some? then Some(grade.value.id) else None)];
        i := i + 1;
      }
      assert roster[..i] == roster;
      r := Page(studentsData);
    }
  }
}
