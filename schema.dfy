/** The five tables of the enrollment database (Lab_8/app.py, the models User,
    Course, Enrollment, Grade and TeacherCourse) and the constraints the schema
    declares on them: primary keys, the unique columns and the unique column
    pairs, and the link from each grade to a live enrollment that the cascade
    on Enrollment.grade maintains. */
module Schema {

  /** The role column, narrowed to the three roles the handlers compare against;
      the column itself is free text (README, "## Left out"). */
  datatype Role = Student | Teacher | Admin

  datatype User = User(id: nat, username: string, passwordHash: string, role: Role)

  datatype Course = Course(id: nat, name: string, department: string, capacity: int)

  datatype Enrollment = Enrollment(id: nat, userId: nat, courseId: nat)

  datatype Grade = Grade(id: nat, enrollmentId: nat, gradeValue: real)

  datatype TeacherCourse = TeacherCourse(id: nat, teacherId: nat, courseId: nat)

  /** The whole database; each table keeps its rows in insertion order. */
  datatype Db = Db(
    users: seq<User>,
    courses: seq<Course>,
    enrollments: seq<Enrollment>,
    grades: seq<Grade>,
    teacherCourses: seq<TeacherCourse>)

  ghost predicate UserKeysUnique(us: seq<User>) {
    forall i, j :: 0 <= i < j < |us| ==> us[i].id != us[j].id && us[i].username != us[j].username
  }

  ghost predicate CourseKeysUnique(cs: seq<Course>) {
    forall i, j :: 0 <= i < j < |cs| ==> cs[i].id != cs[j].id
  }

  /** Primary key and the `unique_enrollment` constraint on (user_id, course_id). */
  ghost predicate EnrollmentKeysUnique(es: seq<Enrollment>) {
    forall i, j :: 0 <= i < j < |es| ==>
      es[i].id != es[j].id && (es[i].userId != es[j].userId || es[i].courseId != es[j].courseId)
  }

  /** Primary key and the unique `enrollment_id` column: at most one grade per enrollment. */
  ghost predicate GradeKeysUnique(gs: seq<Grade>) {
    forall i, j :: 0 <= i < j < |gs| ==> gs[i].id != gs[j].id && gs[i].enrollmentId != gs[j].enrollmentId
  }

  /** Primary key and the `unique_teacher_course` constraint on (teacher_id, course_id). */
  ghost predicate TeacherCourseKeysUnique(ts: seq<TeacherCourse>) {
    forall i, j :: 0 <= i < j < |ts| ==>
      ts[i].id != ts[j].id && (ts[i].teacherId != ts[j].teacherId || ts[i].courseId != ts[j].courseId)
  }

  function EnrollmentIds(es: seq<Enrollment>): set<nat> {
    set e | e in es :: e.id
  }

  /** No orphan grade: every grade belongs to an enrollment that still exists. */
  ghost predicate GradesReferenceEnrollments(gs: seq<Grade>, es: seq<Enrollment>) {
    forall g | g in gs :: g.enrollmentId in EnrollmentIds(es)
  }

  ghost predicate Valid(db: Db) {
    && UserKeysUnique(db.users)
    && CourseKeysUnique(db.courses)
    && EnrollmentKeysUnique(db.enrollments)
    && GradeKeysUnique(db.grades)
    && TeacherCourseKeysUnique(db.teacherCourses)
    && GradesReferenceEnrollments(db.grades, db.enrollments)
  }
}
