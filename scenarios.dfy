/** Concrete states: the sample rows `init_db` in Lab_8/app.py seeds, and short
    request sequences that exercise the capacity, drop, authorization and range
    rules. The password digests are stand-ins: the model never inspects them. */
module Scenarios {
  import opened Wrappers
  import opened Schema
  import opened Tables
  import opened Access
  import opened Rules

  /** The database right after `init_db`, with the ids SQLite assigns in insertion order. */
  function SampleDb(): Db {
    Db(
      [ User(1, "admin", "digest-admin", Admin),
        User(2, "student1", "digest-student1", Student),
        User(3, "student2", "digest-student2", Student),
        User(4, "teacher1", "digest-teacher1", Teacher) ],
      [ Course(1, "Introduction to Computer Science", "CS", 30),
        Course(2, "Data Structures", "CS", 25),
        Course(3, "Web Development", "CS", 20) ],
      [ Enrollment(1, 2, 1), Enrollment(2, 2, 2), Enrollment(3, 3, 1) ],
      [ Grade(1, 1, 85.5), Grade(2, 2, 92.0), Grade(3, 3, 78.5) ],
      [ TeacherCourse(1, 4, 1), TeacherCourse(2, 4, 2) ])
  }

  /** The sample data meets the schema. */
  lemma SampleDbIsValid()
    ensures Valid(SampleDb())
  {
    var db := SampleDb();
    SampleUsersUnique();
    SampleKeysUnique();
    assert EnrollmentIds(db.enrollments) == {1, 2, 3} by {
      assert db.enrollments[0] in db.enrollments;
      assert db.enrollments[1] in db.enrollments;
      assert db.enrollments[2] in db.enrollments;
    }
  }

  /** The four sample users have distinct ids and distinct names. */
  lemma SampleUsersUnique()
    ensures UserKeysUnique(SampleDb().users)
  {
    var us := SampleDb().users;
    assert us[0].username[0] == 'a' && us[3].username[0] == 't';
    assert us[1].username[7] == '1' && us[2].username[7] == '2';
  }

  /** The sample courses, enrollments, grades and assignments have distinct keys. */
  lemma SampleKeysUnique()
    ensures var db := SampleDb();
      && CourseKeysUnique(db.courses)
      && EnrollmentKeysUnique(db.enrollments)
      && GradeKeysUnique(db.grades)
      && TeacherCourseKeysUnique(db.teacherCourses)
  {
  }

  /** The status query of the first sample course reports two students and 28 free seats. */
  lemma SampleStatus()
    ensures EnrollmentStatus(SampleDb(), Session(true, 1, Admin), 1) == Page(CourseStatus(1, 2, 30, 28, false))
  {
    var es := SampleDb().enrollments;
    assert CourseById(SampleDb().courses, 1) == Some(Course(1, "Introduction to Computer Science", "CS", 30));
    assert es[..2][..1] == es[..1] && es[..1][..0] == [];
    assert Count(es[..1], 1) == 1;
    assert Count(es[..2], 1) == 1;
    assert es[..3] == es;
  }

  /** A course with one seat, two students, no enrollments. */
  function OneSeatDb(): Db {
    Db([ User(1, "a", "digest-a", Student), User(2, "b", "digest-b", Student) ],
       [ Course(7, "Seminar", "CS", 1) ],
       [], [], [])
  }

  /** A enrolls and fills the course; B is turned away; A drops, which frees the
      seat; B then enrolls. */
  lemma OneSeatScenario()
    ensures var a, b := Session(true, 1, Student), Session(true, 2, Student);
      var s1 := Enroll(OneSeatDb(), a, 7);
      var s2 := Enroll(s1.db, b, 7);
      var s3 := Drop(s2.db, a, 7);
      var s4 := Enroll(s3.db, b, 7);
      && s1.outcome == Enrolled
      && EnrollmentStatus(s1.db, a, 7).value.isFull
      && s2 == Step(s1.db, CourseFull(1, 1))
      && s3.outcome == Dropped
      && !EnrollmentStatus(s3.db, a, 7).value.isFull
      && s4.outcome == Enrolled
      && s4.db.enrollments == [Enrollment(1, 2, 7)]
  {
    var a, b := Session(true, 1, Student), Session(true, 2, Student);
    var db0 := OneSeatDb();
    var db1 := db0.(enrollments := [Enrollment(1, 1, 7)]);
    assert Enroll(db0, a, 7) == Step(db1, Enrolled);
    assert Count(db1.enrollments, 7) == 1;
    assert Enroll(db1, b, 7) == Step(db1, CourseFull(1, 1));
    assert Drop(db1, a, 7) == Step(db0, Dropped) by {
      assert db1.enrollments[..0] + db1.enrollments[1..] == [];
    }
    assert Enroll(db0, b, 7) == Step(db0.(enrollments := [Enrollment(1, 2, 7)]), Enrolled);
  }

  /** Teacher 4 teaches course 1 only; an edit of an enrollment in course 2 is
      refused whatever value is submitted, and nothing changes. */
  lemma ForeignCourseEditRefused(input: Option<real>)
    ensures var db := SampleDb().(teacherCourses := [TeacherCourse(1, 4, 1)]);
      EditGrade(db, Session(true, 4, Teacher), 2, input) == Step(db, NotTeacherOfCourse)
  {
    var db := SampleDb().(teacherCourses := [TeacherCourse(1, 4, 1)]);
    assert EnrollmentById(db.enrollments, 2) == Some(Enrollment(2, 2, 2));
  }

  /** 0 and 100 are accepted, -0.01 and 100.01 are not. */
  lemma GradeBoundsInclusive()
    ensures var db, t := SampleDb(), Session(true, 4, Teacher);
      && EditGrade(db, t, 1, Some(0.0)).outcome == GradeSaved
      && EditGrade(db, t, 1, Some(100.0)).outcome == GradeSaved
      && EditGrade(db, t, 1, Some(-0.01)) == Step(db, GradeOutOfRange)
      && EditGrade(db, t, 1, Some(100.01)) == Step(db, GradeOutOfRange)
  {
    var db := SampleDb();
    assert EnrollmentById(db.enrollments, 1) == Some(Enrollment(1, 2, 1));
    assert Teaches(db.teacherCourses, 4, 1) by {
      assert db.teacherCourses[0] == TeacherCourse(1, 4, 1);
    }
  }

  /** Dropping in an empty ledger reports not-found, and the ledger stays empty. */
  lemma DropNothing(s: Session)
    requires s.loggedIn && s.role == Student
    ensures var db := OneSeatDb();
      Drop(db, s, 7) == Step(db, EnrollmentNotFound) && db.enrollments == [] && db.grades == []
  {
  }
}
