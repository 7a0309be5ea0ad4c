/** The read-only queries the handlers of Lab_8/app.py run against the tables:
    primary-key lookups (`get_or_404`), `filter_by(...).first()`, the
    `Course.enrollments` relationship with its length and `is_full`, the
    `Enrollment.grade` relationship, and the row id SQLite hands out on insert. */
module Tables {
  import opened Wrappers
  import opened Schema

  /** Index of the first row that satisfies `p`, as `.first()` returns the first match. */
  function FirstIndex<T>(rows: seq<T>, p: T -> bool): (r: Option<nat>)
    ensures r.Some? ==> r.value < |rows| && p(rows[r.value])
    ensures r.Some? ==> forall k :: 0 <= k < r.value ==> !p(rows[k])
    ensures r.None? <==> forall k :: 0 <= k < |rows| ==> !p(rows[k])
  {
    if rows == [] then None
    else if p(rows[0]) then Some(0)
    else
      match FirstIndex(rows[1..], p)
      case None =>
        assert forall k :: 1 <= k < |rows| ==> rows[k] == rows[1..][k - 1];
        None
      case Some(k) => Some(k + 1)
  }

  /** `Course.query.get_or_404(course_id)` without the 404: the course row, if any. */
  function CourseById(cs: seq<Course>, id: nat): (r: Option<Course>)
    ensures r.Some? ==> r.value in cs && r.value.id == id
    ensures r.None? <==> forall k :: 0 <= k < |cs| ==> cs[k].id != id
  {
    match FirstIndex(cs, (c: Course) => c.id == id)
    case None => None
    case Some(k) => Some(cs[k])
  }

  /** `Enrollment.query.get_or_404(enrollment_id)` without the 404. */
  function EnrollmentById(es: seq<Enrollment>, id: nat): (r: Option<Enrollment>)
    ensures r.Some? ==> r.value in es && r.value.id == id
    ensures r.None? <==> id !in EnrollmentIds(es)
  {
    match FirstIndex(es, (e: Enrollment) => e.id == id)
    case None => None
    case Some(k) => Some(es[k])
  }

  /** `Enrollment.query.filter_by(user_id=..., course_id=...).first()`, as a row index. */
  function FindEnrollment(es: seq<Enrollment>, userId: nat, courseId: nat): (r: Option<nat>)
    ensures r.Some? ==> r.value < |es| && es[r.value].userId == userId && es[r.value].courseId == courseId
    ensures r.None? <==> forall k :: 0 <= k < |es| ==> es[k].userId != userId || es[k].courseId != courseId
  {
    FirstIndex(es, (e: Enrollment) => e.userId == userId && e.courseId == courseId)
  }

  /** The row behind the one-to-one `Enrollment.grade` relationship, as a row index. */
  function FindGrade(gs: seq<Grade>, enrollmentId: nat): (r: Option<nat>)
    ensures r.Some? ==> r.value < |gs| && gs[r.value].enrollmentId == enrollmentId
    ensures r.None? <==> forall k :: 0 <= k < |gs| ==> gs[k].enrollmentId != enrollmentId
  {
    FirstIndex(gs, (g: Grade) => g.enrollmentId == enrollmentId)
  }

  /** `enrollment.grade`: the grade row of an enrollment, or None when it has none. */
  function GradeFor(gs: seq<Grade>, enrollmentId: nat): (r: Option<Grade>)
    ensures r.Some? ==> r.value in gs && r.value.enrollmentId == enrollmentId
    ensures r.None? <==> forall g | g in gs :: g.enrollmentId != enrollmentId
    ensures GradeKeysUnique(gs) ==>
      forall k :: 0 <= k < |gs| && gs[k].enrollmentId == enrollmentId ==> r == Some(gs[k])
  {
    match FindGrade(gs, enrollmentId)
    case None => None
    case Some(k) => Some(gs[k])
  }

  /** `enrollment.user`: the user row with the given id. */
  function UserById(us: seq<User>, id: nat): (r: Option<User>)
    ensures r.Some? ==> r.value in us && r.value.id == id
    ensures r.None? <==> forall k :: 0 <= k < |us| ==> us[k].id != id
  {
    match FirstIndex(us, (u: User) => u.id == id)
    case None => None
    case Some(k) => Some(us[k])
  }

  /** `User.query.filter_by(username=...).first()`. */
  function FindUserByName(us: seq<User>, username: string): (r: Option<User>)
    ensures r.Some? ==> r.value in us && r.value.username == username
    ensures r.None? <==> forall k :: 0 <= k < |us| ==> us[k].username != username
    ensures UserKeysUnique(us) ==>
      forall k :: 0 <= k < |us| && us[k].username == username ==> r == Some(us[k])
  {
    match FirstIndex(us, (u: User) => u.username == username)
    case None => None
    case Some(k) => Some(us[k])
  }

  /** True when `TeacherCourse.query.filter_by(teacher_id=..., course_id=...).first()` finds a row. */
  function Teaches(ts: seq<TeacherCourse>, teacherId: nat, courseId: nat): (b: bool)
    ensures b <==> exists k :: 0 <= k < |ts| && ts[k].teacherId == teacherId && ts[k].courseId == courseId
  {
    FirstIndex(ts, (t: TeacherCourse) => t.teacherId == teacherId && t.courseId == courseId).Some?
  }

  /** `Course.get_enrollment_count`: the number of enrollment rows referencing the course. */
  function Count(es: seq<Enrollment>, courseId: nat): (r: nat)
    ensures r <= |es|
    ensures r == 0 <==> forall k :: 0 <= k < |es| ==> es[k].courseId != courseId
  {
    if es == [] then 0
    else Count(es[..|es| - 1], courseId) + (if es[|es| - 1].courseId == courseId then 1 else 0)
  }

  /** The students enrolled in a course. */
  function Students(es: seq<Enrollment>, courseId: nat): set<nat> {
    set e | e in es && e.courseId == courseId :: e.userId
  }

  lemma CountAppend(es: seq<Enrollment>, e: Enrollment, courseId: nat)
    ensures Count(es + [e], courseId) == Count(es, courseId) + (if e.courseId == courseId then 1 else 0)
  {
    assert (es + [e])[..|es|] == es;
  }

  /** Deleting the row at index `i` lowers the count of that row's course by one and no other. */
  lemma {:induction false} CountRemoveAt(es: seq<Enrollment>, i: nat, courseId: nat)
    requires i < |es|
    ensures Count(es[..i] + es[i + 1..], courseId) + (if es[i].courseId == courseId then 1 else 0)
            == Count(es, courseId)
  {
    var init := es[..|es| - 1];
    if i == |es| - 1 {
      assert es[..i] + es[i + 1..] == init;
    } else {
      CountRemoveAt(init, i, courseId);
      assert es[..i] + es[i + 1..] == (init[..i] + init[i + 1..]) + [es[|es| - 1]];
      CountAppend(init[..i] + init[i + 1..], es[|es| - 1], courseId);
    }
  }

  /** The students of a course after one more row. */
  lemma StudentsSnoc(es: seq<Enrollment>, courseId: nat)
    requires es != []
    ensures var init, last := es[..|es| - 1], es[|es| - 1];
      Students(es, courseId) == Students(init, courseId) + (if last.courseId == courseId then {last.userId} else {})
  {
    var init, last := es[..|es| - 1], es[|es| - 1];
    assert es == init + [last];
    assert forall e :: e in es <==> e in init || e == last;
  }

  /** With unique pairs, the student of the last row has no earlier row in its course. */
  lemma LastStudentIsNew(es: seq<Enrollment>)
    requires EnrollmentKeysUnique(es) && es != []
    ensures var init, last := es[..|es| - 1], es[|es| - 1];
      last.userId !in Students(init, last.courseId) && EnrollmentKeysUnique(init)
  {
    var init, last := es[..|es| - 1], es[|es| - 1];
    forall e | e in init && e.courseId == last.courseId ensures e.userId != last.userId {
      var k :| 0 <= k < |init| && init[k] == e;
      assert es[k] == e;
    }
    forall a, b | 0 <= a < b < |init|
      ensures init[a].id != init[b].id && (init[a].userId != init[b].userId || init[a].courseId != init[b].courseId)
    {
      assert init[a] == es[a] && init[b] == es[b];
    }
  }

  /** With (user, course) pairs unique, the enrollment count is the number of
      distinct students in the course. */
  lemma {:induction false} CountIsHeadcount(es: seq<Enrollment>, courseId: nat)
    requires EnrollmentKeysUnique(es)
    ensures Count(es, courseId) == |Students(es, courseId)|
  {
    if es == [] {
      assert Students(es, courseId) == {};
    } else {
      var init := es[..|es| - 1];
      LastStudentIsNew(es);
      StudentsSnoc(es, courseId);
      CountIsHeadcount(init, courseId);
    }
  }

  /** `Course.is_full`: the length of the `enrollments` relationship has reached the capacity. */
  function IsFull(es: seq<Enrollment>, c: Course): (b: bool)
    ensures b <==> |EnrollmentsIn(es, c.id)| >= c.capacity
    ensures c.capacity <= 0 ==> b
  {
    Count(es, c.id) >= c.capacity
  }

  /** A course is full exactly when at least `capacity` distinct students are enrolled in it. */
  lemma IsFullIffHeadcount(es: seq<Enrollment>, c: Course)
    requires EnrollmentKeysUnique(es)
    ensures IsFull(es, c) <==> |Students(es, c.id)| >= c.capacity
  {
    CountIsHeadcount(es, c.id);
  }

  /** The enrollments of one course, in table order: `Enrollment.query.filter_by(course_id=...).all()`. */
  function EnrollmentsIn(es: seq<Enrollment>, courseId: nat): (r: seq<Enrollment>)
    ensures |r| == Count(es, courseId)
    ensures forall e :: e in r <==> e in es && e.courseId == courseId
  {
    if es == [] then []
    else
      var init, last := es[..|es| - 1], es[|es| - 1];
      assert es == init + [last];
      if last.courseId == courseId then EnrollmentsIn(init, courseId) + [last] else EnrollmentsIn(init, courseId)
  }

  /** The id SQLite gives a new row: one more than the largest id in the table, 1 for an empty table. */
  function NextId<T>(rows: seq<T>, key: T -> nat): (r: nat)
    ensures forall k :: 0 <= k < |rows| ==> key(rows[k]) < r
    ensures rows == [] ==> r == 1
    ensures rows != [] ==> exists k :: 0 <= k < |rows| && r == key(rows[k]) + 1
  {
    if rows == [] then 1
    else
      var init, last := rows[..|rows| - 1], rows[|rows| - 1];
      assert forall k :: 0 <= k < |init| ==> rows[k] == init[k];
      var n := NextId(init, key);
      if init == [] || key(last) + 1 > n then key(last) + 1 else n
  }

  function NextEnrollmentId(es: seq<Enrollment>): (r: nat)
    ensures r !in EnrollmentIds(es)
    ensures forall k :: 0 <= k < |es| ==> es[k].id < r
  {
    NextId(es, (e: Enrollment) => e.id)
  }

  function NextGradeId(gs: seq<Grade>): (r: nat)
    ensures forall k :: 0 <= k < |gs| ==> gs[k].id < r
  {
    NextId(gs, (g: Grade) => g.id)
  }

  /** The grade table after the cascade on `Enrollment.grade` has removed every
      grade of the enrollment. */
  function GradesWithout(gs: seq<Grade>, enrollmentId: nat): (r: seq<Grade>)
    ensures forall g :: g in r <==> g in gs && g.enrollmentId != enrollmentId
  {
    if gs == [] then []
    else
      var init, last := gs[..|gs| - 1], gs[|gs| - 1];
      assert gs == init + [last];
      if last.enrollmentId == enrollmentId then GradesWithout(init, enrollmentId)
      else GradesWithout(init, enrollmentId) + [last]
  }

  /** An enrollment without a grade loses nothing to the cascade. */
  lemma {:induction false} GradesWithoutNoGrade(gs: seq<Grade>, enrollmentId: nat)
    requires FindGrade(gs, enrollmentId).None?
    ensures GradesWithout(gs, enrollmentId) == gs
  {
    if gs != [] {
      var init := gs[..|gs| - 1];
      assert gs == init + [gs[|gs| - 1]];
      GradesWithoutNoGrade(init, enrollmentId);
    }
  }

  /** With one grade per enrollment, the cascade deletes exactly the one grade
      row that the relationship finds. */
  lemma {:induction false} GradesWithoutIsOneDelete(gs: seq<Grade>, enrollmentId: nat, j: nat)
    requires GradeKeysUnique(gs)
    requires FindGrade(gs, enrollmentId) == Some(j)
    ensures GradesWithout(gs, enrollmentId) == gs[..j] + gs[j + 1..]
  {
    var init, last := gs[..|gs| - 1], gs[|gs| - 1];
    assert gs == init + [last];
    if j == |gs| - 1 {
      assert forall k :: 0 <= k < |init| ==> init[k] == gs[k] && gs[k].enrollmentId != enrollmentId;
      GradesWithoutNoGrade(init, enrollmentId);
      assert gs[..j] + gs[j + 1..] == init;
    } else {
      assert last.enrollmentId != enrollmentId by {
        assert gs[j].enrollmentId == enrollmentId;
      }
      assert GradeKeysUnique(init) by {
        forall a, b | 0 <= a < b < |init| ensures init[a].id != init[b].id && init[a].enrollmentId != init[b].enrollmentId {
          assert init[a] == gs[a] && init[b] == gs[b];
        }
      }
      assert FindGrade(init, enrollmentId) == Some(j) by {
        assert init[j] == gs[j];
        var j' := FindGrade(init, enrollmentId).value;
        assert gs[j'] == init[j'];
      }
      GradesWithoutIsOneDelete(init, enrollmentId, j);
      DeleteBeforeLast(gs, j);
    }
  }

  lemma DeleteBeforeLast<T>(s: seq<T>, j: nat)
    requires j < |s| - 1
    ensures s[..j] + s[j + 1..] == (s[..|s| - 1][..j] + s[..|s| - 1][j + 1..]) + [s[|s| - 1]]
  {
  }
}
