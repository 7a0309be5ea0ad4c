/** The write-time rules of the enrollment ledger (Lab_8/app.py): the student
    routes that enroll and drop, the teacher routes that list a course and edit
    a grade, and the enrollment-count status query. Each route is a function
    from the database and the caller's session to the new database and a typed
    outcome; each flash-and-redirect branch of the source is one outcome. */
module Rules {
  import opened Wrappers
  import opened Schema
  import opened Tables
  import opened Access

  datatype Outcome =
    | Denied(denial: Denial)
    | NotFound                                   // `get_or_404` found no row: HTTP 404
    | AlreadyEnrolled                            // "You are already enrolled in this course."
    | CourseFull(enrolled: nat, capacity: int)   // "Cannot enroll: <name> is full (<enrolled>/<capacity>)."
    | Enrolled                                   // "Successfully enrolled in <name>!"
    | EnrollmentNotFound                         // "Enrollment not found."
    | Dropped                                    // "Successfully dropped <name>."
    | NotTeacherOfCourse                         // "You do not teach this course." / "... edit grades for this course."
    | InvalidGrade                               // "Invalid grade value.": the form text is not a number
    | GradeOutOfRange                            // "Grade must be between 0 and 100."
    | GradeSaved                                 // "Grade updated successfully."
    | BrokenReference                            // a row an enrollment refers to is gone: HTTP 500

  /** A mutating route: the database after the request and what the caller is told. */
  datatype Step = Step(db: Db, outcome: Outcome)

  /** A read-only route: a refusal, or the data the page is rendered from. */
  datatype Reply<T> = Refused(reason: Outcome) | Page(value: T)

  /** The decorators on a route for `role` let the caller through. */
  predicate Admits(s: Session, role: Role) {
    RouteGate(s, {role}).None?
  }

  // ----- student_enroll -----

  /** The new enrollment row `student_enroll` inserts. */
  function NewEnrollment(es: seq<Enrollment>, userId: nat, courseId: nat): (e: Enrollment)
    ensures e.userId == userId && e.courseId == courseId
    ensures e.id !in EnrollmentIds(es)
    ensures forall k :: 0 <= k < |es| ==> es[k].id < e.id
  {
    Enrollment(NextEnrollmentId(es), userId, courseId)
  }

  /** `student_enroll(course_id)`: the gate, the course lookup, the duplicate
      check, the capacity check, then the insert. */
  function Enroll(db: Db, s: Session, courseId: nat): (r: Step)
    // the gate decides first, whatever the tables hold
    ensures !Admits(s, Student) ==> r == Step(db, Denied(RouteGate(s, {Student}).value))
    // every refusal leaves the database as it was
    ensures r.outcome != Enrolled ==> r.db == db
    ensures Admits(s, Student) && CourseById(db.courses, courseId).None? ==> r.outcome == NotFound
    ensures (Admits(s, Student) && CourseById(db.courses, courseId).Some?
             && FindEnrollment(db.enrollments, s.userId, courseId).Some?) ==> r.outcome == AlreadyEnrolled
    ensures (Admits(s, Student) && CourseById(db.courses, courseId).Some?
             && FindEnrollment(db.enrollments, s.userId, courseId).None?
             && IsFull(db.enrollments, CourseById(db.courses, courseId).value)) ==>
      r.outcome == CourseFull(Count(db.enrollments, courseId), CourseById(db.courses, courseId).value.capacity)
    ensures r.outcome == Enrolled <==>
      && Admits(s, Student)
      && CourseById(db.courses, courseId).Some?
      && FindEnrollment(db.enrollments, s.userId, courseId).None?
      && Count(db.enrollments, courseId) < CourseById(db.courses, courseId).value.capacity
    // a success appends one row for (user, course) and touches nothing else
    ensures r.outcome == Enrolled ==>
      r.db == db.(enrollments := db.enrollments + [NewEnrollment(db.enrollments, s.userId, courseId)])
  {
    match RouteGate(s, {Student})
    case Some(d) => Step(db, Denied(d))
    case None =>
      match CourseById(db.courses, courseId)
      case None => Step(db, NotFound)
      case Some(course) =>
        if FindEnrollment(db.enrollments, s.userId, courseId).Some? then Step(db, AlreadyEnrolled)
        else if IsFull(db.enrollments, course) then
          Step(db, CourseFull(Count(db.enrollments, courseId), course.capacity))
        else
          Step(db.(enrollments := db.enrollments + [NewEnrollment(db.enrollments, s.userId, courseId)]), Enrolled)
  }

  lemma AppendEnrollmentKeepsValid(db: Db, e: Enrollment)
    requires Valid(db)
    requires e.id !in EnrollmentIds(db.enrollments)
    requires forall k :: 0 <= k < |db.enrollments| ==>
      db.enrollments[k].userId != e.userId || db.enrollments[k].courseId != e.courseId
    ensures Valid(db.(enrollments := db.enrollments + [e]))
  {
    var es := db.enrollments + [e];
    forall k | 0 <= k < |db.enrollments| ensures db.enrollments[k].id != e.id {
      assert db.enrollments[k] in db.enrollments;
    }
    assert EnrollmentIds(db.enrollments) <= EnrollmentIds(es) by {
      forall x | x in db.enrollments ensures x in es { }
    }
  }

  lemma {:induction false} EnrollPreservesValid(db: Db, s: Session, courseId: nat)
    requires Valid(db)
    ensures Valid(Enroll(db, s, courseId).db)
  {
    if Enroll(db, s, courseId).outcome == Enrolled {
      AppendEnrollmentKeepsValid(db, NewEnrollment(db.enrollments, s.userId, courseId));
    }
  }

  /** A successful enrollment raises the count of its course by one and of no
      other course, and the new row is the only one for (user, course) and has
      no grade. */
  lemma {:induction false} EnrollAddsOneUngradedRow(db: Db, s: Session, courseId: nat)
    requires Valid(db)
    requires Enroll(db, s, courseId).outcome == Enrolled
    ensures var after := Enroll(db, s, courseId).db;
      var e := NewEnrollment(db.enrollments, s.userId, courseId);
      && FindEnrollment(after.enrollments, s.userId, courseId) == Some(|db.enrollments|)
      && after.enrollments[|db.enrollments|] == e
      && GradeFor(after.grades, e.id).None?
      && (forall c :: Count(after.enrollments, c) == Count(db.enrollments, c) + (if c == courseId then 1 else 0))
  {
    var after := Enroll(db, s, courseId).db;
    var e := NewEnrollment(db.enrollments, s.userId, courseId);
    EnrollPreservesValid(db, s, courseId);
    assert after.enrollments[|db.enrollments|] == e;
    forall c ensures Count(after.enrollments, c) == Count(db.enrollments, c) + (if c == courseId then 1 else 0) {
      CountAppend(db.enrollments, e, c);
    }
    forall g | g in db.grades ensures g.enrollmentId != e.id {
      assert g.enrollmentId in EnrollmentIds(db.enrollments);
    }
  }

  /** The enroll path never takes a course past its capacity: a course within
      capacity before is within capacity after. */
  lemma {:induction false} EnrollRespectsCapacity(db: Db, s: Session, courseId: nat, c: Course)
    requires CourseKeysUnique(db.courses)
    requires c in db.courses && Count(db.enrollments, c.id) <= c.capacity
    ensures Count(Enroll(db, s, courseId).db.enrollments, c.id) <= c.capacity
  {
    var r := Enroll(db, s, courseId);
    if r.outcome == Enrolled {
      CountAppend(db.enrollments, NewEnrollment(db.enrollments, s.userId, courseId), c.id);
    }
  }

  // ----- student_drop -----

  /** `student_drop(course_id)`: the gate, the lookup of the caller's enrollment,
      the read of its course's name for the message, then the delete, which
      cascades to the enrollment's grade. */
  function Drop(db: Db, s: Session, courseId: nat): (r: Step)
    ensures !Admits(s, Student) ==> r == Step(db, Denied(RouteGate(s, {Student}).value))
    ensures r.outcome != Dropped ==> r.db == db
    ensures Admits(s, Student) ==>
      (r.outcome == Dropped <==>
         FindEnrollment(db.enrollments, s.userId, courseId).Some? && CourseById(db.courses, courseId).Some?)
    ensures Admits(s, Student) && FindEnrollment(db.enrollments, s.userId, courseId).None? ==>
      r.outcome == EnrollmentNotFound
    // `enrollment.course.name` on an enrollment whose course row is gone raises
    ensures (Admits(s, Student) && FindEnrollment(db.enrollments, s.userId, courseId).Some?
             && CourseById(db.courses, courseId).None?) ==> r.outcome == BrokenReference
    ensures r.outcome == Dropped ==>
      var i := FindEnrollment(db.enrollments, s.userId, courseId).value;
      r.db == db.(enrollments := db.enrollments[..i] + db.enrollments[i + 1..],
                  grades := GradesWithout(db.grades, db.enrollments[i].id))
  {
    match RouteGate(s, {Student})
    case Some(d) => Step(db, Denied(d))
    case None =>
      match FindEnrollment(db.enrollments, s.userId, courseId)
      case None => Step(db, EnrollmentNotFound)
      case Some(i) =>
        if CourseById(db.courses, db.enrollments[i].courseId).None? then Step(db, BrokenReference)
        else
        Step(db.(enrollments := db.enrollments[..i] + db.enrollments[i + 1..],
                 grades := GradesWithout(db.grades, db.enrollments[i].id)), Dropped)
  }

  lemma RemoveAtIndex<T>(s: seq<T>, i: nat, k: nat)
    requires i < |s| && k < |s| - 1
    ensures (s[..i] + s[i + 1..])[k] == if k < i then s[k] else s[k + 1]
  {
  }

  /** Deleting one row of a table with unique ids removes exactly that row. */
  lemma {:induction false} RemoveEnrollment(es: seq<Enrollment>, i: nat)
    requires EnrollmentKeysUnique(es) && i < |es|
    ensures EnrollmentKeysUnique(es[..i] + es[i + 1..])
    ensures forall x :: x in es[..i] + es[i + 1..] <==> x in es && x != es[i]
  {
    var rest := es[..i] + es[i + 1..];
    forall a, b | 0 <= a < b < |rest|
      ensures rest[a].id != rest[b].id && (rest[a].userId != rest[b].userId || rest[a].courseId != rest[b].courseId)
    {
      RemoveAtIndex(es, i, a);
      RemoveAtIndex(es, i, b);
    }
    forall x ensures x in rest <==> x in es && x != es[i] {
      if x in rest {
        var k :| 0 <= k < |rest| && rest[k] == x;
        RemoveAtIndex(es, i, k);
        if k < i { assert es[k].id != es[i].id; } else { assert es[i].id != es[k + 1].id; }
      }
      if x in es && x != es[i] {
        var k :| 0 <= k < |es| && es[k] == x;
        if k < i { assert rest[k] == x; } else { assert rest[k - 1] == x; }
      }
    }
  }

  lemma {:induction false} RemoveGrade(gs: seq<Grade>, j: nat)
    requires GradeKeysUnique(gs) && j < |gs|
    ensures GradeKeysUnique(gs[..j] + gs[j + 1..])
  {
    var rest := gs[..j] + gs[j + 1..];
    forall a, b | 0 <= a < b < |rest|
      ensures rest[a].id != rest[b].id && rest[a].enrollmentId != rest[b].enrollmentId
    {
      RemoveAtIndex(gs, j, a);
      RemoveAtIndex(gs, j, b);
    }
  }

  /** The cascade leaves one grade per enrollment. */
  lemma GradesWithoutKeepsKeys(gs: seq<Grade>, enrollmentId: nat)
    requires GradeKeysUnique(gs)
    ensures GradeKeysUnique(GradesWithout(gs, enrollmentId))
  {
    match FindGrade(gs, enrollmentId)
    case None => GradesWithoutNoGrade(gs, enrollmentId);
    case Some(j) =>
      GradesWithoutIsOneDelete(gs, enrollmentId, j);
      RemoveGrade(gs, j);
  }

  /** Dropping deletes the caller's enrollment of the course and that
      enrollment's grade, keeps every other enrollment and grade, and lowers the
      course's count by one. */
  lemma {:induction false} DropCascades(db: Db, s: Session, courseId: nat)
    requires Valid(db)
    requires Drop(db, s, courseId).outcome == Dropped
    ensures var after := Drop(db, s, courseId).db;
      var gone := db.enrollments[FindEnrollment(db.enrollments, s.userId, courseId).value];
      && gone.userId == s.userId && gone.courseId == courseId
      && Valid(after)
      && (forall x :: x in after.enrollments <==> x in db.enrollments && x != gone)
      && (forall g :: g in after.grades <==> g in db.grades && g.enrollmentId != gone.id)
      && FindEnrollment(after.enrollments, s.userId, courseId).None?
      && (forall c :: Count(after.enrollments, c) + (if c == courseId then 1 else 0) == Count(db.enrollments, c))
  {
    var i := FindEnrollment(db.enrollments, s.userId, courseId).value;
    var gone := db.enrollments[i];
    var after := Drop(db, s, courseId).db;
    RemoveEnrollment(db.enrollments, i);
    GradesWithoutKeepsKeys(db.grades, gone.id);
    forall c ensures Count(after.enrollments, c) + (if c == courseId then 1 else 0) == Count(db.enrollments, c) {
      CountRemoveAt(db.enrollments, i, c);
    }
    forall k | 0 <= k < |after.enrollments|
      ensures after.enrollments[k].userId != s.userId || after.enrollments[k].courseId != courseId
    {
      var x := after.enrollments[k];
      assert x in db.enrollments && x != gone;
      var k' :| 0 <= k' < |db.enrollments| && db.enrollments[k'] == x;
      assert k' != i;
    }
    forall g | g in after.grades ensures g.enrollmentId in EnrollmentIds(after.enrollments) {
      assert g in db.grades && g.enrollmentId != gone.id;
      var x :| x in db.enrollments && x.id == g.enrollmentId;
      assert x in after.enrollments;
    }
  }

  /** The drop as the handler performs it: the enrollment row goes, and so does
      the one grade row the relationship finds, if there is one. */
  lemma DropDeletes(db: Db, s: Session, courseId: nat)
    requires Valid(db)
    requires Drop(db, s, courseId).outcome == Dropped
    ensures var i := FindEnrollment(db.enrollments, s.userId, courseId).value;
      var grades := match FindGrade(db.grades, db.enrollments[i].id)
        case None => db.grades
        case Some(j) => db.grades[..j] + db.grades[j + 1..];
      && Drop(db, s, courseId).db == db.(enrollments := db.enrollments[..i] + db.enrollments[i + 1..], grades := grades)
      && Valid(Drop(db, s, courseId).db)
  {
    DropCascades(db, s, courseId);
    var i := FindEnrollment(db.enrollments, s.userId, courseId).value;
    match FindGrade(db.grades, db.enrollments[i].id)
    case None => GradesWithoutNoGrade(db.grades, db.enrollments[i].id);
    case Some(j) => GradesWithoutIsOneDelete(db.grades, db.enrollments[i].id, j);
  }

  lemma DropPreservesValid(db: Db, s: Session, courseId: nat)
    requires Valid(db)
    ensures Valid(Drop(db, s, courseId).db)
  {
    if Drop(db, s, courseId).outcome == Dropped {
      DropCascades(db, s, courseId);
    }
  }

  /** Dropping is not idempotent: a second drop of the same course reports
      that the enrollment is not found and changes nothing. */
  lemma DropTwiceFails(db: Db, s: Session, courseId: nat)
    requires Valid(db)
    requires Drop(db, s, courseId).outcome == Dropped
    ensures var after := Drop(db, s, courseId).db;
      Drop(after, s, courseId) == Step(after, EnrollmentNotFound)
  {
    DropCascades(db, s, courseId);
  }

  /** Enrolling and then dropping the same course gives back the database as it
      was before, so a student may enroll again on the same terms. */
  lemma {:induction false} DropUndoesEnroll(db: Db, s: Session, courseId: nat)
    requires Valid(db)
    requires Enroll(db, s, courseId).outcome == Enrolled
    ensures Drop(Enroll(db, s, courseId).db, s, courseId) == Step(db, Dropped)
  {
    var e := NewEnrollment(db.enrollments, s.userId, courseId);
    var mid := Enroll(db, s, courseId).db;
    EnrollAddsOneUngradedRow(db, s, courseId);
    var n := |db.enrollments|;
    assert mid.enrollments[..n] + mid.enrollments[n + 1..] == db.enrollments;
    GradesWithoutNoGrade(db.grades, e.id);
  }

  // ----- teacher_edit_grade -----

  /** The grade value of an enrollment, if it has a grade. */
  function GradeValue(gs: seq<Grade>, enrollmentId: nat): (r: Option<real>)
    ensures r.None? <==> forall g | g in gs :: g.enrollmentId != enrollmentId
    ensures GradeKeysUnique(gs) ==>
      forall k :: 0 <= k < |gs| && gs[k].enrollmentId == enrollmentId ==> r == Some(gs[k].gradeValue)
  {
    match GradeFor(gs, enrollmentId)
    case None => None
    case Some(g) => Some(g.gradeValue)
  }

  /** The range check of `teacher_edit_grade`; both bounds are allowed. */
  predicate InRange(v: real)
    ensures InRange(v) <==> 0.0 <= v && v <= 100.0
  {
    !(v < 0.0 || v > 100.0)
  }

  /** Every stored grade is between 0 and 100. */
  ghost predicate GradesInRange(gs: seq<Grade>) {
    forall g | g in gs :: 0.0 <= g.gradeValue <= 100.0
  }

  /** The grade write: overwrite the enrollment's grade in place, or add one. */
  function Upsert(gs: seq<Grade>, enrollmentId: nat, v: real): (r: seq<Grade>)
    ensures GradeKeysUnique(gs) ==> GradeKeysUnique(r)
    ensures GradeKeysUnique(gs) ==> GradeValue(r, enrollmentId) == Some(v)
    ensures GradeKeysUnique(gs) ==>
      forall other :: other != enrollmentId ==> GradeFor(r, other) == GradeFor(gs, other)
    ensures forall g | g in r :: g in gs || (g.enrollmentId == enrollmentId && g.gradeValue == v)
    ensures |r| == |gs| + (if GradeFor(gs, enrollmentId).Some? then 0 else 1)
    // an existing grade row keeps its id: only its value changes
    ensures GradeKeysUnique(gs) && GradeFor(gs, enrollmentId).Some? ==>
      GradeFor(r, enrollmentId) == Some(GradeFor(gs, enrollmentId).value.(gradeValue := v))
    // a new grade row gets an id above every id in use
    ensures GradeFor(gs, enrollmentId).None? ==>
      GradeFor(r, enrollmentId).Some? && forall g | g in gs :: g.id < GradeFor(r, enrollmentId).value.id
  {
    match FindGrade(gs, enrollmentId)
    case Some(j) =>
      OverwriteGrade(gs, enrollmentId, j, v);
      gs[j := gs[j].(gradeValue := v)]
    case None =>
      AddGrade(gs, enrollmentId, v);
      gs + [Grade(NextGradeId(gs), enrollmentId, v)]
  }

  /** Overwriting the value of the enrollment's grade row keeps the keys and every other grade. */
  lemma OverwriteGrade(gs: seq<Grade>, enrollmentId: nat, j: nat, v: real)
    requires FindGrade(gs, enrollmentId) == Some(j)
    ensures var r := gs[j := gs[j].(gradeValue := v)];
      && (GradeKeysUnique(gs) ==> GradeKeysUnique(r))
      && (GradeKeysUnique(gs) ==> GradeValue(r, enrollmentId) == Some(v))
      && (GradeKeysUnique(gs) ==> forall other :: other != enrollmentId ==> GradeFor(r, other) == GradeFor(gs, other))
      && (forall g | g in r :: g in gs || (g.enrollmentId == enrollmentId && g.gradeValue == v))
      && (GradeKeysUnique(gs) ==> GradeFor(r, enrollmentId) == Some(gs[j].(gradeValue := v)))
      && (GradeKeysUnique(gs) ==> GradeFor(gs, enrollmentId) == Some(gs[j]))
  {
    var r := gs[j := gs[j].(gradeValue := v)];
    assert forall k :: 0 <= k < |gs| && k != j ==> r[k] == gs[k];
    assert r[j].enrollmentId == enrollmentId && r[j].gradeValue == v;
    if GradeKeysUnique(gs) {
      assert GradeKeysUnique(r);
      forall other | other != enrollmentId ensures GradeFor(r, other) == GradeFor(gs, other) {
        if GradeFor(gs, other).Some? {
          var k :| 0 <= k < |gs| && gs[k] == GradeFor(gs, other).value;
          assert r[k] == gs[k];
        } else {
          assert forall k :: 0 <= k < |r| ==> r[k].enrollmentId != other;
        }
      }
    }
  }

  /** Adding a grade row for an enrollment without one keeps the keys and every other grade. */
  lemma AddGrade(gs: seq<Grade>, enrollmentId: nat, v: real)
    requires FindGrade(gs, enrollmentId).None?
    ensures var r := gs + [Grade(NextGradeId(gs), enrollmentId, v)];
      && (GradeKeysUnique(gs) ==> GradeKeysUnique(r))
      && (GradeKeysUnique(gs) ==> GradeValue(r, enrollmentId) == Some(v))
      && (GradeKeysUnique(gs) ==> forall other :: other != enrollmentId ==> GradeFor(r, other) == GradeFor(gs, other))
      && (forall g | g in r :: g in gs || (g.enrollmentId == enrollmentId && g.gradeValue == v))
      && GradeFor(r, enrollmentId) == Some(Grade(NextGradeId(gs), enrollmentId, v))
      && (forall g | g in gs :: g.id < NextGradeId(gs))
  {
    var r := gs + [Grade(NextGradeId(gs), enrollmentId, v)];
    assert forall k :: 0 <= k < |gs| ==> r[k] == gs[k];
    assert r[|gs|].enrollmentId == enrollmentId;
    if GradeKeysUnique(gs) {
      assert GradeKeysUnique(r);
      forall other | other != enrollmentId ensures GradeFor(r, other) == GradeFor(gs, other) {
        if GradeFor(gs, other).Some? {
          var k :| 0 <= k < |gs| && gs[k] == GradeFor(gs, other).value;
          assert r[k] == gs[k];
        } else {
          assert forall k :: 0 <= k < |r| ==> r[k].enrollmentId != other;
        }
      }
    }
  }

  /** `teacher_edit_grade(enrollment_id)`: the gate, the enrollment lookup, the
      check that the caller teaches the enrollment's course, the number check,
      the range check, then the upsert. `input` is the form's grade after
      `float(...)`, None when that raises. */
  function EditGrade(db: Db, s: Session, enrollmentId: nat, input: Option<real>): (r: Step)
    ensures !Admits(s, Teacher) ==> r == Step(db, Denied(RouteGate(s, {Teacher}).value))
    ensures r.outcome != GradeSaved ==> r.db == db
    ensures Admits(s, Teacher) && EnrollmentById(db.enrollments, enrollmentId).None? ==> r == Step(db, NotFound)
    // the assignment check comes before the value checks and does not look at the value
    ensures (Admits(s, Teacher) && EnrollmentById(db.enrollments, enrollmentId).Some?
             && !Teaches(db.teacherCourses, s.userId, EnrollmentById(db.enrollments, enrollmentId).value.courseId)) ==>
      r == Step(db, NotTeacherOfCourse)
    // the number check, then the range check, both only after the assignment check
    ensures MayGrade(db, s, enrollmentId) && input.None? ==> r == Step(db, InvalidGrade)
    ensures MayGrade(db, s, enrollmentId) && input.Some? && !(0.0 <= input.value <= 100.0) ==>
      r == Step(db, GradeOutOfRange)
    ensures r.outcome == GradeSaved <==>
      && Admits(s, Teacher)
      && EnrollmentById(db.enrollments, enrollmentId).Some?
      && Teaches(db.teacherCourses, s.userId, EnrollmentById(db.enrollments, enrollmentId).value.courseId)
      && input.Some? && 0.0 <= input.value <= 100.0
    ensures r.outcome == GradeSaved ==> r.db == db.(grades := Upsert(db.grades, enrollmentId, input.value))
  {
    match RouteGate(s, {Teacher})
    case Some(d) => Step(db, Denied(d))
    case None =>
      match EnrollmentById(db.enrollments, enrollmentId)
      case None => Step(db, NotFound)
      case Some(e) =>
        if !Teaches(db.teacherCourses, s.userId, e.courseId) then Step(db, NotTeacherOfCourse)
        else
          match input
          case None => Step(db, InvalidGrade)
          case Some(v) =>
            if !InRange(v) then Step(db, GradeOutOfRange)
            else Step(db.(grades := Upsert(db.grades, enrollmentId, v)), GradeSaved)
  }

  /** The caller may write grades of this enrollment. */
  predicate MayGrade(db: Db, s: Session, enrollmentId: nat) {
    && Admits(s, Teacher)
    && EnrollmentById(db.enrollments, enrollmentId).Some?
    && Teaches(db.teacherCourses, s.userId, EnrollmentById(db.enrollments, enrollmentId).value.courseId)
  }

  /** A grade edit keeps the tables consistent, keeps stored grades in range,
      gives the edited enrollment the new value when it is accepted, and leaves
      every other enrollment's grade as it was. */
  lemma {:induction false} EditGradePreservesValid(db: Db, s: Session, enrollmentId: nat, input: Option<real>)
    requires Valid(db)
    ensures var after := EditGrade(db, s, enrollmentId, input).db;
      && Valid(after)
      && (GradesInRange(db.grades) ==> GradesInRange(after.grades))
      && after.enrollments == db.enrollments && after.teacherCourses == db.teacherCourses
      && (forall other :: other != enrollmentId ==> GradeFor(after.grades, other) == GradeFor(db.grades, other))
      && (EditGrade(db, s, enrollmentId, input).outcome == GradeSaved ==>
            GradeValue(after.grades, enrollmentId) == input)
  {
    var r := EditGrade(db, s, enrollmentId, input);
    if r.outcome == GradeSaved {
      var e := EnrollmentById(db.enrollments, enrollmentId).value;
      forall g | g in r.db.grades ensures g.enrollmentId in EnrollmentIds(db.enrollments) {
        if g !in db.grades {
          assert g.enrollmentId == e.id;
        }
      }
    }
  }

  /** Grades after a teacher submits `inputs` one after another. */
  function EditAll(db: Db, s: Session, enrollmentId: nat, inputs: seq<Option<real>>): Db
    decreases |inputs|
  {
    if inputs == [] then db
    else EditGrade(EditAll(db, s, enrollmentId, inputs[..|inputs| - 1]), s, enrollmentId, inputs[|inputs| - 1]).db
  }

  /** The value of the last input the range check accepts, or `prior` if none is accepted. */
  function LatestAccepted(prior: Option<real>, inputs: seq<Option<real>>): Option<real>
    decreases |inputs|
  {
    if inputs == [] then prior
    else
      var last := inputs[|inputs| - 1];
      if last.Some? && 0.0 <= last.value <= 100.0 then last
      else LatestAccepted(prior, inputs[..|inputs| - 1])
  }

  /** After any sequence of edits by a teacher of the course, the enrollment
      still has at most one grade (the tables stay valid), and its value is the
      latest accepted one. */
  lemma {:induction false} LastEditWins(db: Db, s: Session, enrollmentId: nat, inputs: seq<Option<real>>)
    requires Valid(db) && MayGrade(db, s, enrollmentId)
    ensures var after := EditAll(db, s, enrollmentId, inputs);
      && Valid(after)
      && MayGrade(after, s, enrollmentId)
      && GradeValue(after.grades, enrollmentId) == LatestAccepted(GradeValue(db.grades, enrollmentId), inputs)
  {
    if inputs != [] {
      var init := inputs[..|inputs| - 1];
      LastEditWins(db, s, enrollmentId, init);
      EditGradePreservesValid(EditAll(db, s, enrollmentId, init), s, enrollmentId, inputs[|inputs| - 1]);
    }
  }

  // ----- teacher_course_detail -----

  /** One entry of `students_data`. */
  datatype StudentRow = StudentRow(
    enrollmentId: nat, studentId: nat, studentName: string, grade: Option<real>, gradeId: Option<nat>)

  /** The entry for one enrollment; None when `enrollment.user` has no row. */
  function RowFor(us: seq<User>, gs: seq<Grade>, e: Enrollment): (r: Option<StudentRow>)
    ensures r.None? <==> UserById(us, e.userId).None?
    ensures r.Some? ==>
      && r.value.enrollmentId == e.id
      && r.value.studentId == e.userId
      && r.value.studentName == UserById(us, e.userId).value.username
      && r.value.grade == GradeValue(gs, e.id)
      && (r.value.gradeId.Some? <==> GradeFor(gs, e.id).Some?)
      && (r.value.gradeId.Some? ==> r.value.gradeId.value == GradeFor(gs, e.id).value.id)
  {
    match UserById(us, e.userId)
    case None => None
    case Some(u) =>
      var g := GradeFor(gs, e.id);
      Some(StudentRow(e.id, u.id, u.username,
                      if g.Some? then Some(g.value.gradeValue) else None,
                      if g.Some? then Some(g.value.id) else None))
  }

  /** The entries for a list of enrollments, in order; None as soon as one fails. */
  function Rows(us: seq<User>, gs: seq<Grade>, list: seq<Enrollment>): (r: Option<seq<StudentRow>>)
    ensures r.None? <==> exists k :: 0 <= k < |list| && RowFor(us, gs, list[k]).None?
    ensures r.Some? ==>
      |r.value| == |list| && forall k :: 0 <= k < |list| ==> RowFor(us, gs, list[k]) == Some(r.value[k])
  {
    if list == [] then Some([])
    else
      var init := list[..|list| - 1];
      assert forall k :: 0 <= k < |init| ==> init[k] == list[k];
      match Rows(us, gs, init)
      case None => None
      case Some(rows) =>
        match RowFor(us, gs, list[|list| - 1])
        case None => None
        case Some(row) => Some(rows + [row])
  }

  /** The entries for one more enrollment of the list. */
  lemma RowsSnoc(us: seq<User>, gs: seq<Grade>, list: seq<Enrollment>, i: nat)
    requires i < |list|
    ensures Rows(us, gs, list[..i + 1]) ==
      match Rows(us, gs, list[..i])
      case None => None
      case Some(rows) =>
        match RowFor(us, gs, list[i])
        case None => None
        case Some(row) => Some(rows + [row])
  {
    assert list[..i + 1][..i] == list[..i];
  }

  /** The entries of a course's roster, field by field. */
  lemma RosterEntries(us: seq<User>, gs: seq<Grade>, es: seq<Enrollment>, courseId: nat)
    requires Rows(us, gs, EnrollmentsIn(es, courseId)).Some?
    ensures var roster, rows := EnrollmentsIn(es, courseId), Rows(us, gs, EnrollmentsIn(es, courseId)).value;
      && |rows| == Count(es, courseId)
      && forall k :: 0 <= k < |rows| ==>
           && rows[k].enrollmentId == roster[k].id
           && rows[k].studentId == roster[k].userId
           && UserById(us, roster[k].userId).Some?
           && rows[k].studentName == UserById(us, roster[k].userId).value.username
           && rows[k].grade == GradeValue(gs, roster[k].id)
           && (rows[k].gradeId.Some? <==> GradeFor(gs, roster[k].id).Some?)
           && (rows[k].gradeId.Some? ==> rows[k].gradeId.value == GradeFor(gs, roster[k].id).value.id)
  {
    var roster, rows := EnrollmentsIn(es, courseId), Rows(us, gs, EnrollmentsIn(es, courseId)).value;
    forall k | 0 <= k < |rows| ensures RowFor(us, gs, roster[k]) == Some(rows[k]) {
    }
  }

  /** A roster without entries has an enrollment of the course whose user row is gone. */
  lemma RosterOrphan(us: seq<User>, gs: seq<Grade>, es: seq<Enrollment>, courseId: nat)
    requires Rows(us, gs, EnrollmentsIn(es, courseId)).None?
    ensures exists e :: e in es && e.courseId == courseId && UserById(us, e.userId).None?
  {
    var roster := EnrollmentsIn(es, courseId);
    var k :| 0 <= k < |roster| && RowFor(us, gs, roster[k]).None?;
    assert roster[k] in roster;
  }

  /** `teacher_course_detail(course_id)`: the gate, the assignment check, the
      course lookup, then one entry per enrollment of the course. */
  function CourseDetail(db: Db, s: Session, courseId: nat): (r: Reply<seq<StudentRow>>)
    ensures !Admits(s, Teacher) ==> r == Refused(Denied(RouteGate(s, {Teacher}).value))
    // the assignment check comes before the course lookup
    ensures Admits(s, Teacher) && !Teaches(db.teacherCourses, s.userId, courseId) ==> r == Refused(NotTeacherOfCourse)
    ensures (Admits(s, Teacher) && Teaches(db.teacherCourses, s.userId, courseId)
             && CourseById(db.courses, courseId).None?) ==> r == Refused(NotFound)
    ensures r.Page? ==> Admits(s, Teacher) && Teaches(db.teacherCourses, s.userId, courseId)
    // a teacher of an existing course gets the page unless an enrollment's user row is gone
    ensures (Admits(s, Teacher) && Teaches(db.teacherCourses, s.userId, courseId)
             && CourseById(db.courses, courseId).Some?) ==>
      && (r.Page? <==> Rows(db.users, db.grades, EnrollmentsIn(db.enrollments, courseId)).Some?)
      && (r.Refused? ==> r.reason == BrokenReference)
      && (r.Page? ==> Some(r.value) == Rows(db.users, db.grades, EnrollmentsIn(db.enrollments, courseId)))
    ensures r.Refused? && r.reason == BrokenReference ==>
      exists e :: e in db.enrollments && e.courseId == courseId && UserById(db.users, e.userId).None?
    // the page lists every enrollment of the course once, in table order, with its grade
    ensures r.Page? ==>
      var roster := EnrollmentsIn(db.enrollments, courseId);
      && |r.value| == Count(db.enrollments, courseId)
      && forall k :: 0 <= k < |r.value| ==>
           && r.value[k].enrollmentId == roster[k].id
           && r.value[k].studentId == roster[k].userId
           && UserById(db.users, roster[k].userId).Some?
           && r.value[k].studentName == UserById(db.users, roster[k].userId).value.username
           && r.value[k].grade == GradeValue(db.grades, roster[k].id)
           && (r.value[k].gradeId.Some? <==> GradeFor(db.grades, roster[k].id).Some?)
           && (r.value[k].gradeId.Some? ==> r.value[k].gradeId.value == GradeFor(db.grades, roster[k].id).value.id)
  {
    match RouteGate(s, {Teacher})
    case Some(d) => Refused(Denied(d))
    case None =>
      if !Teaches(db.teacherCourses, s.userId, courseId) then Refused(NotTeacherOfCourse)
      else if CourseById(db.courses, courseId).None? then Refused(NotFound)
      else
        match Rows(db.users, db.grades, EnrollmentsIn(db.enrollments, courseId))
        case None =>
          RosterOrphan(db.users, db.grades, db.enrollments, courseId);
          Refused(BrokenReference)
        case Some(rows) =>
          RosterEntries(db.users, db.grades, db.enrollments, courseId);
          Page(rows)
  }

  // ----- api_enrollment_count -----

  /** The JSON object of the status query. */
  datatype CourseStatus = CourseStatus(courseId: nat, enrolled: nat, capacity: int, available: int, isFull: bool)

  /** `api_enrollment_count(course_id)`: behind `login_required` only, so any role may ask. */
  function EnrollmentStatus(db: Db, s: Session, courseId: nat): (r: Reply<CourseStatus>)
    ensures !s.loggedIn ==> r == Refused(Denied(LoginRequired))
    ensures s.loggedIn ==> (r.Page? <==> CourseById(db.courses, courseId).Some?)
    ensures s.loggedIn && CourseById(db.courses, courseId).None? ==> r == Refused(NotFound)
    ensures r.Page? ==>
      && r.value.courseId == courseId
      && r.value.enrolled == Count(db.enrollments, courseId)
      && r.value.capacity == CourseById(db.courses, courseId).value.capacity
      && r.value.available == r.value.capacity - r.value.enrolled
      && (r.value.isFull <==> r.value.enrolled >= r.value.capacity)
  {
    match LoginGate(s)
    case Some(d) => Refused(Denied(d))
    case None =>
      match CourseById(db.courses, courseId)
      case None => Refused(NotFound)
      case Some(course) =>
        var n := Count(db.enrollments, course.id);
        Page(CourseStatus(courseId, n, course.capacity, course.capacity - n, IsFull(db.enrollments, course)))
  }

  /** The status query agrees with the enroll route: `enrolled` is the number of
      distinct students, and a student not yet in the course is admitted exactly
      when the query says the course is not full. */
  lemma StatusPredictsEnroll(db: Db, asker: Session, student: Session, courseId: nat)
    requires Valid(db)
    requires EnrollmentStatus(db, asker, courseId).Page?
    requires Admits(student, Student) && FindEnrollment(db.enrollments, student.userId, courseId).None?
    ensures var st := EnrollmentStatus(db, asker, courseId).value;
      && st.enrolled == |Students(db.enrollments, courseId)|
      && (Enroll(db, student, courseId).outcome == Enrolled <==> !st.isFull)
      && (st.isFull ==> Enroll(db, student, courseId) == Step(db, CourseFull(st.enrolled, st.capacity)))
  {
    CountIsHeadcount(db.enrollments, courseId);
  }
}
