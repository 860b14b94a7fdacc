/**
 * The three registries of the app state (users, session, enrollments) as values,
 * with the helpers `currentUser`, `enrolled`, the state
 * effect of `ensureEnrollment`/`enrollmentOf`, the unenroll deletion, the flag
 * updates and `progressFor`.
 */
module Registry {
  import opened Wrappers
  import opened Catalog
  import opened Progress

  /** A registered account; the password is kept in plain text, as the app does. */
  datatype User = User(id: string, name: string, email: string, password: string)

  /** One user's enrollment in one course: a completion flag per lesson and the enrollment time. */
  datatype Enrollment = Enrollment(completed: seq<bool>, enrolledAt: int)

  /** email -> user */
  type Users = map<string, User>
  /** courseId -> enrollment, for one user */
  type CourseEnrollments = map<string, Enrollment>
  /** email -> courseId -> enrollment */
  type Enrollments = map<string, CourseEnrollments>

  /** `currentUser()`: the stored user the session points at, absent without a session or user. */
  function CurrentUser(users: Users, session: Option<string>): Option<User> {
    if session.Some? && session.value in users then Some(users[session.value]) else None
  }

  /** `enrolled(email, courseId)`. */
  predicate Enrolled(enr: Enrollments, email: string, cid: string) {
    email in enr && cid in enr[email]
  }

  /** One user's enrollment map, with a missing map read as the empty one `ensureEnrollment` creates. */
  function Inner(enr: Enrollments, email: string): CourseEnrollments {
    if email in enr then enr[email] else map[]
  }

  /** The pair's record, if there is one. */
  function Lookup(enr: Enrollments, email: string, cid: string): Option<Enrollment> {
    if Enrolled(enr, email, cid) then Some(enr[email][cid]) else None
  }

  /** Every pair other than `(email, cid)` has the same record in `a` and `b`, and no other user's map appears or goes. */
  ghost predicate OthersUnchanged(a: Enrollments, b: Enrollments, email: string, cid: string) {
    && (forall e :: e != email ==> (e in a <==> e in b))
    && (forall e, c :: e != email || c != cid ==> Lookup(a, e, c) == Lookup(b, e, c))
  }

  /** The record `enrollmentOf` creates: one false flag per lesson, stamped `now`. */
  function NewEnrollment(course: Course, now: int): (e: Enrollment)
    ensures |e.completed| == |course.lessons|
    ensures forall k :: 0 <= k < |e.completed| ==> !e.completed[k]
    ensures e.enrolledAt == now
  {
    Enrollment(AllOf(|course.lessons|, false), now)
  }

  /** The precondition under which `enrollmentOf` does not dereference a missing course. */
  predicate CanEnroll(enr: Enrollments, email: string, cid: string) {
    Enrolled(enr, email, cid) || GetCourse(cid).Some?
  }

  /**
   * The registry after `enrollmentOf(email, cid)`: an existing record is kept as it is,
   * otherwise the user's map is created if needed and a fresh record is added.
   */
  function WithEnrollment(enr: Enrollments, email: string, cid: string, now: int): (r: Enrollments)
    requires CanEnroll(enr, email, cid)
    ensures Enrolled(r, email, cid)
    ensures Enrolled(enr, email, cid) ==> r == enr
    ensures !Enrolled(enr, email, cid) ==> r[email][cid] == NewEnrollment(GetCourse(cid).value, now)
    ensures OthersUnchanged(enr, r, email, cid)
  {
    if Enrolled(enr, email, cid) then enr
    else enr[email := Inner(enr, email)[cid := NewEnrollment(GetCourse(cid).value, now)]]
  }

  /** The registry after unenrolling: only the pair's record goes; the user's map stays, possibly empty. */
  function WithoutEnrollment(enr: Enrollments, email: string, cid: string): (r: Enrollments)
    ensures !Enrolled(r, email, cid)
    ensures OthersUnchanged(enr, r, email, cid)
    ensures enr.Keys == r.Keys
    ensures !Enrolled(enr, email, cid) ==> r == enr
  {
    if email in enr then
      var m := enr[email] - {cid};
      assert cid !in enr[email] ==> m == enr[email];
      enr[email := m]
    else enr
  }

  /** The registry after the pair's completion flags are replaced by `flags`. */
  function WithFlags(enr: Enrollments, email: string, cid: string, flags: seq<bool>): (r: Enrollments)
    requires Enrolled(enr, email, cid)
    ensures Enrolled(r, email, cid)
    ensures r[email][cid] == Enrollment(flags, enr[email][cid].enrolledAt)
    ensures OthersUnchanged(enr, r, email, cid)
    ensures enr.Keys == r.Keys && enr[email].Keys == r[email].Keys
  {
    enr[email := enr[email][cid := Enrollment(flags, enr[email][cid].enrolledAt)]]
  }

  /** Every stored record has at least one flag, so `progressFor` never divides by zero. */
  predicate HasLessons(enr: Enrollments, email: string, cid: string) {
    Enrolled(enr, email, cid) ==> |enr[email][cid].completed| > 0
  }

  /** `progressFor(email, courseId)`: 0 when not enrolled, else the rounded share of completed lessons. */
  function ProgressFor(enr: Enrollments, email: string, cid: string): (p: nat)
    requires HasLessons(enr, email, cid)
    ensures p <= 100
    ensures !Enrolled(enr, email, cid) ==> p == 0
  {
    if !Enrolled(enr, email, cid) then 0
    else
      var flags := enr[email][cid].completed;
      Percent(CountTrue(flags), |flags|)
  }

  /** With fewer than 200 lessons, progress is 100 exactly when every lesson is complete. */
  lemma ProgressFullIff(enr: Enrollments, email: string, cid: string)
    requires Enrolled(enr, email, cid) && 0 < |enr[email][cid].completed| < 200
    ensures ProgressFor(enr, email, cid) == 100
            <==> forall k :: 0 <= k < |enr[email][cid].completed| ==> enr[email][cid].completed[k]
  {
    var flags := enr[email][cid].completed;
    PercentFullIff(CountTrue(flags), |flags|);
    CountAll(flags);
  }

  /** With at most 200 lessons, progress is 0 exactly when no lesson is complete. */
  lemma ProgressZeroIff(enr: Enrollments, email: string, cid: string)
    requires Enrolled(enr, email, cid) && 0 < |enr[email][cid].completed| <= 200
    ensures ProgressFor(enr, email, cid) == 0
            <==> forall k :: 0 <= k < |enr[email][cid].completed| ==> !enr[email][cid].completed[k]
  {
    var flags := enr[email][cid].completed;
    PercentZeroIff(CountTrue(flags), |flags|);
    CountNone(flags);
  }

  /** Completing more lessons (and un-completing none) never lowers progress. */
  lemma ProgressMonotone(enr: Enrollments, email: string, cid: string, flags: seq<bool>)
    requires Enrolled(enr, email, cid) && |enr[email][cid].completed| > 0
    requires |flags| == |enr[email][cid].completed|
    requires forall k :: 0 <= k < |flags| ==> enr[email][cid].completed[k] ==> flags[k]
    ensures HasLessons(WithFlags(enr, email, cid, flags), email, cid)
    ensures ProgressFor(enr, email, cid) <= ProgressFor(WithFlags(enr, email, cid, flags), email, cid)
  {
    var before := enr[email][cid].completed;
    CountPointwise(before, flags);
    PercentMonotone(CountTrue(before), CountTrue(flags), |flags|);
  }

  /** Ticking one lesson never lowers progress; unticking one never raises it. */
  lemma ProgressSetLesson(enr: Enrollments, email: string, cid: string, idx: nat, v: bool)
    requires Enrolled(enr, email, cid) && idx < |enr[email][cid].completed|
    ensures HasLessons(WithFlags(enr, email, cid, enr[email][cid].completed[idx := v]), email, cid)
    ensures var p := ProgressFor(WithFlags(enr, email, cid, enr[email][cid].completed[idx := v]), email, cid);
            if v then ProgressFor(enr, email, cid) <= p else p <= ProgressFor(enr, email, cid)
  {
    var f := enr[email][cid].completed;
    var g := f[idx := v];
    CountUpdate(f, idx, v);
    if v {
      PercentMonotone(CountTrue(f), CountTrue(g), |f|);
    } else {
      PercentMonotone(CountTrue(g), CountTrue(f), |f|);
    }
  }

  /** Mark-all gives 100% and reset gives 0%, whatever the number of lessons. */
  lemma ProgressFill(enr: Enrollments, email: string, cid: string)
    requires Enrolled(enr, email, cid) && |enr[email][cid].completed| > 0
    ensures HasLessons(WithFlags(enr, email, cid, Fill(enr[email][cid].completed, true)), email, cid)
    ensures HasLessons(WithFlags(enr, email, cid, Fill(enr[email][cid].completed, false)), email, cid)
    ensures ProgressFor(WithFlags(enr, email, cid, Fill(enr[email][cid].completed, true)), email, cid) == 100
    ensures ProgressFor(WithFlags(enr, email, cid, Fill(enr[email][cid].completed, false)), email, cid) == 0
  {
    var f := enr[email][cid].completed;
    var n := |f|;
    CountAll(Fill(f, true));
    CountNone(Fill(f, false));
    MulMono(2 * n, 100, Percent(n, n));
    MulMono(2 * n, Percent(n, n) + 1, 100);
    MulMono(2 * n, 1, Percent(0, n));
  }

  /** Unenrolling right after enrolling restores the registry, up to the (possibly empty) user map created. */
  lemma UnenrollAfterEnroll(enr: Enrollments, email: string, cid: string, now: int)
    requires !Enrolled(enr, email, cid) && GetCourse(cid).Some?
    ensures WithoutEnrollment(WithEnrollment(enr, email, cid, now), email, cid) == enr[email := Inner(enr, email)]
    ensures email in enr ==> WithoutEnrollment(WithEnrollment(enr, email, cid, now), email, cid) == enr
    ensures ProgressFor(WithoutEnrollment(WithEnrollment(enr, email, cid, now), email, cid), email, cid) == 0
  {
    var m := Inner(enr, email);
    var x := NewEnrollment(GetCourse(cid).value, now);
    var w := WithEnrollment(enr, email, cid, now);
    assert w == enr[email := m[cid := x]];
    assert m[cid := x] - {cid} == m;
    assert WithoutEnrollment(w, email, cid) == w[email := m[cid := x] - {cid}];
    assert email in enr ==> enr[email := m] == enr;
  }

  /** A change to one pair leaves the progress of every other pair as it was. */
  lemma ProgressOthersUnchanged(a: Enrollments, b: Enrollments, email: string, cid: string, e: string, c: string)
    requires OthersUnchanged(a, b, email, cid) && (e != email || c != cid)
    requires HasLessons(a, e, c)
    ensures HasLessons(b, e, c)
    ensures ProgressFor(b, e, c) == ProgressFor(a, e, c)
  {
    assert Lookup(a, e, c) == Lookup(b, e, c);
  }

  /** The data-model invariant: every stored record belongs to a catalog course and has one flag per lesson of it. */
  ghost predicate RecordsFit(enr: Enrollments) {
    forall e, c :: Enrolled(enr, e, c) ==>
      GetCourse(c).Some? && |enr[e][c].completed| == |GetCourse(c).value.lessons|
  }

  /** The invariant holds of the empty registry, which start-up without stored data and wipe produce. */
  lemma RecordsFitEmpty()
    ensures RecordsFit(map[])
  {
  }

  /** With the invariant every record has a flag, so `progressFor` is defined for every pair. */
  lemma RecordsFitHasLessons(enr: Enrollments)
    requires RecordsFit(enr)
    ensures forall e, c :: HasLessons(enr, e, c)
  {
    forall e, c | Enrolled(enr, e, c) ensures |enr[e][c].completed| > 0 {
      GetCourseInCatalog(c);
    }
  }

  /** `enrollmentOf` keeps the invariant: a fresh record gets one flag per lesson of its course. */
  lemma RecordsFitWithEnrollment(enr: Enrollments, email: string, cid: string, now: int)
    requires CanEnroll(enr, email, cid)
    ensures RecordsFit(enr) ==> RecordsFit(WithEnrollment(enr, email, cid, now))
  {
    var r := WithEnrollment(enr, email, cid, now);
    if RecordsFit(enr) {
      forall e, c | Enrolled(r, e, c)
        ensures GetCourse(c).Some? && |r[e][c].completed| == |GetCourse(c).value.lessons|
      {
        if e != email || c != cid {
          assert Lookup(enr, e, c) == Lookup(r, e, c);
        }
      }
    }
  }

  /** Unenrolling keeps the invariant: the remaining records are untouched. */
  lemma RecordsFitWithoutEnrollment(enr: Enrollments, email: string, cid: string)
    ensures RecordsFit(enr) ==> RecordsFit(WithoutEnrollment(enr, email, cid))
  {
    var r := WithoutEnrollment(enr, email, cid);
    if RecordsFit(enr) {
      forall e, c | Enrolled(r, e, c)
        ensures GetCourse(c).Some? && |r[e][c].completed| == |GetCourse(c).value.lessons|
      {
        assert Lookup(enr, e, c) == Lookup(r, e, c);
      }
    }
  }

  /** Replacing a record's flags by as many flags keeps the invariant. */
  lemma RecordsFitWithFlags(enr: Enrollments, email: string, cid: string, flags: seq<bool>)
    requires Enrolled(enr, email, cid) && |flags| == |enr[email][cid].completed|
    ensures RecordsFit(enr) ==> RecordsFit(WithFlags(enr, email, cid, flags))
  {
    var r := WithFlags(enr, email, cid, flags);
    if RecordsFit(enr) {
      forall e, c | Enrolled(r, e, c)
        ensures GetCourse(c).Some? && |r[e][c].completed| == |GetCourse(c).value.lessons|
      {
        if e != email || c != cid {
          assert Lookup(enr, e, c) == Lookup(r, e, c);
        }
      }
    }
  }
}
