/**
 * The app state and the data-mutating bodies of the event handlers. The three
 * module-level registries become the fields of one `AppState` object; every
 * handler's `write(...)` to storage is a write-through that leaves these fields as
 * they are, so it does not appear here.
 */
module App {
  import opened Wrappers
  import opened Text
  import opened Catalog
  import opened Progress
  import opened Registry

  /** A parsed import file; a member that is missing (or falsy) is `None`. */
  datatype Payload = Payload(users: Option<Users>, enrollments: Option<Enrollments>, session: Option<string>)

  class AppState {
    var users: Users
    /** `Some(email)` stands for the session object `{ email }`, `None` for `null`. */
    var session: Option<string>
    var enrollments: Enrollments

    /** Start-up: each registry is what storage held, or its default when that was missing or corrupt. */
    constructor (storedUsers: Option<Users>, storedSession: Option<string>, storedEnrollments: Option<Enrollments>)
      ensures users == storedUsers.GetOr(map[])
      ensures session == storedSession
      ensures enrollments == storedEnrollments.GetOr(map[])
      ensures storedEnrollments.None? ==> RecordsFit(enrollments)
    {
      RecordsFitEmpty();
      users := storedUsers.GetOr(map[]);
      session := storedSession;
      enrollments := storedEnrollments.GetOr(map[]);
    }

    /** Someone is signed in: the session names a stored user. */
    predicate SignedIn()
      reads this
    {
      CurrentUser(users, session).Some?
    }

    /** `currentUser().email`, the key every course handler works under. */
    function ActiveEmail(): string
      reads this
      requires SignedIn()
    {
      CurrentUser(users, session).value.email
    }

    /** `setSession(email)`: a missing or empty email clears the session. */
    method SetSession(email: Option<string>)
      modifies this`session
      ensures session == if email.Some? && email.value != "" then email else None
    {
      if email.Some? && email.value != "" {
        session := email;
      } else {
        session := None;
      }
    }

    /**
     * The register handler: the email is trimmed and lower-cased; a taken key is refused
     * with nothing changed; otherwise the new user is stored under it and signed in.
     */
    method Register(name: string, email: string, password: string, freshId: string) returns (ok: bool)
      modifies this`users, this`session
      ensures ok <==> TrimLower(email) !in old(users)
      ensures !ok ==> users == old(users) && session == old(session)
      ensures ok ==> users == old(users)[TrimLower(email) := User(freshId, Trim(name), TrimLower(email), password)]
      ensures ok ==> |users| == |old(users)| + 1
      ensures ok ==> session == if TrimLower(email) == "" then None else Some(TrimLower(email))
      ensures ok && TrimLower(email) != "" ==>
                CurrentUser(users, session) == Some(User(freshId, Trim(name), TrimLower(email), password))
    {
      var key := TrimLower(email);
      if key in users {
        return false;
      }
      ghost var before := users;
      var user := User(freshId, Trim(name), key, password);
      users := users[key := user];
      assert |users| == |before| + 1 by {
        assert users.Keys == before.Keys + {key};
      }
      SetSession(Some(key));
      assert key != "" ==> CurrentUser(users, session) == Some(user);
      ok := true;
    }

    /** The login handler: succeeds exactly when the normalized email is stored with that exact password. */
    method Login(email: string, password: string) returns (ok: bool)
      modifies this`session
      ensures ok <==> TrimLower(email) in users && users[TrimLower(email)].password == password
      ensures ok ==> session == if TrimLower(email) == "" then None else Some(TrimLower(email))
      ensures ok && TrimLower(email) != "" ==> CurrentUser(users, session) == Some(users[TrimLower(email)])
      ensures !ok ==> session == old(session)
    {
      var key := TrimLower(email);
      if key !in users || users[key].password != password {
        return false;
      }
      SetSession(Some(key));
      ok := true;
    }

    /** The logout handler. */
    method Logout()
      modifies this`session
      ensures session == None
      ensures CurrentUser(users, session) == None
    {
      SetSession(None);
    }

    /** `ensureEnrollment(email)`: the user gets an empty enrollment map if they have none. */
    method EnsureEnrollment(email: string)
      modifies this`enrollments
      ensures enrollments == old(enrollments)[email := Inner(old(enrollments), email)]
      ensures email in old(enrollments) ==> enrollments == old(enrollments)
      ensures RecordsFit(old(enrollments)) ==> RecordsFit(enrollments)
    {
      if email !in enrollments {
        enrollments := enrollments[email := map[]];
      }
    }

    /**
     * `enrollmentOf(email, courseId)`: the existing record, untouched, or a fresh one with a
     * false flag per lesson, stamped `now`.
     */
    method EnrollmentOf(email: string, cid: string, now: int) returns (e: Enrollment)
      requires CanEnroll(enrollments, email, cid)
      modifies this`enrollments
      ensures enrollments == WithEnrollment(old(enrollments), email, cid, now)
      ensures Enrolled(enrollments, email, cid) && e == enrollments[email][cid]
      ensures Enrolled(old(enrollments), email, cid) ==> e == old(enrollments)[email][cid]
      ensures !Enrolled(old(enrollments), email, cid) ==>
                |e.completed| == |GetCourse(cid).value.lessons| && e.enrolledAt == now
                && forall k :: 0 <= k < |e.completed| ==> !e.completed[k]
      ensures RecordsFit(old(enrollments)) ==> RecordsFit(enrollments)
    {
      RecordsFitWithEnrollment(enrollments, email, cid, now);
      EnsureEnrollment(email);
      if cid !in enrollments[email] {
        var course := GetCourse(cid).value;
        var record := NewEnrollment(course, now);
        enrollments := enrollments[email := enrollments[email][cid := record]];
        assert enrollments == old(enrollments)[email := Inner(old(enrollments), email)[cid := record]];
      }
      e := enrollments[email][cid];
    }

    /** The enroll handler: `enrollmentOf` for the signed-in user. */
    method Enroll(cid: string, now: int)
      requires SignedIn() && CanEnroll(enrollments, ActiveEmail(), cid)
      modifies this`enrollments
      ensures enrollments == WithEnrollment(old(enrollments), ActiveEmail(), cid, now)
      ensures Enrolled(enrollments, ActiveEmail(), cid)
      ensures RecordsFit(old(enrollments)) ==> RecordsFit(enrollments)
    {
      var _ := EnrollmentOf(ActiveEmail(), cid, now);
    }

    /** The unenroll handler: deletes the one record, if the user has an enrollment map at all. */
    method Unenroll(cid: string)
      requires SignedIn()
      modifies this`enrollments
      ensures enrollments == WithoutEnrollment(old(enrollments), ActiveEmail(), cid)
      ensures !Enrolled(enrollments, ActiveEmail(), cid)
      ensures ProgressFor(enrollments, ActiveEmail(), cid) == 0
      ensures RecordsFit(old(enrollments)) ==> RecordsFit(enrollments)
    {
      var email := ActiveEmail();
      RecordsFitWithoutEnrollment(enrollments, email, cid);
      if email in enrollments {
        enrollments := enrollments[email := enrollments[email] - {cid}];
      }
    }

    /** The index of a lesson checkbox lies inside the record `enrollmentOf` yields. */
    predicate LessonIndexOk(cid: string, idx: nat)
      reads this
      requires SignedIn()
    {
      if Enrolled(enrollments, ActiveEmail(), cid) then idx < |enrollments[ActiveEmail()][cid].completed|
      else GetCourse(cid).Some? && idx < |GetCourse(cid).value.lessons|
    }

    /**
     * The lesson checkbox handler: through `enrollmentOf` (which enrolls if needed), flag `idx`
     * becomes `checked`; every other flag and the length stay.
     */
    method ChangeLesson(cid: string, idx: nat, checked: bool, now: int)
      requires SignedIn() && LessonIndexOk(cid, idx)
      modifies this`enrollments
      ensures var created := WithEnrollment(old(enrollments), ActiveEmail(), cid, now);
              enrollments == WithFlags(created, ActiveEmail(), cid,
                                       created[ActiveEmail()][cid].completed[idx := checked])
      ensures RecordsFit(old(enrollments)) ==> RecordsFit(enrollments)
    {
      var email := ActiveEmail();
      var enr := EnrollmentOf(email, cid, now);
      RecordsFitWithFlags(enrollments, email, cid, enr.completed[idx := checked]);
      enrollments := enrollments[email := enrollments[email][cid := enr.(completed := enr.completed[idx := checked])]];
    }

    /** The mark-all handler: every flag of the (possibly just created) record becomes true. */
    method MarkAll(cid: string, now: int)
      requires SignedIn() && CanEnroll(enrollments, ActiveEmail(), cid)
      modifies this`enrollments
      ensures var created := WithEnrollment(old(enrollments), ActiveEmail(), cid, now);
              enrollments == WithFlags(created, ActiveEmail(), cid, Fill(created[ActiveEmail()][cid].completed, true))
      ensures RecordsFit(old(enrollments)) ==> RecordsFit(enrollments)
    {
      var email := ActiveEmail();
      var enr := EnrollmentOf(email, cid, now);
      RecordsFitWithFlags(enrollments, email, cid, Fill(enr.completed, true));
      enrollments := enrollments[email := enrollments[email][cid := enr.(completed := Fill(enr.completed, true))]];
    }

    /** The reset handler: every flag of the (possibly just created) record becomes false. */
    method ResetProgress(cid: string, now: int)
      requires SignedIn() && CanEnroll(enrollments, ActiveEmail(), cid)
      modifies this`enrollments
      ensures var created := WithEnrollment(old(enrollments), ActiveEmail(), cid, now);
              enrollments == WithFlags(created, ActiveEmail(), cid, Fill(created[ActiveEmail()][cid].completed, false))
      ensures RecordsFit(old(enrollments)) ==> RecordsFit(enrollments)
    {
      var email := ActiveEmail();
      var enr := EnrollmentOf(email, cid, now);
      RecordsFitWithFlags(enrollments, email, cid, Fill(enr.completed, false));
      enrollments := enrollments[email := enrollments[email][cid := enr.(completed := Fill(enr.completed, false))]];
    }

    /**
     * The import handler, on an already parsed file: with both registries present all three
     * are replaced (the session defaulting to none); otherwise nothing changes.
     */
    method Import(data: Payload) returns (ok: bool)
      modifies this
      ensures ok <==> data.users.Some? && data.enrollments.Some?
      ensures ok ==> users == data.users.value && enrollments == data.enrollments.value && session == data.session
      ensures !ok ==> users == old(users) && enrollments == old(enrollments) && session == old(session)
    {
      if data.users.Some? && data.enrollments.Some? {
        users, enrollments, session := data.users.value, data.enrollments.value, data.session;
        ok := true;
      } else {
        ok := false;
      }
    }

    /** The wipe handler: all three registries emptied, so nobody is signed in. */
    method Wipe()
      modifies this
      ensures users == map[] && enrollments == map[] && session == None
      ensures CurrentUser(users, session) == None
      ensures RecordsFit(enrollments)
    {
      users, enrollments, session := map[], map[], None;
      RecordsFitEmpty();
    }
  }

  /**
   * The lesson checkboxes are rendered one per lesson of the catalog course, so under the
   * data-model invariant every index they carry is one `ChangeLesson` accepts.
   */
  lemma CheckboxIndexOk(app: AppState, cid: string, idx: nat)
    requires app.SignedIn() && RecordsFit(app.enrollments)
    requires GetCourse(cid).Some? && idx < |GetCourse(cid).value.lessons|
    ensures app.LessonIndexOk(cid, idx)
  {
  }
}

/** Short sessions walked through the handlers, proved against their contracts: registering twice, logging in, ticking lessons, unenrolling, mark-all and reset. */
module Scenarios {
  import opened Wrappers
  import opened Text
  import opened Catalog
  import opened Progress
  import opened Registry
  import opened Queries
  import opened App

  /** Registering again under the same email, whatever its case and surrounding blanks, is refused. */
  method RegisterTwice(email: string, again: string, name: string, password: string, id1: string, id2: string)
    returns (first: bool, second: bool, accounts: nat)
    requires TrimLower(again) == TrimLower(email)
    ensures first && !second && accounts == 1
  {
    var app := new AppState(None, None, None);
    first := app.Register(name, email, password, id1);
    second := app.Register(name, again, password, id2);
    accounts := |app.users|;
  }

  /** Logging in works with the registered password and with no other. */
  method LoginChecksPassword(email: string, name: string, password: string, wrong: string, id: string)
    returns (right: bool, bad: bool)
    requires wrong != password
    ensures right && !bad
  {
    var app := new AppState(None, None, None);
    var _ := app.Register(name, email, password, id);
    app.Logout();
    bad := app.Login(email, wrong);
    right := app.Login(email, password);
  }

  /** In a freshly enrolled six-lesson course, ticking lessons 0 and 1 shows 33%. */
  method TickFirstTwo(app: AppState, cid: string, now: int) returns (percent: nat)
    requires app.SignedIn() && Enrolled(app.enrollments, app.ActiveEmail(), cid)
    requires app.enrollments[app.ActiveEmail()][cid].completed == [false, false, false, false, false, false]
    modifies app
    ensures app.SignedIn() && Enrolled(app.enrollments, app.ActiveEmail(), cid)
    ensures app.enrollments[app.ActiveEmail()][cid].completed == [true, true, false, false, false, false]
    ensures percent == 33
  {
    var email := app.ActiveEmail();
    app.ChangeLesson(cid, 0, true, now);
    assert app.enrollments[email][cid].completed == [true, false, false, false, false, false];
    app.ChangeLesson(cid, 1, true, now);
    assert app.enrollments[email][cid].completed == [true, true, false, false, false, false];
    percent := ProgressFor(app.enrollments, email, cid);
    assert percent == 33 by {
      PercentExamples();
    }
  }

  /** Continuing from two ticked lessons of six, ticking lesson 2 as well shows 50%. */
  method LessonWalkthrough(app: AppState, cid: string, now: int) returns (afterTwo: nat, afterThree: nat)
    requires app.SignedIn() && Enrolled(app.enrollments, app.ActiveEmail(), cid)
    requires app.enrollments[app.ActiveEmail()][cid].completed == [false, false, false, false, false, false]
    modifies app
    ensures afterTwo == 33 && afterThree == 50
  {
    afterTwo := TickFirstTwo(app, cid, now);
    var email := app.ActiveEmail();
    app.ChangeLesson(cid, 2, true, now);
    assert app.enrollments[email][cid].completed == [true, true, true, false, false, false];
    afterThree := ProgressFor(app.enrollments, email, cid);
    assert afterThree == 50 by {
      PercentExamples();
    }
  }

  /** Unenrolling right after enrolling shows 0% and leaves the account with no enrollments. */
  method EnrollThenUnenroll(now: int) returns (enrolledBefore: bool, enrolledAfter: bool, percent: nat, count: nat)
    ensures enrolledBefore && !enrolledAfter && percent == 0 && count == 0
  {
    var ada := User("u1", "Ada", "ada", "pw");
    var app := new AppState(Some(map["ada" := ada]), Some("ada"), None);
    assert GetCourse("js101").Some? by {
      CatalogWellFormed();
      assert CATALOG[2].id == "js101";
    }
    app.Enroll("js101", now);
    enrolledBefore := Enrolled(app.enrollments, "ada", "js101");
    app.Unenroll("js101");
    enrolledAfter := Enrolled(app.enrollments, "ada", "js101");
    percent := ProgressFor(app.enrollments, "ada", "js101");
    assert app.enrollments["ada"] == map[];
    count := EnrollmentCount(app.enrollments, Some(ada));
  }

  /** Mark-all followed by reset leaves every lesson of the course unticked, and reset again changes nothing. */
  method MarkAllThenReset(now: int) returns (flags: seq<bool>, again: seq<bool>)
    ensures flags == [false, false, false, false, false, false] && again == flags
  {
    var app := new AppState(Some(map["ada" := User("u1", "Ada", "ada", "pw")]), Some("ada"), None);
    assert GetCourse("html101") == Some(CATALOG[0]) && |CATALOG[0].lessons| == 6 by {
      CatalogWellFormed();
    }
    app.Enroll("html101", now);
    app.MarkAll("html101", now);
    app.ResetProgress("html101", now);
    flags := app.enrollments["ada"]["html101"].completed;
    app.ResetProgress("html101", now);
    again := app.enrollments["ada"]["html101"].completed;
  }
}
