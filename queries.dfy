/**
 * The read-only views the rendering code derives from the registries: the catalog
 * search and level filter, the dashboard's list of enrolled courses and the
 * account summary's enrollment count.
 */
module Queries {
  import opened Wrappers
  import opened Text
  import opened Catalog
  import opened Registry

  /** `a` is `b` with some elements left out, the rest in their original order. */
  predicate IsSubsequence<T(==)>(a: seq<T>, b: seq<T>) {
    if a == [] then true
    else if b == [] then false
    else if a[0] == b[0] then IsSubsequence(a[1..], b[1..])
    else IsSubsequence(a, b[1..])
  }

  /** The lower-cased text a query is searched in: title, description and the space-joined tags. */
  function Haystack(c: Course): string {
    ToLower(c.title + " " + c.description + " " + Join(c.tags, " "))
  }

  /** The filter callback: the level matches (or none is chosen) and the normalized query occurs (or is empty). */
  predicate Matches(c: Course, q: string, lvl: string) {
    (lvl == "" || c.level == lvl) && (q == "" || Contains(Haystack(c), q))
  }

  /** `courses.filter(c => Matches(c, q, lvl))` for an already normalized query `q`. */
  function Filter(courses: seq<Course>, q: string, lvl: string): (r: seq<Course>)
    ensures IsSubsequence(r, courses)
    ensures forall c :: c in r ==> c in courses && Matches(c, q, lvl)
    ensures forall c :: c in courses && Matches(c, q, lvl) ==> c in r
  {
    if courses == [] then []
    else if Matches(courses[0], q, lvl) then [courses[0]] + Filter(courses[1..], q, lvl)
    else Filter(courses[1..], q, lvl)
  }

  /** Like `.filter`, each matching course is kept as many times as it occurs, and no other is kept. */
  lemma {:induction false} FilterCounts(courses: seq<Course>, q: string, lvl: string)
    ensures forall c :: multiset(Filter(courses, q, lvl))[c] == if Matches(c, q, lvl) then multiset(courses)[c] else 0
  {
    if courses != [] {
      FilterCounts(courses[1..], q, lvl);
      assert courses == [courses[0]] + courses[1..];
    }
  }

  /** The courses `renderCourses` shows for the raw search box text and the selected level. */
  function FilterCourses(query: string, lvl: string): (r: seq<Course>)
    ensures IsSubsequence(r, CATALOG)
    ensures forall c :: c in r ==> c in CATALOG && Matches(c, TrimLower(query), lvl)
    ensures forall c :: c in CATALOG && Matches(c, TrimLower(query), lvl) ==> c in r
  {
    Filter(CATALOG, TrimLower(query), lvl)
  }

  /** Searching for any of a course's tags, lower-cased, finds that course. */
  lemma TagMatches(c: Course, k: nat)
    requires k < |c.tags|
    ensures Matches(c, ToLower(c.tags[k]), "")
  {
    var tag := c.tags[k];
    var joined := Join(c.tags, " ");
    var front := c.title + " " + c.description + " ";
    JoinContainsParts(c.tags, " ", k);
    var i :| OccursAt(joined, tag, i);
    OccursLower(joined, tag, i);
    OccursShift(ToLower(front), ToLower(joined), ToLower(tag), i);
    ToLowerConcat(front, joined);
    assert Haystack(c) == ToLower(front) + ToLower(joined);
  }

  /** With neither a query nor a level every course is kept. */
  lemma {:induction false} FilterAll(courses: seq<Course>)
    ensures Filter(courses, "", "") == courses
  {
    if courses != [] {
      FilterAll(courses[1..]);
    }
  }

  /** An empty (or all-blank) search box and no level show the whole catalog in catalog order. */
  lemma FilterCoursesBlank(query: string)
    requires forall k :: 0 <= k < |query| ==> IsSpace(query[k])
    ensures FilterCourses(query, "") == CATALOG
  {
    assert Trim(query) == [] by {
      if Trim(query) != [] {
        TrimIsSlice(query);
      }
    }
    FilterAll(CATALOG);
  }

  /** When no course matches, nothing is kept. */
  lemma {:induction false} FilterNone(courses: seq<Course>, q: string, lvl: string)
    requires forall j :: 0 <= j < |courses| ==> !Matches(courses[j], q, lvl)
    ensures Filter(courses, q, lvl) == []
  {
    if courses != [] {
      FilterNone(courses[1..], q, lvl);
    }
  }

  /** When exactly the course at index `k` matches, the result is that course alone. */
  lemma {:induction false} FilterOnly(courses: seq<Course>, q: string, lvl: string, k: nat)
    requires k < |courses| && Matches(courses[k], q, lvl)
    requires forall j :: 0 <= j < |courses| && j != k ==> !Matches(courses[j], q, lvl)
    ensures Filter(courses, q, lvl) == [courses[k]]
  {
    if k == 0 {
      FilterNone(courses[1..], q, lvl);
    } else {
      FilterOnly(courses[1..], q, lvl, k - 1);
    }
  }

  /** Of the catalog, only Modern CSS Layouts is an Intermediate course mentioning "css". */
  lemma CssIntermediateMatches(k: nat)
    requires k < |CATALOG|
    ensures Matches(CATALOG[k], "css", "Intermediate") <==> k == 1
  {
    if k == 1 {
      var c := CATALOG[1];
      var hay := c.title + " " + c.description + " " + Join(c.tags, " ");
      assert hay[7..10] == "CSS";
      assert Haystack(c)[7..10] == "css";
      assert OccursAt(Haystack(c), "css", 7);
    }
  }

  /** Searching "css" at level Intermediate finds exactly Modern CSS Layouts. */
  lemma FilterCssIntermediate()
    ensures FilterCourses("css", "Intermediate") == [CATALOG[1]]
    ensures CATALOG[1].title == "Modern CSS Layouts"
  {
    assert TrimLower("css") == "css";
    forall k | 0 <= k < |CATALOG| ensures Matches(CATALOG[k], "css", "Intermediate") <==> k == 1 {
      CssIntermediateMatches(k);
    }
    FilterOnly(CATALOG, "css", "Intermediate", 1);
  }

  /** One card on the dashboard: an enrolled catalog course and its progress. */
  datatype Card = Card(course: Course, percent: nat)

  /** `order` lists the keys of `m` exactly once each: the order `Object.keys` returns them in. */
  ghost predicate KeyOrder<V>(order: seq<string>, m: map<string, V>) {
    && (forall i, j :: 0 <= i < j < |order| ==> order[i] != order[j])
    && (forall k :: k in order ==> k in m)
    && (forall k :: k in m ==> k in order)
  }

  /** The dashboard's course ids in listing order: those of `order` that are catalog courses. */
  function ListedIds(order: seq<string>): (ids: seq<string>)
    ensures IsSubsequence(ids, order)
    ensures forall k :: k in ids <==> k in order && GetCourse(k).Some?
    ensures |ids| <= |order|
    ensures (forall k :: k in order ==> GetCourse(k).Some?) ==> ids == order
    ensures (forall i, j :: 0 <= i < j < |order| ==> order[i] != order[j]) ==>
              forall i, j :: 0 <= i < j < |ids| ==> ids[i] != ids[j]
  {
    if order == [] then []
    else if GetCourse(order[0]).Some? then [order[0]] + ListedIds(order[1..])
    else ListedIds(order[1..])
  }

  /** One card per id, in order, each with its catalog course and its progress. */
  function Cards(enr: Enrollments, email: string, ids: seq<string>): (r: seq<Card>)
    requires forall k :: k in ids ==> GetCourse(k).Some? && HasLessons(enr, email, k)
    ensures |r| == |ids|
    ensures forall i :: 0 <= i < |r| ==> r[i] == Card(GetCourse(ids[i]).value, ProgressFor(enr, email, ids[i]))
  {
    if ids == [] then []
    else [Card(GetCourse(ids[0]).value, ProgressFor(enr, email, ids[0]))] + Cards(enr, email, ids[1..])
  }

  /** Each card carries the catalog course of its own id. */
  lemma CardsFacts(enr: Enrollments, email: string, ids: seq<string>)
    requires forall k :: k in ids ==> GetCourse(k).Some? && HasLessons(enr, email, k)
    ensures forall i :: 0 <= i < |ids| ==> Cards(enr, email, ids)[i].course.id == ids[i]
    ensures forall i :: 0 <= i < |ids| ==> GetCourse(ids[i]) == Some(Cards(enr, email, ids)[i].course)
  {
    forall i | 0 <= i < |ids| ensures Cards(enr, email, ids)[i].course.id == ids[i] {
      GetCourseInCatalog(ids[i]);
    }
  }

  /** What the dashboard may assume of the key order and the stored records. */
  ghost predicate DashboardReady(enr: Enrollments, user: Option<User>, order: seq<string>) {
    user.Some? ==>
      && (user.value.email in enr ==> KeyOrder(order, enr[user.value.email]))
      && forall k :: GetCourse(k).Some? ==> HasLessons(enr, user.value.email, k)
  }

  /** Under the data-model invariant the dashboard may be drawn for any key order of the user's map. */
  lemma RecordsFitDashboardReady(enr: Enrollments, user: Option<User>, order: seq<string>)
    requires RecordsFit(enr)
    requires user.Some? && user.value.email in enr ==> KeyOrder(order, enr[user.value.email])
    ensures DashboardReady(enr, user, order)
  {
    RecordsFitHasLessons(enr);
  }

  /** The cards for a user's listed ids: enrolled catalog courses with their progress, one for each enrolled catalog course. */
  lemma ListedCards(enr: Enrollments, email: string, order: seq<string>)
    requires email in enr && KeyOrder(order, enr[email])
    requires forall k :: GetCourse(k).Some? ==> HasLessons(enr, email, k)
    ensures forall k :: k in ListedIds(order) ==> GetCourse(k).Some? && HasLessons(enr, email, k)
    ensures var r := Cards(enr, email, ListedIds(order));
            forall i :: 0 <= i < |r| ==>
              && GetCourse(r[i].course.id) == Some(r[i].course)
              && Enrolled(enr, email, r[i].course.id)
              && r[i].percent == ProgressFor(enr, email, r[i].course.id)
    ensures var r := Cards(enr, email, ListedIds(order));
            forall cid :: Enrolled(enr, email, cid) && GetCourse(cid).Some? ==>
              exists i :: 0 <= i < |r| && r[i].course.id == cid
    ensures var r := Cards(enr, email, ListedIds(order));
            forall i, j :: 0 <= i < j < |r| ==> r[i].course.id != r[j].course.id
  {
    var ids := ListedIds(order);
    var r := Cards(enr, email, ids);
    CardsFacts(enr, email, ids);
    forall cid | Enrolled(enr, email, cid) && GetCourse(cid).Some?
      ensures exists i :: 0 <= i < |r| && r[i].course.id == cid
    {
      var i :| 0 <= i < |ids| && ids[i] == cid;
      assert r[i].course.id == cid;
    }
  }

  /**
   * `renderDashboard`: nothing without a signed-in user or enrollments; otherwise one card per
   * enrolled course id, in key order, skipping ids that are not in the catalog.
   */
  function Dashboard(enr: Enrollments, user: Option<User>, order: seq<string>): (r: seq<Card>)
    requires DashboardReady(enr, user, order)
    ensures user.None? || user.value.email == "" || user.value.email !in enr ==> r == []
    ensures forall i :: 0 <= i < |r| ==>
              && GetCourse(r[i].course.id) == Some(r[i].course)
              && Enrolled(enr, user.value.email, r[i].course.id)
              && r[i].percent == ProgressFor(enr, user.value.email, r[i].course.id)
    ensures user.Some? && user.value.email != "" ==>
              forall cid :: Enrolled(enr, user.value.email, cid) && GetCourse(cid).Some? ==>
                exists i :: 0 <= i < |r| && r[i].course.id == cid
    ensures forall i, j :: 0 <= i < j < |r| ==> r[i].course.id != r[j].course.id
  {
    if user.None? || user.value.email == "" || user.value.email !in enr || |enr[user.value.email]| == 0 then []
    else
      ListedCards(enr, user.value.email, order);
      Cards(enr, user.value.email, ListedIds(order))
  }

  /** The account summary's count: the number of course ids in the signed-in user's map. */
  function EnrollmentCount(enr: Enrollments, user: Option<User>): nat {
    if user.Some? && user.value.email in enr then |enr[user.value.email]| else 0
  }

  /** The count is zero exactly when the user is enrolled in no course, which is when the dashboard shows nothing. */
  lemma CountZeroIff(enr: Enrollments, user: Option<User>)
    ensures EnrollmentCount(enr, user) == 0 <==> user.None? || forall cid :: !Enrolled(enr, user.value.email, cid)
  {
    if user.Some? && user.value.email in enr && |enr[user.value.email]| != 0 {
      var m := enr[user.value.email];
      var cid :| cid in m.Keys;
      assert Enrolled(enr, user.value.email, cid);
    }
  }

  /** Enrolling in a new course adds one to the count; re-enrolling changes nothing. */
  lemma CountAfterEnroll(enr: Enrollments, user: User, cid: string, now: int)
    requires CanEnroll(enr, user.email, cid)
    ensures var n := EnrollmentCount(WithEnrollment(enr, user.email, cid, now), Some(user));
            n == EnrollmentCount(enr, Some(user)) + (if Enrolled(enr, user.email, cid) then 0 else 1)
  {
    var m := Inner(enr, user.email);
    if !Enrolled(enr, user.email, cid) {
      var x := NewEnrollment(GetCourse(cid).value, now);
      assert m[cid := x].Keys == m.Keys + {cid};
    }
  }

  /** Unenrolling removes one from the count if the course was enrolled, and nothing otherwise. */
  lemma CountAfterUnenroll(enr: Enrollments, user: User, cid: string)
    ensures var n := EnrollmentCount(WithoutEnrollment(enr, user.email, cid), Some(user));
            n == EnrollmentCount(enr, Some(user)) - (if Enrolled(enr, user.email, cid) then 1 else 0)
  {
    if Enrolled(enr, user.email, cid) {
      var m := enr[user.email];
      assert (m - {cid}).Keys == m.Keys - {cid};
    }
  }

  /** A sequence without repeats has as many distinct elements as positions. */
  lemma {:induction false} DistinctCard(s: seq<string>)
    requires forall i, j :: 0 <= i < j < |s| ==> s[i] != s[j]
    ensures |set k | k in s| == |s|
  {
    if s != [] {
      DistinctCard(s[1..]);
      assert (set k | k in s) == {s[0]} + (set k | k in s[1..]);
      assert s[0] !in (set k | k in s[1..]);
    }
  }

  /** The dashboard never shows more cards than the account counts, and as many when every id is a catalog course. */
  lemma DashboardBound(enr: Enrollments, user: User, order: seq<string>)
    requires user.email != "" && user.email in enr
    requires DashboardReady(enr, Some(user), order)
    ensures |Dashboard(enr, Some(user), order)| <= EnrollmentCount(enr, Some(user))
    ensures (forall cid :: cid in enr[user.email] ==> GetCourse(cid).Some?) ==>
              |Dashboard(enr, Some(user), order)| == EnrollmentCount(enr, Some(user))
  {
    var m := enr[user.email];
    var ids := ListedIds(order);
    assert |Dashboard(enr, Some(user), order)| <= |ids| <= |order|;
    DistinctCard(order);
    assert (set k | k in order) == m.Keys;
    if forall cid :: cid in m ==> GetCourse(cid).Some? {
      assert ids == order;
      assert |Dashboard(enr, Some(user), order)| == |ids|;
    }
  }
}
