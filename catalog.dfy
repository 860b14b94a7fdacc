/** The fixed demo catalog and the first-match lookup `getCourse`. */
module Catalog {
  import opened Wrappers

  /** A course definition; the cover gradient is presentation and is not modelled. */
  datatype Course = Course(
    id: string,
    title: string,
    level: string,
    tags: seq<string>,
    description: string,
    lessons: seq<string>)

  const CATALOG: seq<Course> := [
    Course("html101", "HTML for Beginners", "Beginner", ["web", "frontend", "markup"],
      "Learn the building blocks of the web: tags, structure, and semantic HTML. No prior experience required.",
      ["What is HTML?", "Your first page", "Headings & paragraphs", "Links & images", "Semantic layout", "Forms 101"]),
    Course("css101", "Modern CSS Layouts", "Intermediate", ["css", "flexbox", "grid"],
      "Master Flexbox and Grid to craft responsive, accessible layouts.",
      ["Cascade & selectors refresher", "Flexbox fundamentals", "Grid basics", "Responsive techniques",
       "Fluid type & spacing", "Polish & accessibility"]),
    Course("js101", "Practical JavaScript", "Beginner", ["javascript", "dom", "programming"],
      "From variables to DOM manipulation \U{2014} build interactive pages with vanilla JS.",
      ["Syntax & variables", "Control flow", "Functions & scope", "Arrays & objects", "DOM & events",
       "LocalStorage mini-project"]),
    Course("a11y201", "Web Accessibility Essentials", "Advanced", ["a11y", "wcag", "inclusive"],
      "Design and code for everyone. Learn WCAG, ARIA, keyboard nav, and testing tips.",
      ["Why accessibility matters", "Perceivable: text alternatives", "Operable: keyboard & focus",
       "Understandable: forms & content", "Robust: ARIA & semantics", "Auditing & tooling"])
  ]

  /** `courses.find(c => c.id === id)`: the first course with that id, if any. */
  function Find(courses: seq<Course>, id: string): Option<Course> {
    if courses == [] then None
    else if courses[0].id == id then Some(courses[0])
    else Find(courses[1..], id)
  }

  /** `find` gives none exactly when no course has the id, and otherwise the first course that has it. */
  lemma {:induction false} FindSpec(courses: seq<Course>, id: string)
    ensures Find(courses, id).None? <==> forall i :: 0 <= i < |courses| ==> courses[i].id != id
    ensures Find(courses, id).Some? ==>
              exists i :: 0 <= i < |courses| && courses[i] == Find(courses, id).value && courses[i].id == id
                          && forall j :: 0 <= j < i ==> courses[j].id != id
  {
    if courses != [] && courses[0].id != id {
      var r := Find(courses[1..], id);
      FindSpec(courses[1..], id);
      if r.Some? {
        var i :| 0 <= i < |courses[1..]| && courses[1..][i] == r.value && courses[1..][i].id == id
                 && forall j :: 0 <= j < i ==> courses[1..][j].id != id;
        forall j | 0 <= j < i + 1 ensures courses[j].id != id {
          if j > 0 { assert courses[j] == courses[1..][j - 1]; }
        }
        assert courses[i + 1] == r.value;
      } else {
        forall j | 0 <= j < |courses| ensures courses[j].id != id {
          if j > 0 { assert courses[j] == courses[1..][j - 1]; }
        }
      }
    } else if courses != [] {
      assert courses[0] == Find(courses, id).value;
    }
  }

  /** `getCourse(id)`. */
  function GetCourse(id: string): Option<Course> {
    Find(CATALOG, id)
  }

  /** No two catalog courses share an id. */
  predicate DistinctIds(courses: seq<Course>) {
    forall i, j :: 0 <= i < j < |courses| ==> courses[i].id != courses[j].id
  }

  /** With distinct ids the first match is the only match, so every course is found by its id. */
  lemma FindOwnId(courses: seq<Course>, k: nat)
    requires DistinctIds(courses) && k < |courses|
    ensures Find(courses, courses[k].id) == Some(courses[k])
  {
    var r := Find(courses, courses[k].id);
    FindSpec(courses, courses[k].id);
    var i :| 0 <= i < |courses| && courses[i] == r.value && r.value.id == courses[k].id
             && forall j :: 0 <= j < i ==> courses[j].id != courses[k].id;
    assert i == k;
  }

  /** Every catalog course is found by its own id and has six lessons. */
  lemma CatalogWellFormed()
    ensures DistinctIds(CATALOG)
    ensures forall k :: 0 <= k < |CATALOG| ==> GetCourse(CATALOG[k].id) == Some(CATALOG[k])
    ensures forall k :: 0 <= k < |CATALOG| ==> |CATALOG[k].lessons| == 6
  {
    assert DistinctIds(CATALOG);
    forall k | 0 <= k < |CATALOG| ensures GetCourse(CATALOG[k].id) == Some(CATALOG[k]) {
      FindOwnId(CATALOG, k);
    }
  }

  /** A course that `getCourse` returns is a catalog course with six lessons. */
  lemma GetCourseInCatalog(id: string)
    requires GetCourse(id).Some?
    ensures GetCourse(id).value in CATALOG
    ensures GetCourse(id).value.id == id
    ensures |GetCourse(id).value.lessons| == 6
  {
    FindSpec(CATALOG, id);
    CatalogWellFormed();
  }
}
