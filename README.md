# LiteLearn data layer in Dafny

LiteLearn is a single-page course catalog that runs in the browser. Its state is three
registries, each kept in `localStorage`:

- users, keyed by email;
- the session, which names the signed-in email or is null;
- enrollments: email, then course id, then a record holding the per-lesson completion flags and the enrollment time.

There is also a fixed catalog of four six-lesson courses. This project models that data
layer and proves properties of it:

- the catalog and `getCourse`;
- the utilities `setSession`, `currentUser`, `ensureEnrollment`, `enrolled`, `enrollmentOf` and `progressFor`;
- the search and level filter of the course list;
- the dashboard listing and the account page's enrollment count;
- the state changes made by the handlers for register, login, logout, enroll, unenroll,
  lesson checkbox, mark-all, reset, import and wipe.

Layout:

- `wrappers.dfy`: `Option`.
- `text.dfy`: the string operations the app uses, each as a function with its laws.
  These are `trim`, ASCII `toLowerCase`, `includes` and `join`.
- `catalog.dfy`: `Course`, `CATALOG` and `GetCourse` (first match, like `Array.prototype.find`).
- `progress.dfy`: counting flags and the exact integer form of
  `Math.round(done / len * 100)`. That form is the unique `p` with
  `2·len·p <= 200·done + len < 2·len·(p+1)`.
- `registry.dfy`: the registries as values. Each enrollment handler's effect is a pure transition
  (`WithEnrollment`, `WithoutEnrollment`, `WithFlags`), and `ProgressFor` is stated over it. It also defines
  the data-model invariant `RecordsFit`: every stored record belongs to a catalog course and has one flag per
  lesson of it. The transitions are proved to keep it.
- `queries.dfy`: the read-only views, namely the filter, the dashboard cards and the enrollment count.
- `app.dfy`:
  - module `App` holds the class `AppState`, whose three fields are the registries. Its methods are the
    handlers. The enrollment handlers (enroll, unenroll, lesson checkbox, mark-all, reset) are proved
    against the pure transitions above. Register, login, logout, import and wipe state their new
    registries directly in their contracts.
  - module `Scenarios` walks through short sessions, proved against those contracts: registering twice, logging in with
    a right and a wrong password, ticking lessons, unenrolling, and mark-all followed by reset.

## Model

| member | source | states |
|---|---|---|
| Catalog.FindSpec | app.js:160 | `find` gives none exactly when no course has the id; otherwise the first course with that id |
| Catalog.FindOwnId | app.js:160 | with distinct ids, every course is found by its own id |
| Catalog.GetCourse | app.js:160 | defined as `Find` over the catalog; what it returns is stated by `Catalog.FindSpec` and `Catalog.GetCourseInCatalog` |
| Catalog.CatalogWellFormed | app.js:18-83 | the catalog ids are distinct, each catalog course is what `getCourse` returns for its id, and each course has six lessons |
| Catalog.GetCourseInCatalog | app.js:160 | a course `getCourse` returns is a catalog course with that id and six lessons |
| Text.IsSpace | app.js:366 | defined as the ECMAScript WhiteSpace and LineTerminator code points, the set `trim` strips; `Text.TrimStartSpec`, `Text.TrimEndSpec` and `Text.TrimIsSlice` state what is cut by it |
| Text.TrimStartSpec | app.js:366 | dropping the leading whitespace keeps a suffix; only whitespace is dropped, and the kept part does not start with whitespace |
| Text.TrimEndSpec | app.js:366 | dropping the trailing whitespace keeps a prefix; only whitespace is dropped, and the kept part does not end with whitespace |
| Text.Trim | app.js:366 | defined as trimming the start, then the end; its laws are `Text.TrimIsSlice` and `Text.TrimIdempotent` |
| Text.TrimIsSlice | app.js:366 | `trim` keeps one contiguous slice of the input, cuts only whitespace, and leaves none at either end |
| Text.TrimIdempotent | app.js:375 | trimming twice is the same as trimming once |
| Text.LowerChar | app.js:366 | an upper-case ASCII letter becomes its lower-case counterpart (code point plus 32), every other character is kept, and the result is never upper case |
| Text.ToLower | app.js:366 | `toLowerCase` keeps the length and maps each position on its own |
| Text.ToLowerIdempotent | app.js:366 | the result has no upper-case letter, and lower-casing it again changes nothing |
| Text.ToLowerConcat | app.js:203 | lower-casing distributes over concatenation |
| Text.LowerCharSpace | app.js:366 | lower-casing neither creates nor removes whitespace |
| Text.TrimStartLower | app.js:366 | trimming the start commutes with lower-casing |
| Text.TrimEndLower | app.js:366 | trimming the end commutes with lower-casing |
| Text.TrimLower | app.js:366 | defined as lower-casing the trimmed string, the normalization of a typed email (app.js:366, 376) and of the search query (app.js:198); its law is `Text.TrimLowerIdempotent` |
| Text.TrimLowerIdempotent | app.js:198 | the email and query normalization `trim().toLowerCase()` is idempotent |
| Text.Contains | app.js:204 | `includes` is true exactly when the needle occurs at some position |
| Text.ContainsEmpty | app.js:204 | every haystack contains the empty string |
| Text.Join | app.js:203 | joining no tags gives "" and joining one tag gives that tag |
| Text.JoinAppend | app.js:203 | joining two non-empty lists is joining each and putting exactly one separator between them |
| Text.JoinContainsParts | app.js:203 | the joined tags contain every tag |
| Progress.CountTrue | app.js:174 | the number of completed lessons is at most the number of lessons |
| Progress.Percent | app.js:175 | `Math.round(done/len*100)` is at most 100, and it is the integer nearest to `100·done/len`, with halves rounded up |
| Progress.PercentMonotone | app.js:175 | more lessons done never gives a smaller percentage |
| Progress.PercentZeroIff | app.js:175 | with at most 200 lessons, 0% exactly when none is done |
| Progress.PercentFullIff | app.js:175 | with fewer than 200 lessons, 100% exactly when all are done |
| Progress.AllOf | app.js:166 | `Array(n).fill(v)` has length `n`, and every entry is `v` |
| Progress.Fill | app.js:436 | `completed.map(() => v)` keeps the length and sets every flag to `v` |
| Progress.FillLaws | app.js:436-443 | mark-all twice is mark-all, reset twice is reset, and the later fill wins |
| Progress.CountAll | app.js:174 | the count equals the length exactly when every flag is set |
| Progress.CountNone | app.js:174 | the count is zero exactly when no flag is set |
| Progress.CountUpdate | app.js:428 | setting one flag changes the count by that flag's change only |
| Progress.CountPointwise | app.js:174 | flags that are pointwise more have at least as high a count |
| Progress.PercentExamples | app.js:175 | two of six lessons gives 33%, three of six gives 50%, one of six gives 17% |
| Registry.CurrentUser | app.js:158 | defined as the stored user the session names, if any; who it is after each handler is stated by `App.AppState.Register`, `App.AppState.Login`, `App.AppState.Logout` and `App.AppState.Wipe` |
| Registry.Enrolled | app.js:161 | defined as the user having a map that holds the course id; `Registry.WithEnrollment` and `Registry.WithoutEnrollment` state how the handlers change it |
| Registry.NewEnrollment | app.js:166 | a fresh record has one false flag per lesson and is stamped with the given time |
| Registry.WithEnrollment | app.js:162-170 | after `enrollmentOf`, the pair is enrolled. An existing record leaves the registry unchanged; otherwise a fresh record is added. No other pair or user changes |
| Registry.WithoutEnrollment | app.js:418 | after unenroll, the pair is not enrolled. No other pair changes, the users with maps stay the same, and a pair that was not enrolled leaves everything as it was |
| Registry.WithFlags | app.js:428 | replacing one record's flags keeps its enrollment time and every other record and key |
| Registry.RecordsFitEmpty | app.js:86-88 | the empty registry, the default when storage holds none, satisfies the invariant |
| Registry.RecordsFitHasLessons | app.js:171-176 | under the invariant every record has a flag, so `progressFor` never divides by zero |
| Registry.RecordsFitWithEnrollment | app.js:162-170 | `enrollmentOf` keeps the invariant |
| Registry.RecordsFitWithoutEnrollment | app.js:418 | unenrolling keeps the invariant |
| Registry.RecordsFitWithFlags | app.js:428-443 | replacing a record's flags by as many flags keeps the invariant |
| Registry.ProgressFor | app.js:171-176 | progress is at most 100, and 0 when not enrolled |
| Registry.ProgressFullIff | app.js:171-176 | a course with fewer than 200 lessons shows 100% exactly when every lesson is complete |
| Registry.ProgressZeroIff | app.js:171-176 | a course with at most 200 lessons shows 0% exactly when no lesson is complete |
| Registry.ProgressMonotone | app.js:171-176 | completing more lessons, and un-completing none, never lowers progress |
| Registry.ProgressSetLesson | app.js:425-428 | ticking a checkbox never lowers progress, and unticking one never raises it |
| Registry.ProgressFill | app.js:433-446 | mark-all gives 100% and reset gives 0%, whatever the number of lessons |
| Registry.UnenrollAfterEnroll | app.js:410-421 | enroll then unenroll restores the registry, except for the possibly empty user map, and shows 0% |
| Registry.ProgressOthersUnchanged | app.js:162-170 | a change to one pair leaves the progress of every other pair unchanged |
| Queries.Haystack | app.js:203 | defined as the lower-cased title, description and space-joined tags; `Queries.TagMatches` states what it lets the search find |
| Queries.TagMatches | app.js:203-204 | searching for any of a course's tags, lower-cased, finds that course |
| Queries.Matches | app.js:202-205 | defined as the level test and the query test both holding; `Queries.Filter` keeps exactly the courses it accepts |
| Queries.Filter | app.js:201-206 | the filtered list keeps catalog order; it holds only matching courses, and it holds all of them |
| Queries.FilterCounts | app.js:201-206 | each matching course is kept as many times as it occurs in the input, and no other course is kept |
| Queries.FilterCourses | app.js:196-206 | the course list for a raw query and level is exactly the catalog courses matching the trimmed, lower-cased query and the level, in catalog order |
| Queries.FilterAll | app.js:202-204 | with no query and no level, every course is kept |
| Queries.FilterCoursesBlank | app.js:198-204 | a blank search box with no level shows the whole catalog |
| Queries.FilterNone | app.js:201-206 | when no course matches, the list is empty |
| Queries.FilterOnly | app.js:201-206 | when exactly one course matches, the list is that course alone |
| Queries.CssIntermediateMatches | app.js:201-206 | only Modern CSS Layouts is an Intermediate course mentioning "css" |
| Queries.FilterCssIntermediate | app.js:196-206 | searching "css" at level Intermediate lists exactly Modern CSS Layouts |
| Queries.ListedIds | app.js:250-252 | the listed ids are the enrolled ids that are catalog courses, in key order, and without repeats when the keys have none |
| Queries.Cards | app.js:250-253 | one card per id, in order, each with its catalog course and its progress |
| Queries.CardsFacts | app.js:251 | each card carries the catalog course of its own id |
| Queries.RecordsFitDashboardReady | app.js:242-253 | under the data-model invariant, the dashboard's precondition holds for any key order of the user's map |
| Queries.ListedCards | app.js:250-253 | the cards for the listed ids are enrolled catalog courses with their `progressFor` value, and every enrolled catalog course has exactly one |
| Queries.Dashboard | app.js:242-253 | no cards without a signed-in user or enrollment map. Each card is an enrolled catalog course with its `progressFor` value, and every enrolled catalog course has a card. No two cards show the same course |
| Queries.EnrollmentCount | app.js:284 | defined as the size of the user's map; it is proved against `Queries.CountZeroIff`, `Queries.CountAfterEnroll`, `Queries.CountAfterUnenroll` and `Queries.DashboardBound` |
| Queries.CountZeroIff | app.js:284 | the count is 0 exactly when there is no user or the user is enrolled in no course |
| Queries.CountAfterEnroll | app.js:284 | enrolling in a new course adds one to the count, and re-enrolling adds nothing |
| Queries.CountAfterUnenroll | app.js:284 | unenrolling removes one from the count when the user was enrolled, and nothing otherwise |
| Queries.DashboardBound | app.js:245-252 | the dashboard never has more cards than the count. The two are equal when every enrolled id is a catalog course |
| App.AppState.constructor | app.js:10-13 | each registry is what storage held, or its default when that was missing; the default enrollments satisfy `RecordsFit` |
| App.AppState.ActiveEmail | app.js:411 | defined as `currentUser().email`, the key every course handler works under; it requires someone to be signed in |
| App.CheckboxIndexOk | app.js:311-316 | under the invariant, every index a rendered lesson checkbox carries is one `ChangeLesson` accepts |
| App.AppState.SetSession | app.js:157 | a missing or empty email clears the session, and any other email becomes it |
| App.AppState.Register | app.js:373-383 | refused, with nothing changed, exactly when the normalized email is taken. Otherwise the user is added under it with the trimmed name and the account count grows by one. The session becomes that email, so that user is the current user, unless the normalized email is empty, which clears the session |
| App.AppState.Login | app.js:364-372 | succeeds exactly when the normalized email is stored with that exact password. On success the session becomes that email and the stored user is the current user, unless the email is empty, which clears the session. On failure the session is unchanged |
| App.AppState.Logout | app.js:384 | nobody is signed in afterwards |
| App.AppState.EnsureEnrollment | app.js:159 | the user has an enrollment map afterwards; an existing one is untouched. It keeps the invariant `RecordsFit` |
| App.AppState.EnrollmentOf | app.js:162-170 | the registry becomes `WithEnrollment`. Returns the existing record unchanged, or a fresh one with all flags false, stamped `now`. It keeps the invariant `RecordsFit` |
| App.AppState.Enroll | app.js:410-415 | the signed-in user is enrolled, through `WithEnrollment`. It keeps the invariant `RecordsFit` |
| App.AppState.Unenroll | app.js:416-421 | the registry becomes `WithoutEnrollment`, the course is no longer enrolled, and it shows 0%. It keeps the invariant `RecordsFit` |
| App.AppState.ChangeLesson | app.js:422-432 | after the implicit enroll, exactly flag `idx` becomes the checkbox value. It keeps the invariant `RecordsFit` |
| App.AppState.MarkAll | app.js:433-439 | after the implicit enroll, every flag of the record is true. It keeps the invariant `RecordsFit` |
| App.AppState.ResetProgress | app.js:440-446 | after the implicit enroll, every flag of the record is false. It keeps the invariant `RecordsFit` |
| App.AppState.Import | app.js:458-470 | accepted exactly when both registries are present; then all three are replaced, and otherwise nothing changes |
| App.AppState.Wipe | app.js:471-477 | all three registries are emptied, nobody is signed in, and the invariant `RecordsFit` holds |
| Scenarios.RegisterTwice | app.js:373-383 | a second registration under the same normalized email is refused, and one account remains |
| Scenarios.LoginChecksPassword | app.js:364-372 | login fails with a wrong password and succeeds with the registered one |
| Scenarios.TickFirstTwo | app.js:422-432 | in a freshly enrolled six-lesson course, ticking lessons 0 and 1 sets exactly those flags and shows 33% |
| Scenarios.LessonWalkthrough | app.js:422-432 | in a six-lesson course, ticking two lessons shows 33% and ticking a third shows 50% |
| Scenarios.EnrollThenUnenroll | app.js:410-421 | enroll then unenroll leaves the course not enrolled, at 0%, with an account count of 0 |
| Scenarios.MarkAllThenReset | app.js:433-446 | mark-all then reset leaves six unticked lessons, and a second reset changes nothing |

## Left out

- I/O and rendering are not modelled:
  - The DOM rendering, the course modal, the tabs, the Ctrl/Cmd+K shortcut and the theme toggle are presentation, with no effect on the data.
  - Wipe leaves the theme key alone, as the app does.
  - `localStorage`, `JSON.parse` and `JSON.stringify` (`read`, `write`) are not modelled.
  - Every `write` is read as a write-through of the in-memory registry.
  - Start-up takes the already-read registries as constructor arguments.
- Randomness, the clock and import parsing are parameters or left out:
  - `uid()` (randomness) and `Date.now()` (the clock) are parameters (`freshId`, `now`).
- File import plumbing is left out:
  - `Blob`, file reading, `alert`, `confirm` and the export download are browser I/O.
  - `Import` takes the already parsed file: a member that is missing or falsy is `None`.
- Session shape and user lookup are simplified:
  - The session is the email or nothing, not an object `{ email }`. An imported `session` of another shape is not modelled.
  - Users and enrollments are maps from strings. Property names that JavaScript objects inherit (`constructor`, `__proto__`) are not modelled.
- Text: `toLowerCase` is modelled for the ASCII letters only.
- Progress:
  - `Math.round` over floating-point division is modelled by its exact rational value. The two agree for the catalog's lesson counts; floating-point rounding errors are not modelled.
  - `Progress.PercentFullIff` and `Registry.ProgressFullIff` are stated for fewer than 200 lessons. `Progress.PercentZeroIff` and `Registry.ProgressZeroIff` are stated for at most 200. Beyond these, rounding can reach 100% before every lesson is done, or stay at 0% with one done.
  - `Registry.ProgressFor` requires a stored record to have at least one flag. With none, the app divides by zero and shows `NaN%`. `Registry.RecordsFitHasLessons` shows the requirement holds under the invariant `RecordsFit`, which the enrollment handlers keep.
- Handler preconditions:
  - `App.AppState.ChangeLesson` requires the checkbox index to lie inside the record. `App.CheckboxIndexOk` proves that every rendered checkbox index (app.js:311-316) meets this under `RecordsFit`. The index a sparse array write would extend the array to is not modelled.
  - `App.AppState.Import` does not establish `RecordsFit`: the imported file is not checked, so after an import the records may not fit their courses. Neither may enrollments read from storage at start-up. In those states the progress, dashboard and checkbox preconditions are not shown to hold; the app would show `NaN%` or extend the array.
  - The course handlers require a signed-in user (`currentUser().email` throws otherwise). Enrolling in a course id that is not in the catalog is also excluded, because `enrollmentOf` dereferences the missing course.
- `Queries.Dashboard` takes the key order `Object.keys` returns as a parameter. Any order listing each key exactly once is allowed.
- `Catalog.Course` leaves out the cover gradient, which is presentation only.
- `Queries.FilterCssIntermediate`: that "css" at level Advanced finds nothing is not proved. Only Web Accessibility Essentials passes the Advanced filter. Showing that its lower-cased text of 128 characters has no occurrence of "css" needs the search evaluated at every position, which is beyond the verifier's resource limit.
