# AutoTendance view logic in Dafny

AutoTendance is a student attendance tracker. Administrators register students and record attendance per lecture. Both administrators and students see aggregate attendance statistics. The web client holds a small layer of view logic, and this project models that layer and proves its properties. The attendance service behind the client is not part of the model.

- **Admin page, filters and option lists** (`AdminView`): filter records, the filtered student roster, the filtered attendance overview, and the year and branch option lists.
- **Admin page, state** (`AdminState`): the page state that the handlers change one key at a time. This is a class holding the roster, the overview, the filter record and the two forms. Its methods are the change handlers, the reset, and the two multipart payload builders with their post-submit resets.
- **Attendance chart** (`Statistics`): an aggregate becomes an "Attended" / "Not Attended" pair of slices. Each slice is coloured by its index in a two-colour palette.
- **Timetable** (`TimeTable`): a subject's colour class comes from the sum of its UTF-16 code units, modulo 7. The grid is fixed at 5 days × 5 slots.
- **JavaScript built-ins** (`JsText`, `Lists`): `toLowerCase`, `includes`, integer `toString`, the default `sort` comparator (UTF-16 code-unit order), `filter`, `[...new Set(xs)]` and `sort()`. These are written out because the properties depend on what they do.

The network requests are outside the model. Where a handler uses a response, the response is a parameter: `accepted` for "the service took it", and the roster and overview for "the page load succeeded". The clock is also a parameter (`now`).

Some details of the source that the model follows as written:

- A file input whose selection is emptied stores `files[0]`, that is `undefined`, in `newStudent.picture`. That value passes the `!== null` test, so it goes into the payload as the text `"undefined"` (`PictureSlot.Undefined`).
- The date picker can be cleared. `toISOString()` then throws before anything is sent, so the builder returns `None`.
- The timetable can lack a week day. The grid's lookup then throws (`TimetableView.Failed`).
- Timetable hours are JSON object keys, so a slot is looked up by its decimal string.

The attendance service keeps the records, computes the percentages and handles automatic intake. That bookkeeping is not modelled, and no property of it is claimed here. The client only passes on or displays what the service returns. The source keeps the filters and forms as component state updated by handlers, and the model follows the source: a class whose methods replace one key.

## Model

| member | source | states |
|---|---|---|
| `JsText.LowerChar` | AutoTendance/src/LoggedIn/AdminPage.jsx:267-269 | one character lower-cased: the result is never an upper-case letter, A-Z move down by 32, and every other character is kept |
| `JsText.Lower` | AutoTendance/src/LoggedIn/AdminPage.jsx:267-269 | `toLowerCase` keeps the length and lower-cases each character |
| `JsText.LowerIgnoresCase` | AutoTendance/src/LoggedIn/AdminPage.jsx:267-269 | two strings that differ only in letter case lower-case to the same string |
| `JsText.LowerIdempotent` | AutoTendance/src/LoggedIn/AdminPage.jsx:267-269 | lower-casing twice is lower-casing once |
| `JsText.Contains` | AutoTendance/src/LoggedIn/AdminPage.jsx:269 | `includes` (also at line 282) never finds a query longer than the string, and between strings of equal length it holds exactly when they are equal |
| `JsText.ContainsIff` | AutoTendance/src/LoggedIn/AdminPage.jsx:267-269 | `includes` holds exactly when the query occurs at some position of the string (sound and complete) |
| `JsText.ContainsEmpty` | AutoTendance/src/LoggedIn/AdminPage.jsx:269 | the empty query occurs in every string |
| `JsText.ContainsSelf` | AutoTendance/src/LoggedIn/AdminPage.jsx:282 | every string contains itself |
| `JsText.NatToString` | AutoTendance/src/LoggedIn/AdminPage.jsx:282 | decimal rendering: non-empty, digits only, no leading zero |
| `JsText.IntToString` | AutoTendance/src/LoggedIn/AdminPage.jsx:282 | `rollNo.toString()`: non-empty, starts with '-' exactly for negative numbers |
| `JsText.IntToStringRoundTrip` | AutoTendance/src/LoggedIn/AdminPage.jsx:282 | the printed roll number parses back to the roll number |
| `JsText.IntToStringInjective` | AutoTendance/src/LoggedIn/AdminPage.jsx:282 | different roll numbers never print the same |
| `JsText.Before` | AutoTendance/src/LoggedIn/AdminPage.jsx:80 | the default `sort` comparator (also at line 84): a string never sorts before itself, and a proper prefix sorts before the longer string |
| `JsText.BeforeTransitive` | AutoTendance/src/LoggedIn/AdminPage.jsx:80 | the default comparator is transitive |
| `JsText.BeforeTotal` | AutoTendance/src/LoggedIn/AdminPage.jsx:80 | of two different strings one sorts before the other |
| `JsText.BeforeAsymmetric` | AutoTendance/src/LoggedIn/AdminPage.jsx:80 | two strings never sort before each other |
| `JsText.Surrogates` | AutoTendance/src/LoggedIn/TimeTable.jsx:48 | a supplementary character splits into a high surrogate (U+D800..U+DBFF) and a low surrogate (U+DC00..U+DFFF) that decode back to its code point |
| `JsText.SurrogatesUnique` | AutoTendance/src/LoggedIn/TimeTable.jsx:48 | any in-range pair that decodes to the code point is `Surrogates`, so the split is determined |
| `JsText.CodeUnitSum` | AutoTendance/src/LoggedIn/TimeTable.jsx:47-49 | a character's contribution to the hash is its code point below U+10000, and the sum of its two surrogates above that |
| `Lists.Filter` | AutoTendance/src/LoggedIn/AdminPage.jsx:266 | `filter` is no longer than its input. An element that satisfies the predicate is kept as many times as it occurs, and no other element is kept |
| `Lists.FilterIsSubsequence` | AutoTendance/src/LoggedIn/AdminPage.jsx:265-276 | the kept elements are placed at strictly increasing positions of the input, so relative order is preserved |
| `Lists.FilterKeepsAll` | AutoTendance/src/LoggedIn/AdminPage.jsx:265-276 | a filter that accepts every element returns its input unchanged |
| `Lists.FilterCongruent` | AutoTendance/src/LoggedIn/AdminPage.jsx:265-276 | predicates that agree on the input give the same filtered list |
| `Lists.FilterFuse` | AutoTendance/src/LoggedIn/AdminPage.jsx:265-276 | filtering by one predicate and then another equals filtering once by their conjunction |
| `Lists.Dedup` | AutoTendance/src/LoggedIn/AdminPage.jsx:80 | `[...new Set(xs)]` has no duplicates and holds exactly the values of `xs` |
| `Lists.Insert` | AutoTendance/src/LoggedIn/AdminPage.jsx:80 | inserting adds exactly one occurrence of the value |
| `Lists.InsertSorted` | AutoTendance/src/LoggedIn/AdminPage.jsx:80 | inserting into a sorted list keeps it sorted |
| `Lists.Sort` | AutoTendance/src/LoggedIn/AdminPage.jsx:80 | `sort()` returns a sorted permutation of its input, with no duplicates if the input has none |
| `Lists.SortedDistinctIsStrict` | AutoTendance/src/LoggedIn/AdminPage.jsx:80 | a sorted list without duplicates is strictly ascending |
| `Lists.StrictlySortedUnique` | AutoTendance/src/LoggedIn/AdminPage.jsx:80 | two strictly ascending lists with the same elements are equal, so the option list does not depend on the sorting algorithm |
| `Lists.SortedDistinct` | AutoTendance/src/LoggedIn/AdminPage.jsx:80 | `[...new Set(xs)].sort()` is duplicate-free, strictly ascending, and holds exactly the values of `xs` |
| `AdminView.FilteredStudents` | AutoTendance/src/LoggedIn/AdminPage.jsx:265-276 | the shown students are an order-preserving subsequence of the roster, no longer than it. A student is shown exactly when the lower-cased name contains the lower-cased query, the year filter is "all" or equal, and the branch filter is "all" or equal. A shown student is kept as many times as the roster lists it |
| `AdminView.UnfilteredRoster` | AutoTendance/src/LoggedIn/AdminPage.jsx:50-56 | with name "", year "all" and branch "all" (the initial and reset filters), the whole roster is shown in order |
| `AdminView.NameQueryIgnoresCase` | AutoTendance/src/LoggedIn/AdminPage.jsx:267-269 | changing the letter case of the name query does not change the shown students |
| `AdminView.StudentCriteriaCompose` | AutoTendance/src/LoggedIn/AdminPage.jsx:270-274 | narrowing by name, then year, then branch gives the same list as the combined filter |
| `AdminView.FilteredAttendance` | AutoTendance/src/LoggedIn/AdminPage.jsx:278-287 | the shown records are an order-preserving subsequence of the overview. A record is shown exactly when the roll-number query is "" or occurs in the printed roll number, and "below 75" is off or the percentage is below 75. A shown record is kept as many times as the overview lists it |
| `AdminView.Below75Exact` | AutoTendance/src/LoggedIn/AdminPage.jsx:283-284 | with "below 75" on, every shown record is below 75, and every matching record below 75 is shown |
| `AdminView.RollNoShortcutRedundant` | AutoTendance/src/LoggedIn/AdminPage.jsx:280-282 | the `=== ""` test never changes the outcome: the roll-number match is exactly substring containment |
| `AdminView.FullRollNoQueryKeepsRecord` | AutoTendance/src/LoggedIn/AdminPage.jsx:280-282 | typing a record's full roll number keeps that record when "below 75" is off |
| `AdminView.DefaultFiltersShowEverything` | AutoTendance/src/LoggedIn/AdminPage.jsx:50-56 | the filter record the page starts with (and restores at lines 138-144) shows the whole roster and the whole overview, in order |
| `AdminView.UnfilteredOverview` | AutoTendance/src/LoggedIn/AdminPage.jsx:278-287 | with an empty roll-number query and "below 75" off, the whole overview is shown in order |
| `AdminView.Years` | AutoTendance/src/LoggedIn/AdminPage.jsx:80 | `students.map(s => s.year)` has one value per roster row, and holds exactly the years of the roster |
| `AdminView.Branches` | AutoTendance/src/LoggedIn/AdminPage.jsx:84 | `students.map(s => s.branch)` has one value per roster row, and holds exactly the branches of the roster |
| `AdminView.UniqueYears` | AutoTendance/src/LoggedIn/AdminPage.jsx:79-82 | the year options are duplicate-free and strictly ascending, and hold exactly the years that occur in the roster |
| `AdminView.UniqueBranches` | AutoTendance/src/LoggedIn/AdminPage.jsx:83-86 | the branch options are duplicate-free and strictly ascending, and hold exactly the branches that occur in the roster |
| `AdminView.UniqueYearsDependOnlyOnYearSet` | AutoTendance/src/LoggedIn/AdminPage.jsx:79-82 | two rosters with the same set of years give the same year options |
| `AdminState.FilterGet` | AutoTendance/src/LoggedIn/AdminPage.jsx:50-56 | `filters[key]` holds a value of the kind the key takes (only below75 is a checkbox) |
| `AdminState.WithFilter` | AutoTendance/src/LoggedIn/AdminPage.jsx:134 | `{ ...prev, [key]: value }` reads `value` at `key` and the old value at every other key |
| `AdminState.FilterGetDetermines` | AutoTendance/src/LoggedIn/AdminPage.jsx:50-56 | filter records that agree on every key are equal, so the single-key statements describe the whole record |
| `AdminState.WithText` | AutoTendance/src/LoggedIn/AdminPage.jsx:155-158 | the new-student update changes only the named text field and keeps the picture |
| `AdminState.Entries` | AutoTendance/src/LoggedIn/AdminPage.jsx:165 | `Object.entries(newStudent)` lists every property of the form object (lines 58-66) exactly once, each with its current value, ending with the picture |
| `AdminState.AppendValue` | AutoTendance/src/LoggedIn/AdminPage.jsx:167 | `FormData.append` keeps a file as a file, sends text unchanged, and turns an `undefined` picture into the text "undefined" and a null one into "null" |
| `AdminState.NewStudentFormData` | AutoTendance/src/LoggedIn/AdminPage.jsx:164-169 | the new-student payload has 6 entries when the picture is null and 7 otherwise. Its keys follow the entry order, with no key twice. Each entry carries the form's value under its key, as `append` stores it. A key is present exactly when the form has it, except that a null picture is left out |
| `AdminState.AutoGet` | AutoTendance/src/LoggedIn/AdminPage.jsx:68-74 | each key of the automatic-attendance form holds the value kind it takes |
| `AdminState.WithAuto` | AutoTendance/src/LoggedIn/AdminPage.jsx:208-213 | the automatic-attendance update changes only the named key |
| `AdminState.AutoFormData` | AutoTendance/src/LoggedIn/AdminPage.jsx:218-225 | with no date there is no payload. Otherwise there are 5 entries with a picture and 4 without. Entry i is the i-th of date, lecture, branch, year and picture, carrying the form's value under that key: the ISO text of the date, the text as typed, the chosen file |
| `AdminState.BlankFormBuildsPayload` | AutoTendance/src/LoggedIn/AdminPage.jsx:243-249 | the payload builder turns a form reset after a successful submit into four entries, the new date first |
| `AdminState.AdminPage.constructor` | AutoTendance/src/LoggedIn/AdminPage.jsx:47-74 | the page starts with an empty roster and overview, the default filters and blank forms |
| `AdminState.AdminPage.ReceiveData` | AutoTendance/src/LoggedIn/AdminPage.jsx:103-104 | a successful load replaces the roster and overview and nothing else |
| `AdminState.AdminPage.HandleFilterChange` | AutoTendance/src/LoggedIn/AdminPage.jsx:133-135 | sets only `filters[key]`; every other filter key and the rest of the page are unchanged |
| `AdminState.AdminPage.ResetFilters` | AutoTendance/src/LoggedIn/AdminPage.jsx:137-144 | restores the default filters, after which both tables show everything, and changes nothing else |
| `AdminState.AdminPage.HandleNewStudentChange` | AutoTendance/src/LoggedIn/AdminPage.jsx:153-159 | a text input sets its own field. The file input sets the picture to the first file, or to `undefined` when the list is empty. Nothing else changes |
| `AdminState.AdminPage.HandleAutomaticAttendanceChange` | AutoTendance/src/LoggedIn/AdminPage.jsx:208-213 | sets only the named key of the automatic-attendance form |
| `AdminState.AdminPage.NewStudentPayload` | AutoTendance/src/LoggedIn/AdminPage.jsx:164-169 | the `forEach`/`append` loop over the entries builds exactly `NewStudentFormData` of the current form |
| `AdminState.AdminPage.AutomaticAttendancePayload` | AutoTendance/src/LoggedIn/AdminPage.jsx:218-225 | the chain of `append` calls builds exactly `AutoFormData` of the current form, and nothing when no date is picked |
| `AdminState.AdminPage.SubmitNewStudent` | AutoTendance/src/LoggedIn/AdminPage.jsx:161-206 | on a form whose `required` inputs (lines 573, 584, 635, 647) are filled in, sends `NewStudentFormData` of the form as it was, and clears the form only when the student was accepted |
| `AdminState.AdminPage.SubmitAutomaticAttendance` | AutoTendance/src/LoggedIn/AdminPage.jsx:215-263 | on a form whose `required` lecture input (line 492) is filled in, sends `AutoFormData` of the form as it was, which is nothing without a date. The form resets to a blank form dated `now` only when a payload was sent and accepted |
| `Statistics.PieChartData` | AutoTendance/src/LoggedIn/Statistics.jsx:35-43 | no data gives no slices. Otherwise there are exactly two slices, "Attended" then "Not Attended": the first is `present_count`, and the two sum to `total_classes` |
| `Statistics.NotAttendedNonNegative` | AutoTendance/src/LoggedIn/Statistics.jsx:40 | the "Not Attended" value is non-negative exactly when `present_count <= total_classes` |
| `Statistics.CellFill` | AutoTendance/src/LoggedIn/Statistics.jsx:182 | `COLORS[i % COLORS.length]` is always a palette colour, the primary one exactly for even indices |
| `Statistics.CellFills` | AutoTendance/src/LoggedIn/Statistics.jsx:179-184 | one colour per slice, `COLORS[i % COLORS.length]`: always in the palette, and the primary colour exactly at even positions |
| `Statistics.ChartSlicesDistinctColors` | AutoTendance/src/LoggedIn/Statistics.jsx:45 | the two slices of a loaded chart get the two different palette colours |
| `TimeTable.Hash` | AutoTendance/src/LoggedIn/TimeTable.jsx:47-49 | the `split("").reduce` sum is at least the code units of each of its characters |
| `TimeTable.SubjectColor` | AutoTendance/src/LoggedIn/TimeTable.jsx:37-51 | the colour is always one of the seven classes, the one at index `hash % 7` |
| `TimeTable.HashAppend` | AutoTendance/src/LoggedIn/TimeTable.jsx:47-49 | the hash of a concatenation is the sum of the hashes |
| `TimeTable.HashRemove` | AutoTendance/src/LoggedIn/TimeTable.jsx:47-49 | removing one character subtracts exactly its code units from the hash |
| `TimeTable.HashPermutation` | AutoTendance/src/LoggedIn/TimeTable.jsx:47-49 | strings with the same multiset of characters have the same hash |
| `TimeTable.SubjectColorIgnoresOrder` | AutoTendance/src/LoggedIn/TimeTable.jsx:37-51 | anagrams, and equal strings in particular, get the same colour |
| `TimeTable.EmptySubjectColor` | AutoTendance/src/LoggedIn/TimeTable.jsx:47-50 | the empty subject hashes to 0 and is "text-red-600" |
| `TimeTable.Entry` | AutoTendance/src/LoggedIn/TimeTable.jsx:83 | an entry counts as a subject only when it is a non-empty string |
| `TimeTable.CellAt` | AutoTendance/src/LoggedIn/TimeTable.jsx:83-95 | a subject cell always carries one of the seven colour classes |
| `TimeTable.Row` | AutoTendance/src/LoggedIn/TimeTable.jsx:77-98 | a row has one cell per week day |
| `TimeTable.Render` | AutoTendance/src/LoggedIn/TimeTable.jsx:61-109 | the view is Loading exactly when there is no timetable. It is a grid exactly when all five week days are present, and the grid is 5 × 5 |
| `TimeTable.GridCells` | AutoTendance/src/LoggedIn/TimeTable.jsx:74-98 | cell (slot i, day j) shows `timetable[day][hour]` in its colour when that entry is truthy, and "No subject" otherwise |

## Left out

- Network requests and their response handling are not modelled: the page-load fetches, form submissions, statistics and timetable fetches, login and the student page. Where the client uses a response, it enters as a parameter. `Promise.all` is not modelled either.
- Server behaviour is not modelled. `Flask Test/server.py` is not part of this model, and nothing is claimed about how it stores records, computes percentages or handles automatic intake.
- JSX rendering is not modelled: toasts, dialogs, focus handling through refs, navigation on a row click, routing, and the chart's hover index `activeIndex`.
- `renderActiveShape` (trigonometry) and every `toFixed(2)` are not modelled, because they are floating-point display. `attendancePercentage` is a `real` that is only compared with 75.
- `Date` handling is not modelled: `new Date()`, the calendar and `toISOString()`. A date is an `Instant` carrying its ISO text, and the clock is the parameter `now`.
- The student page's input guard and the login form's user-id check are not modelled. Each is a one-line condition around a request.
- Lower: only ASCII letters A-Z are lower-cased. Locale-independent Unicode case mapping beyond ASCII is not modelled.
- LowerChar: only A-Z are lowered. JavaScript's `toLowerCase` also lowers non-ASCII capitals ('É' becomes 'é'), which the model keeps unchanged.
- AttendanceRecord.rollNo: the roll number is held as an integer. The overview's roll numbers come from the service, whose schema is not part of this model and which may store them as digit strings. The filter only uses their printed form.
- SubmitNewStudent, SubmitAutomaticAttendance: the browser's own check of `required` inputs is modelled only as a precondition that those inputs are non-empty. The browser's message to the user is not modelled.
- Student.year: the year is held as its string form. A roster that mixed the number 2 with the text "2" would get two options from `new Set`, while the model gets one.
- IntToString: prints the exact decimal digits of every integer. JavaScript's `toString` prints the shortest digits that round-trip above 2^53, and uses exponent form from 1e21. Roll numbers stay far below 2^53.
- Hash: JavaScript adds in double precision. The model's unbounded sum differs only beyond 2^53, which no subject name reaches.
- Sort: the model uses an insertion sort. `StrictlySortedUnique` shows that the option lists do not depend on the algorithm.
- HandleFilterChange: requires that the value has the kind its key holds (text, or a checkbox state for below75). Every caller in the page does so, and the source has no behaviour for a mismatched value that the page could reach.
- WithFilter: has the same value-kind precondition as HandleFilterChange.
- HandleAutomaticAttendanceChange: requires that the value has the kind its key holds (date, text or file), as every caller in the page does.
- WithAuto: has the same value-kind precondition as HandleAutomaticAttendanceChange.
