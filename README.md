# Student manager, modelled in Dafny

This project models the core of the browser student roster in
`AdvancedStudentManager/student.js`: the `StudentManager` object with its stored
list of students (`students`), the view the table pages through
(`filteredStudents`), the edit cursor (`editingIndex`, -1 while adding) and the
current page (`currentPage`, five records per page). The model covers how the form
is read and validated, how records are added, updated, put under edit and deleted,
and how the view is searched, sorted and paged. It also covers clearing and
importing.

Layout, one module per file:

- `wrappers.dfy` (`Wrappers`): `Option` and `Result`.
- `text.dfy` (`JsText`): the string operations the code uses. It covers
  `toLowerCase`, `trim` (with the full ECMAScript white-space set), `includes`,
  `split(',')` / `join(',')` and the string `<`. Each has its proof: `Includes` is
  substring search, split and join are inverse, and `<` is a strict total order.
- `records.dfy` (`Records`): the record and form datatypes, and the subjects
  cleaning in `getFormData`. It also holds `validateForm`, `findIndex` by id and
  `splice(k, 1)`.
- `search.dfy` (`StudentSearch`): the search filter.
- `sorting.dfy` (`Sorting`): the comparator of `sortStudents` and a sort that
  satisfies it.
- `paging.dfy` (`Paging`): page count and page slice.
- `manager.dfy` (`Manager`): the class `StudentManager`. Its fields are the four
  pieces of state. Its methods change them the way the source does.

Modelling choices:

- The pure parts are functions with lemmas: validation, the match predicate, the
  subjects cleaning and the page arithmetic. The operations that assign the
  manager's fields are methods of a class with `modifies` frames, and each
  `ensures` gives the complete new state.
- `validateForm` returns `Result<Fields, Rejection>`. On acceptance it hands on the
  form's fields with the age as a number. The three `Rejection` values are the
  three alerts. `addStudent` and `updateStudent` take these fields.
- `id`, `createdAt` and `updatedAt` come from `Date.now()` and `toISOString()` in
  the source. Here they are parameters. Ids are not guaranteed unique, so
  `UniqueIds` is an assumption wherever it is used and never an invariant.
- The confirmation prompts of delete and clear are a `confirmed: bool` parameter.
  The parsed contents of local storage, and the parsed import text, are an
  `Option<seq<Student>>`: `None` when parsing fails or gives no array.
- The view is not refreshed by add, update or delete. These methods leave
  `filteredStudents` as it was, as the code does (`handleFormSubmit` and
  `deleteStudent` only redraw). So the view can show records that are no longer
  stored, or miss new ones.
- `deleteStudent` uses the corrected removal. In the source, when the row's id is
  no longer stored, `findIndex` returns -1 and `splice(-1, 1)` then removes the
  last stored record (see Findings). The model removes nothing in that case. When
  `editStudent` finds no record it sets the cursor to -1. The next submit then adds
  instead of updating.

Behaviour of the code worth noting:

- Add, update and delete do not recompute the view.
- An update whose cursor is past the end of the stored list does nothing and
  reports no error. A cursor that a delete or an import left inside the list
  overwrites whichever record now sits there.
- The search view keeps the stored order.
- Clearing does nothing while no student is stored, even if the view still shows
  records.
- Importing keeps the current page and the edit cursor.

## Model

| member | source | states |
|---|---|---|
| `JsText.Trim` | AdvancedStudentManager/student.js:61 | `trim` leaves the infix of the input between leading and trailing white space, and that infix neither starts nor ends with white space |
| `JsText.TrimSpaceAround` | AdvancedStudentManager/student.js:65 | white space added around a string does not change what `trim` leaves of it |
| `JsText.IncludesIff` | AdvancedStudentManager/student.js:172-174 | `includes` holds exactly when the term occurs at some index of the string (both directions) |
| `JsText.LowerIdempotent` | AdvancedStudentManager/student.js:166 | lowering an already lowered string changes nothing |
| `JsText.JoinSplit` | AdvancedStudentManager/student.js:65 | joining the pieces of `split(',')` with commas gives the original text back |
| `JsText.SplitJoin` | AdvancedStudentManager/student.js:65 | splitting comma-free pieces joined by commas gives the same pieces |
| `JsText.SplitAppend` | AdvancedStudentManager/student.js:65 | the pieces of `a + ',' + b` are those of `a` followed by those of `b` |
| `JsText.LexLessTotal` | AdvancedStudentManager/student.js:189-191 | of two different strings one is smaller under `<` |
| `JsText.LexLessTransitive` | AdvancedStudentManager/student.js:189-191 | string `<` is transitive |
| `JsText.LexLessAsymmetric` | AdvancedStudentManager/student.js:189-191 | string `<` never holds both ways |
| `Records.CleanSubjects` | AdvancedStudentManager/student.js:65 | every cleaned subject is non-empty, contains no comma and has no white space at either end |
| `Records.CleanSubjectsPieces` | AdvancedStudentManager/student.js:65 | the cleaned subjects are the comma-separated pieces of the text itself, each trimmed, empty ones dropped, in text order (the outer trim is redundant) |
| `Records.CleanJoinedSubjects` | AdvancedStudentManager/student.js:65 | the subjects text `editStudent` writes (`join(', ')`, line 135) cleans back to exactly the record's subjects, same order |
| `Records.GetFormData` | AdvancedStudentManager/student.js:59-66 | the name and grade are trimmed, age and gender are passed through, and the subjects are exactly the cleaned entries of the subjects box (`CleanSubjects`), each of them a clean entry |
| `Records.ValidateForm` | AdvancedStudentManager/student.js:69-96 | accepts exactly when all fields are filled (age present and non-zero), the name is not a case-insensitive duplicate while adding (not checked while editing), and 1 <= age <= 100; on acceptance passes the form's fields on; a duplicate rejection only happens while adding |
| `Records.AgeBoundaries` | AdvancedStudentManager/student.js:71-92 | age 0 is refused as a missing field, age 101 as out of range, ages 1 and 100 are accepted |
| `Records.DuplicateRefused` | AdvancedStudentManager/student.js:77-86 | while adding, a name equal up to case to a stored one is always refused |
| `Records.FindIndexById` | AdvancedStudentManager/student.js:127 | `findIndex` by id: the first position holding the id, or -1 exactly when no stored record has it |
| `Records.SpliceStart` | AdvancedStudentManager/student.js:154 | the position `splice` works at: a start in range is taken as it is, a negative one counts from the end, one below minus the length clamps to 0 and one past the end clamps to the length |
| `Records.SpliceOneRemovesAt` | AdvancedStudentManager/student.js:154 | `splice(start, 1)` resolves the start (negative counts from the end, both ends clamp, see `SpliceStart`); when that is inside the array, elements before it stay in place, those after it move down one, and exactly the element at it is gone (multiset); a start that resolves to the end removes nothing |
| `Records.SpliceMinusOne` | AdvancedStudentManager/student.js:153-154 | `splice(-1, 1)` removes the last record |
| `Records.SpliceFoundRemovesThatRecord` | AdvancedStudentManager/student.js:148-155 | with unique ids and a stored id, deleting removes exactly the record with that id and keeps the others in order |
| `Records.SpliceAtIdRemovesThatRecord` | AdvancedStudentManager/student.js:154 | with unique ids, splicing at any position that holds the id removes exactly the record with that id and keeps the others in order |
| `Records.RemoveByIdExact` | AdvancedStudentManager/student.js:153-154 | corrected delete: with unique ids, removes exactly the records with the id, and nothing when no record has it |
| `Records.StaleDeleteRemovesOtherRecord` | AdvancedStudentManager/student.js:153-154 | as written, deleting a row whose id no non-empty stored list holds makes `findIndex` return -1 and removes the last stored record; the corrected removal keeps the list as it is |
| `StudentSearch.Filter` | AdvancedStudentManager/student.js:171-175 | the filtered view is never longer than the input |
| `StudentSearch.FilterMembers` | AdvancedStudentManager/student.js:171-175 | a record is in the filtered view exactly when it is in the input and matches: its name, its grade or one of its subjects, lowered, includes the term |
| `StudentSearch.FilterAppend` | AdvancedStudentManager/student.js:171-175 | the filter keeps the stored order: filtering a concatenation concatenates the filtered parts |
| `StudentSearch.FilterEmptyTerm` | AdvancedStudentManager/student.js:171-175 | filtering by the empty term keeps every record |
| `StudentSearch.Search` | AdvancedStudentManager/student.js:165-176 | an empty trimmed query gives the stored list itself; otherwise a record is in the view exactly when it is stored and matches the lowered, trimmed query |
| `StudentSearch.SearchIsFilter` | AdvancedStudentManager/student.js:166-176 | both branches of the search are the same filter, so the view is always the order-preserving filter of the stored list |
| `StudentSearch.SearchAppend` | AdvancedStudentManager/student.js:165-176 | the search view of a concatenation is the concatenation of the views (order is kept) |
| `StudentSearch.SearchIgnoresCase` | AdvancedStudentManager/student.js:166 | two queries that lower to the same text give the same view ("JOHN" and "john") |
| `StudentSearch.SearchLoweredQuery` | AdvancedStudentManager/student.js:166 | a query and its lowered form give the same view |
| `Sorting.Compare` | AdvancedStudentManager/student.js:184-193 | the comparator returns only 1 or -1, never 0 |
| `Sorting.BeforeTotal` | AdvancedStudentManager/student.js:184-193 | for any two records the comparator lets one stand before the other |
| `Sorting.BeforeTransitive` | AdvancedStudentManager/student.js:184-193 | "may stand before" is transitive for every field and direction |
| `Sorting.InsertSorted` | AdvancedStudentManager/student.js:184 | inserting a record into a sorted view keeps it sorted |
| `Sorting.Sort` | AdvancedStudentManager/student.js:184-193 | the sorted view is a permutation of the view in which no record comes after one that the comparator puts it before |
| `Sorting.SortedByAgeAscending` | AdvancedStudentManager/student.js:185-189 | ascending by age, ages never decrease along the view |
| `Paging.TotalPages` | AdvancedStudentManager/student.js:210 | the page count is the least number of pages of five that holds the view |
| `Paging.PageSlice` | AdvancedStudentManager/student.js:211-213 | a page holds at most five records, namely view records `(page-1)*5 + i` in order; it is non-empty exactly for pages 1..TotalPages |
| `Paging.PagesUpToPrefix` | AdvancedStudentManager/student.js:211-213 | pages 1..k together are the first 5k records of the view |
| `Paging.PagesCoverView` | AdvancedStudentManager/student.js:210-213 | pages 1..TotalPages together are the view exactly: every record on one page, in order |
| `Paging.TwelveRecords` | AdvancedStudentManager/student.js:210-213 | twelve records: three pages, page 1 is records 1-5, page 3 is records 11-12, page 4 is empty |
| `Manager.StudentManager.constructor` | AdvancedStudentManager/student.js:322-337 | starts adding on page 1; a parsed stored array becomes both lists, a missing or unreadable one leaves both empty |
| `Manager.StudentManager.HandleFormSubmit` | AdvancedStudentManager/student.js:41-57 | a refused form changes nothing; an accepted one appends a new record while adding, overwrites the record under the cursor while editing, and does nothing for a cursor past the end; the view and page stay |
| `Manager.StudentManager.AddStudent` | AdvancedStudentManager/student.js:98-108 | appends exactly one record carrying the fields, id and creation time, keeps all earlier records, touches nothing else; a fresh id keeps ids unique |
| `Manager.StudentManager.UpdateStudent` | AdvancedStudentManager/student.js:110-122 | with the cursor on a stored record, replaces only that slot (id and creation time kept, fields overwritten, update time set) and resets the cursor to -1; otherwise changes nothing |
| `Manager.StudentManager.EditStudent` | AdvancedStudentManager/student.js:124-128 | for a row of the view, the cursor becomes the stored position of the record with that row's id, or -1 when none has it; other rows change nothing |
| `Manager.StudentManager.DeleteStudent` | AdvancedStudentManager/student.js:148-163 | for a row of the view and a confirmed prompt, removes the stored record found by `findIndex` of the row's id and nothing when no record has it (corrected, see Findings); with unique ids exactly the records with that id go, the others keep their order; otherwise nothing changes; the view is not refreshed |
| `Manager.StudentManager.SearchStudents` | AdvancedStudentManager/student.js:165-181 | the view becomes the search of the stored list, which is not changed, and the page becomes 1 |
| `Manager.StudentManager.SortStudents` | AdvancedStudentManager/student.js:183-198 | the view becomes a sorted permutation of itself ("asc" ascending, anything else descending), the stored list is untouched, the page becomes 1 |
| `Manager.StudentManager.GoToPage` | AdvancedStudentManager/student.js:268-276 | the page changes exactly when the requested page is between 1 and the page count of the view |
| `Manager.StudentManager.CurrentPageStudents` | AdvancedStudentManager/student.js:209-213 | the rows shown are exactly the view's slice from `(currentPage-1)*5` to `currentPage*5`, both ends clamped to the view: at most five rows, none exactly when the page is past the last |
| `Manager.StudentManager.CancelEdit` | AdvancedStudentManager/student.js:278-282 | the cursor goes back to -1 (adding), and the manager's invariant holds |
| `Manager.StudentManager.ClearAllStudents` | AdvancedStudentManager/student.js:290-311 | with stored students and a confirmed prompt, empties both lists, resets page to 1 and cursor to -1; otherwise changes nothing |
| `Manager.StudentManager.ImportData` | AdvancedStudentManager/student.js:358-376 | succeeds exactly when the text parsed to an array, which then replaces both lists; on failure nothing changes |

## Left out

- Rendering and the event wiring: the table HTML in `displayStudents`,
  `displayPagination`, `resetForm`, the form filling and scrolling of
  `editStudent`, and `initializeEventListeners`. They only write to the page.
- `alert` and `confirm`. Alerts are not modelled. Confirmations are a boolean
  parameter.
- `localStorage`, `JSON.stringify`, `JSON.parse`, `saveToLocalStorage`,
  `exportData`. These are foreign I/O and serialisation. Nothing persistent is
  modelled. Loading and importing receive the parsed array, or `None`.
- Imported or stored records are taken to have the record's shape. The source
  accepts any array, and missing fields would make search or sort throw.
- `parseInt` on the age box. The form carries the parsed age, with `None` for
  NaN.
- The console helpers `getAllStudents` and `getStudentCount`, and the console
  logging and welcome messages.
- `JsText.Lower`: maps only ASCII letters. `toLowerCase` also maps non-ASCII
  letters.
- `JsText.LexLess`: compares Unicode code points. JavaScript compares UTF-16 code
  units, which differs only between supplementary characters and U+E000-U+FFFF.
- `Sorting.Sort`: is one sort that meets the comparator, an insertion sort. The
  engine's sort may order records with equal keys differently, because the
  comparator never returns 0. The contract states only what every such order
  has: a permutation, ordered by the comparator.
- Sort fields other than name, age, gender and grade. The datatype `SortField`
  has only these four. The comparator would also work on the other string
  fields: `createdAt` (an ISO time string), and `updatedAt` once every record in
  the view has been updated. A field that is absent or not a string (`id`,
  `subjects`, a misspelt name) makes `toLowerCase` throw.

## Findings

| source | as written | input that shows it | evidently intended | confidence | as-written member | corrected member |
|---|---|---|---|---|---|---|
| AdvancedStudentManager/student.js:153-154 | `findIndex` returns -1 when the row's record is no longer stored, and `splice(-1, 1)` then removes the last stored record | stored `[a, b]`, view `[a, b]`; delete row 0 (a), the view is not refreshed and still shows `[a, b]`; delete row 0 again: b is removed | remove nothing when no stored record has the row's id | not executed | `Records.StaleDeleteRemovesOtherRecord` | `Records.RemoveByIdExact` |

The removal as written is `SpliceOne(students, FindIndexById(students, id))`;
`Records.StaleDeleteRemovesOtherRecord` shows it removing another record.
`Records.RemoveById` is the corrected removal, and `Records.RemoveByIdExact` proves
that it removes exactly the record with the id. `Manager.StudentManager.DeleteStudent`
uses the corrected removal.
