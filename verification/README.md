# Attendance store model

This is a Dafny model of the logic in a classroom attendance app (`src/App.js`). Each teacher has a private store holding three collections:

- `classes`: `{id, name}`
- `students`: `{id, name, classId}`
- `attendance`: one record per student, class and day, carrying a status (`Hadir`, `Sakit`, `Izin` or `Alpa`) and an optional note.

The app has three pages, and the model follows them module by module:

- **Roster** (`Roster`): the data-management page. It creates, renames and deletes classes and students. Deleting a class also deletes that class's students. It bulk-imports students from pasted text and filters the lists by a search term.
- **Recorder** (`Recorder`): the daily attendance page. Choosing a class and a day builds an in-memory map with one entry per student. The status and note buttons edit that map. Saving deletes every record of the class on that day, then inserts one record per map entry whose student is on the current roster.
- **Reports** (`Reports`): the report page.
  - The class summary counts the four statuses over an inclusive range of days.
  - Month and semester shortcuts set that range.
  - The student view lists one student's records newest first, with a four-row summary.

The supporting modules are:

- `Records`: the entities and the store.
- `Calendar`: an abstract proleptic Gregorian day with its order, leap-aware month lengths and the `Date` day-zero idiom.
- `Text`: JavaScript `trim`, `split('\n')`, `toLowerCase` and `includes`.
- `Seqs`: `Array.prototype.filter` and facts about it.
- `Instants`: the moments the report page actually compares. It exists for the finding below.

Each handler is a pure function from a store snapshot to a new store, or to an `Err` that names why nothing was written. The inputs the browser would supply are parameters:

- the selected class, student, day or edited item, as an `Option` (`None` when nothing is selected);
- the text typed in;
- the server timestamp `now`.

Document ids come from a counter `nextId` in the store. It stands for the database's fresh, distinct generated ids. `WellFormed` says ids are distinct and below the counter, and every write preserves it.

## Model

| member | source | states |
|---|---|---|
| Roster.AddClass | src/App.js:118 | Rejected exactly when the name is blank. Otherwise exactly one class is appended, named by the trimmed input, which is non-empty and its own trim. Earlier classes, students and records are unchanged. |
| Roster.AddClassPreservesWellFormed | src/App.js:118 | Adding a class keeps ids distinct and below the counter. |
| Roster.AddStudent | src/App.js:119 | Rejected exactly when the name is blank or no class is selected; a blank name is reported first. Otherwise one student of the selected class is appended, with a non-empty trimmed name. Nothing else changes. |
| Roster.AddStudentPreservesWellFormed | src/App.js:119 | Adding a student keeps ids distinct and below the counter. |
| Roster.Rename | src/App.js:122-129 | Succeeds exactly when an item is being edited, the new name is not blank, and the edited document exists. On success only the `name` field of the entity with that id becomes the trimmed value. Every other entity, field, collection and the counter is unchanged. |
| Roster.RenamePreservesWellFormed | src/App.js:122-129 | Renaming keeps the store well formed, and the written name is non-empty and its own trim. |
| Roster.DropClass | src/App.js:134 | After deleting one class document, a class is kept exactly when its id differs, and nothing new appears. |
| Roster.DropStudent | src/App.js:134 | After deleting one student document, a student is kept exactly when its id differs. |
| Roster.DropClassStudents | src/App.js:136-140 | The cascade removes exactly the students whose `classId` is the deleted class. The kept students plus the removed ones are, as a multiset, the original students. |
| Roster.Delete | src/App.js:132-143 | Deleting a class removes that class and exactly its students. Deleting a student removes only that student. Attendance records and, for a student, the classes are untouched. |
| Roster.DeletePreservesWellFormed | src/App.js:132-143 | Deleting keeps ids distinct and below the counter. |
| Roster.LineNames | src/App.js:153 | A line contributes no name exactly when it is all spaces, and otherwise only its non-empty trim. |
| Roster.ParseNames | src/App.js:153 | `split('\n').map(trim).filter(non-empty)`: every name is non-empty and has no space at either end. |
| Roster.NamesOfConcat | src/App.js:153 | Parsing two lists of lines in a row gives the two name lists in the same order. |
| Roster.ParseNamesAtLineFeed | src/App.js:153 | The names of `a + "\n" + b` are the names of `a` followed by those of `b`, so input order is kept. |
| Roster.ParseNamesOfLine | src/App.js:153 | A single line yields no name when it is blank, and its trim otherwise. |
| Roster.ParseNamesFirstLine | src/App.js:153 | The first line contributes its trim, unless blank, ahead of the names of the rest. |
| Roster.NamesOfEmptyIffBlank | src/App.js:147-158 | A list of lines yields no names exactly when its join is blank. |
| Roster.BlankIffNoNames | src/App.js:147-158 | A text is blank exactly when it yields no names, so the "no valid names" branch is unreachable once the blank check has passed. |
| Roster.ThreeLines | src/App.js:153 | A blank line, a name, a blank line and a name yield the two trimmed names. |
| Roster.FiveLines | src/App.js:153 | Five lines, two of them blank, yield the other three trimmed names in order. |
| Roster.NamesAroundBlanks | src/App.js:153 | Three trimmed names separated by an empty line and a whitespace-only line come back unchanged. |
| Roster.ParseNamesExample | src/App.js:153 | `"Alice\n\nBob\n  \nCarol"` yields exactly `["Alice", "Bob", "Carol"]`. |
| Roster.NewStudents | src/App.js:159-163 | One student per name, in order, each tagged with the selected class and the stamp, with consecutive fresh ids. |
| Roster.BulkImport | src/App.js:145-175 | Rejected exactly when the text is blank or no class is selected. Otherwise it appends one student per parsed name, in input order, each in the selected class with a non-empty trimmed name. Earlier students are unchanged, and the reported count is the number of names, which is positive. |
| Roster.BulkImportPreservesWellFormed | src/App.js:159-163 | The batch's ids are fresh and distinct. |
| Roster.Search | src/App.js:177-178 | The result is a sub-multiset of the items. An item is in the result exactly when its lowercased name contains the lowercased term. An empty term returns the whole list. |
| Roster.SearchKeepsOrder | src/App.js:177-178 | Searching a concatenation searches each part in turn, so the result keeps the items' original order. |
| Text.Trim | src/App.js:118 | The trimmed string is the unique slice of the input with only spaces outside it and no space at either end. It is empty exactly when the input is all spaces. |
| Text.TrimIdempotent | src/App.js:118 | Trimming twice is trimming once. |
| Text.ContainsIff | src/App.js:177 | `includes` finds the term exactly when it occurs at some position. |
| Text.JoinSplit | src/App.js:153 | Joining the pieces of `split('\n')` with line feeds gives back the text. |
| Text.SplitJoin | src/App.js:153 | Splitting a join of line-feed-free pieces gives back the pieces. |
| Records.ClassRoster | src/App.js:231 | The `where('classId', '==', c)` student query: exactly the students of class `c`, none invented. |
| Records.ClassRecords | src/App.js:264 | The class's attendance query: exactly the records of that class, none invented. |
| Recorder.Put | src/App.js:232-233 | Writing one key sets it and leaves every other key's entry alone. An existing key keeps its place and a new key goes last. |
| Recorder.SavedMarksAreLast | src/App.js:231 | A student has a saved mark exactly when it has a record of the class on that day. The mark is the one of its last such record. |
| Recorder.InitialDraft | src/App.js:231 | Each roster student maps to its saved mark, or present with an empty note. No other key is present, and the keys follow roster order. |
| Recorder.DedupDistinct | src/App.js:231 | With distinct roster ids the map has exactly one key per roster student, in roster order. |
| Recorder.Load | src/App.js:231 | Without a class or a day the roster is cleared and the map kept. Otherwise the roster is the class's students, and the map holds each one's saved mark or the default. |
| Recorder.SetStatus | src/App.js:232 | Only that student's status changes; its note is kept, or empty for a new entry. Other entries are unchanged. An existing key keeps its place and a new key goes last. |
| Recorder.SetNote | src/App.js:233 | Only that student's note changes; its status, the other entries and the key order are unchanged. |
| Recorder.Inserted | src/App.js:234 | One record per map entry whose student is on the roster, carrying that entry's status and note. All are on the chosen class and day, with increasing fresh ids. Each such student has exactly one. |
| Recorder.InsertedIsDraft | src/App.js:234 | The insert batch's `{studentId, status, note}` contents are exactly the map's roster entries in map order, whatever the ids and stamp. |
| Recorder.Save | src/App.js:234 | Rejected exactly when the roster is empty. Otherwise classes and students are untouched, and every record of another class or day is kept in order. Each student has exactly one record of the class that day if it is on the roster with a map entry, and none otherwise. Each such record carries the entry's status and note. |
| Recorder.KeptUnchanged | src/App.js:234 | The records off the saved class and day are exactly those kept from before the save. |
| Recorder.SlotIsAdded | src/App.js:234 | After the save, every record of the class on that day is one of the inserted ones. |
| Recorder.SlotCount | src/App.js:234 | Only the inserted records count toward a student's records of the class on that day. |
| Recorder.SavePreservesWellFormed | src/App.js:234 | The inserted records' ids are fresh and distinct. |
| Recorder.SlotAfterSave | src/App.js:234 | After a save, the class's records of that day are, in content, the map's roster entries in map order. |
| Recorder.SaveTwice | src/App.js:234 | Saving the same page twice leaves the same records as saving once, apart from ids and stamps, so no duplicates arise. |
| Recorder.OccurrencesPositive | src/App.js:234 | A student is counted on the class and day exactly when it has a record there. |
| Recorder.ReloadedMark | src/App.js:231-234 | After a save, a roster student's saved mark is its map entry, or present with an empty note without one. |
| Recorder.SaveThenLoad | src/App.js:231-234 | Reopening the page after a save gives back the same roster and, for each roster student, the saved map entry. |
| Reports.Bump | src/App.js:270 | `hasOwnProperty` then increment: exactly one of the four counters grows by one for a known status, and none for any other value. |
| Reports.CountAllCounts | src/App.js:267-271 | The `forEach` tally of each known status is the number of records carrying it. |
| Reports.KnownIsSumOfCounts | src/App.js:270 | Every record with a known status is in exactly one of the four counts. |
| Reports.TableSum | src/App.js:267-272 | The four rows together hold every record with a known status. |
| Reports.TableIsCounts | src/App.js:272 | `Object.entries(counts)` gives the four statuses in key order, each with its count. |
| Reports.Scope | src/App.js:264 | The records a report reads: none without a selected class. Otherwise every record of that class, and no record that is not stored. |
| Reports.PeriodRecords | src/App.js:268-270 | The class summary reads exactly the class's records dated within the inclusive range: each is in range, none is invented, and no in-range record of the class is missed. |
| Reports.SumDropZeros | src/App.js:272 | Dropping zero rows keeps the total. |
| Reports.ReportRowsCounted | src/App.js:266-273 | Every row left is a known status with a positive count equal to its number of records in range. |
| Reports.ReportRowsComplete | src/App.js:266-273 | No known status with a record in range is left out. |
| Reports.RowsInOrder | src/App.js:272 | The rows left keep the order Hadir, Sakit, Izin, Alpa. |
| Reports.ClassReport | src/App.js:266-273 | For the records of the class dated in range, there is one row per known status with a positive count, holding that count. No such status is missing, the rows are in key order, and their sum is the number of known-status records in range. |
| Reports.ClassReportWithoutClass | src/App.js:264 | With no class selected the class summary is empty. |
| Calendar.DaysInMonth | src/App.js:275 | February has 29 days in a leap year and 28 otherwise. April, June, September and November have 30 days, and the other seven months 31. |
| Calendar.YearLength | src/App.js:275 | The twelve month lengths add up to 365 days, or 366 in a leap year. |
| Calendar.FirstOfMonth | src/App.js:275 | `new Date(y, m0, 1)` is a valid first day. For `m0` in 0..11 it is in year `y`, month `m0 + 1`. |
| Calendar.DayBefore | src/App.js:275 | Day zero of a month is the valid day immediately before the first. |
| Calendar.LastOfMonthIsMonthEnd | src/App.js:275 | `new Date(y, m0 + 1, 0)` is the last day of the month that `new Date(y, m0, 1)` opens. |
| Calendar.MonthRangeIsMonth | src/App.js:275 | The range from the first to the last of a month holds exactly the valid days of that month. |
| Reports.MonthChange | src/App.js:275 | The month shortcut's range holds exactly the valid days of the chosen month, and the year selector takes the chosen year. |
| Reports.SetSemester | src/App.js:276 | Semester 1 covers exactly January to June of the selected year; any other value covers July to December. The year is kept. |
| Reports.InsertByDay | src/App.js:281 | Inserting into a newest-first list keeps it newest first and adds exactly that record. |
| Reports.SortByDay | src/App.js:281 | The detail list is a permutation of its input, newest first. |
| Reports.SortedIsFixed | src/App.js:281 | A list already newest first, same-day records included, is left exactly as it is. |
| Reports.CountSort | src/App.js:281-282 | Sorting does not change how many records carry a status. |
| Reports.StudentRecords | src/App.js:281 | The detail records are exactly the selected student's records of the class: each belongs to the student, none is invented, and none of the student's records is missed. |
| Reports.StudentReport | src/App.js:278-284 | With no student selected, nothing. Otherwise the details are a newest-first permutation of the student's records of the selected class. The summary has all four statuses in key order, zeros included, each counting those records, and it sums to the number of known-status records. |
| Reports.StudentTableFacts | src/App.js:280-283 | Counting the sorted details gives the counts of the unsorted records, in key order. |
| Instants.EastOfUtcDropsLastDay | src/App.js:259-260 | East of UTC, the range test as written is the half-open range `[start, end)` of calendar days. |
| Instants.WestOfUtcDropsFirstDay | src/App.js:259-260 | West of UTC, the range test as written is `(start, end]`. |
| Instants.AtUtcAsIntended | src/App.js:270 | At UTC the range test as written is the inclusive calendar-day range. |
| Instants.JanuaryAtUtcPlusSeven | src/App.js:275 | At UTC+7, a record of 31 January 2025 is in January by calendar day but is not counted. |
| Instants.MonthLosesLastDay | src/App.js:275 | East of UTC, the month shortcut as written never counts the month's last day. |

## Left out

- Firebase set-up, sign-in, the `onSnapshot` subscriptions and their unsubscribe handling, and the order in which the student and attendance listeners fire. Each handler acts on one given snapshot.
- Store failures: a failed `addDoc`, `deleteDoc`, batch commit or `getDocs` is not modelled. The exception is `updateDoc` on a missing document, which is the `NoSuchDocument` error. A delete or batch is taken to succeed entirely.
- The gap between the delete batch and the insert batch of a save is not modelled. The two batches are one sequential transition; concurrent writes are out of scope.
- Record order within a collection: new documents are appended. The real snapshot order is by generated id.
- Generated ids and `serverTimestamp()`: ids come from a counter, and `createdAt` is the parameter `now`.
- JavaScript `Date`: a day is an abstract calendar day, and the handlers compare calendar days. The `toDateString` matching in loading and saving is the same local conversion on both sides, so it becomes day equality. The one place where the time zone changes the outcome is recorded under Findings.
- Two-digit years in `new Date(y, m, d)` (years 0 to 99 map to 1900 to 1999) are not modelled, because the year selector only offers the last five years.
- The initial report range and year come from the clock; they are parameters here.
- The default day of the recorder, `toISOString` of the clock, is a parameter.
- React rendering, modals, messages, the `setTimeout` clears, the charts and the `isLoading`/`isUploading` flags are not modelled.
- Records with no `date` field are skipped by loading and saving; every modelled record has a day.
- JavaScript objects order integer-like keys first. Generated ids are not integer-like, so the map keeps plain insertion order.
- `toLowerCase` is modelled on ASCII letters only; other characters are left as they are.
- Recorder.SetNote: requires the student to have an entry. The note field is only shown for a student whose entry exists and whose status is `Sakit` or `Izin`. The source would otherwise store an entry with no status.
- Reports.SortByDay: stability is stated only for input already newest first (`SortedIsFixed`), not as a general order-of-ties property.
- The student view reads the records of the selected class only, the same snapshot as the class view, not the student's records in every class. This follows the code (`src/App.js:264`, `:281`).

## Findings

| source | as written | input that shows it | evidently intended | confidence | as-written member | corrected member |
|---|---|---|---|---|---|---|
| src/App.js:270-275 | A record's date is stored as `new Date('YYYY-MM-DD')`, which is UTC midnight. The report bounds are `new Date(y, m, d)`, which is local midnight. East of UTC, every record of the range's last day falls after the end bound. | Browser at UTC+7; report for January 2025; a record saved for 2025-01-31 | Every record of a day in the chosen month or semester is counted. | not executed | Instants.MonthLosesLastDay | Reports.MonthChange |

The corrected comparison is by calendar day (`Calendar.InRange`). `Reports.ClassReport` uses it, and `Reports.MonthChange` and `Reports.SetSemester` prove their ranges hold exactly the intended days.
