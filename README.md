# Attendance tracker: a Dafny model of its reconciliation core

This project models the part of the attendance tracker (`src/App.jsx`) that
joins a staff roster, a daily sign-in log, a schedule sheet and a leave list
by name. It covers four parts:

- **The daily attendance check** (`analyzeAttendance`). It keeps the sign-ins
  of the check date, records who signed in, reads the clock time, finds the
  person on the roster, and classifies them as late or on time. The expected
  start is 7:50 for instructional departments and 8:30 otherwise. It then
  lists the active roster people who neither signed in nor have a leave entry.
  Finally it sorts the late list by minutes late and the missing list by name.
- **The schedule lookup** (`lookupSchedule`). For every roster person whose
  name contains the search text, it reports the schedule the sheet gives them,
  or the default for their department.
- **The department classifier**, written once and used by both of the above.
- **The leave-request filter** of the leave-list import. It works over
  requests that have already been extracted from the page.

Spreadsheet rows are maps from column labels to cell text. `row[key] || ''`
is `Records.Field`. A cell interpolated without `|| ''` prints `undefined` and
is `Records.Display`.

The loops of the source are Dafny methods with `while` loops:
`Attendance.AnalyzeAttendance` with `ScanSignIns` and `CollectAbsentees`,
`Lookup.LookupSchedule` with `FilterByName`, and `Pto.FilterRequests`. Each is
proved equal to a specification function (`ReportOf`, `Entries`,
`Pto.Entries`). The behaviour of the source is then proved about those
functions as lemmas.

Modules:

| module | contents |
|---|---|
| `Wrappers` | `Option` and `Result` |
| `Text` | JavaScript `trim` (the full whitespace set), ASCII `toLowerCase`, `includes`, digit strings, `padStart(2,'0')` |
| `Records` | rows as maps, the lower-case `"first last"` name key |
| `Shift` | the department classifier and its two shifts |
| `TimeOfDay` | the unanchored `(\d+):(\d+):(\d+)` match, `H:MM` formatting |
| `Matching` | the roster and schedule-row searches (`Array.prototype.find`) |
| `Sorting` | a stable sort by key under a total order (the stable `Array.prototype.sort`) |
| `Attendance`, `AttendanceFacts` | the attendance check, then what is proved about it |
| `Lookup` | the schedule lookup and its properties |
| `Pto` | the leave-request filter and its properties |

Three behaviours of the code are easy to misread:

- The attendance check takes leave keys from **every** leave-list entry, with
  no status filter (`src/App.jsx:235-237`). Only the import filters by status
  (`src/App.jsx:112`). `Pto.ImportedLeaveKeys` shows that the two agree on
  leave lists the import produced.
- Duplicate sign-in rows for one person are each classified and each counted
  (`src/App.jsx:241-281`). `AttendanceFacts.DuplicateSignInsEachCount` shows
  this.
- The lookup search is lower-cased but not trimmed (`src/App.jsx:155-158`).
  Only the blank test trims it (`src/App.jsx:139`).
  `Lookup.SearchIsNotTrimmed` shows this.

## Model

| member | source | states |
|---|---|---|
| Attendance.AnalyzeAttendance | src/App.jsx:227-316 | refuses exactly when the sign-in log or the roster is missing; otherwise returns the report `ReportOf` describes (late list, missing list, on-time count, signed-in count, leave count) |
| Attendance.ScanSignIns | src/App.jsx:238-281 | the loop over the sign-in log yields the signed-in key set, the late records in log order and as many on-time entries as there are on-time rows |
| Attendance.CollectAbsentees | src/App.jsx:282-302 | the loop over the roster yields exactly the absent people, in roster order |
| Attendance.SortLate | src/App.jsx:304 | the late list comes out in descending minutes late; records with equal minutes keep their order; nothing is gained or lost |
| Attendance.SortNoSignIn | src/App.jsx:305 | the missing list comes out in ascending name order; equal names keep their order; nothing is gained or lost |
| Attendance.PtoNameKeys | src/App.jsx:235-236 | defines the leave keys: the lower-cased `"first last"` of the trimmed names of every leave entry, one per entry, whatever its status |
| Attendance.DropEmpty | src/App.jsx:237 | defines `.filter(n => n)`: keeps the non-empty keys, in order |
| Attendance.PtoKeys | src/App.jsx:235-237 | defines the leave keys the check consults: none when no leave list is loaded |
| Attendance.Qualifies | src/App.jsx:242-248 | defines which sign-in rows take part: both trimmed names non-empty, `Date In` and `In` present, and the trimmed date equal to the check date |
| Attendance.SignedIn | src/App.jsx:238-250 | defines the signed-in set: the name keys of the qualifying rows |
| Attendance.RowOutcome | src/App.jsx:241-280 | defines what one row contributes: skipped when it does not qualify, unclassified when its time does not parse or its name is not on the roster, otherwise late (with its record) or on time against the shift's threshold |
| Attendance.Outcomes | src/App.jsx:241-281 | defines the outcome of every row of the log, in log order |
| Attendance.LateRecords | src/App.jsx:268-277 | defines the late list before sorting: the late outcomes' records in log order |
| Attendance.OnTimeCount | src/App.jsx:279-306 | defines the on-time count: the number of on-time outcomes |
| Attendance.IsActive | src/App.jsx:288-289 | defines an active employee: the lower-cased status contains "existing" or "new hire" |
| Attendance.IsAbsent | src/App.jsx:284-294 | defines who is missing: both trimmed names non-empty, active, and the name key neither signed in nor a leave key |
| Attendance.AbsenceOf | src/App.jsx:295-300 | defines the missing-list record: the trimmed name, department, title and location |
| Attendance.Absentees | src/App.jsx:282-302 | defines the missing list before sorting: the absent roster people's records in roster order |
| Attendance.ReportOf | src/App.jsx:303-309 | defines the report: both sorted lists, the on-time count, the size of the signed-in set and the number of leave keys |
| Shift.Classify | src/App.jsx:262-267 | defines the classifier: instructional when the lower-cased department contains one of the four keywords, otherwise non-instructional; each shift gives the threshold (470 or 510), the label and the default schedule text |
| TimeOfDay.MatchAt | src/App.jsx:251-254 | defines a match of the pattern at one position: greedy digit runs separated by ':', with the first two groups read as hour and minute |
| TimeOfDay.ParseTime | src/App.jsx:251-254 | defines the time read from a cell: the match at the leftmost position where the pattern matches, or none |
| TimeOfDay.FormatClock | src/App.jsx:272 | defines the shown time: the hour, ':', and the minute padded to two digits |
| Records.Field | src/App.jsx:242 | defines `row[key] \|\| ''`: the cell, or "" when the column is missing |
| Records.Display | src/App.jsx:163 | defines a cell interpolated without a fallback: a missing column prints as "undefined" |
| Records.NameKey | src/App.jsx:249-250 | defines the name key: the trimmed first name, a space and the trimmed last name, all lower-cased |
| Text.Trim | src/App.jsx:242-243 | defines `trim`: the result of dropping leading, then trailing, whitespace |
| Text.ToLower | src/App.jsx:250 | defines `toLowerCase` on ASCII letters, every other character unchanged |
| Text.Contains | src/App.jsx:263-266 | defines `includes`: some suffix of the text starts with the searched text |
| Text.TrimStartSpec | src/App.jsx:242-243 | dropping leading whitespace leaves the suffix that starts at the first non-whitespace character, and everything before it is whitespace |
| Text.TrimEndSpec | src/App.jsx:242-243 | dropping trailing whitespace leaves the prefix that ends at the last non-whitespace character, and everything after it is whitespace |
| Lookup.NameMatches | src/App.jsx:155-158 | defines the lookup match: the lower-cased `"first last"` (missing names as "") contains the lower-cased, untrimmed search |
| Lookup.Found | src/App.jsx:155-158 | defines the matching people, in roster order |
| Lookup.SheetSchedule | src/App.jsx:168-201 | defines the sheet's schedule for a person: the schedule cell (named column, else `_3`) of their schedule row, when it is non-empty and does not lower-case to "schedule" |
| Lookup.ScheduleFor | src/App.jsx:196-211 | defines the schedule shown: the sheet's schedule, else the department's default text |
| Lookup.EntryFor | src/App.jsx:163-221 | defines one lookup entry: the name with missing parts shown as "undefined", title, department, location and schedule |
| Lookup.Entries | src/App.jsx:162-221 | defines the lookup result: one entry per matching person, in roster order |
| Pto.Eligible | src/App.jsx:111-116 | defines the requests kept: status "Approved" and first name, last name and date all present and non-empty |
| Pto.Entry | src/App.jsx:117-122 | defines the leave entry of a kept request: the three fields trimmed, and the status |
| Pto.Entries | src/App.jsx:109-124 | defines the leave list: the entries of the kept requests, in request order |
| AttendanceFacts.LateListAligned | src/App.jsx:268-280 | the k-th late record before sorting is the record of the k-th late row, in log order, and a row is counted there exactly when its outcome is late |
| AttendanceFacts.SignedInExactly | src/App.jsx:241-250 | a key is in the signed-in set exactly when some row with both names, a time and the check date (after trimming) has that key, whether or not its time parses or its name is on the roster |
| AttendanceFacts.TotalSignedInIsDistinctKeys | src/App.jsx:238-307 | `totalSignedIn` is the number of distinct name keys of qualifying rows |
| AttendanceFacts.PtoCountIsEntryCount | src/App.jsx:235-308 | `.filter(n => n)` removes no leave key, so `ptoCount` is the length of the leave list, whatever the entries' status and date |
| AttendanceFacts.OutcomeTally | src/App.jsx:246-280 | late rows plus on-time rows plus unclassified rows (time unreadable or name not on the roster) equal the qualifying rows; late plus on-time never exceeds them |
| AttendanceFacts.OutcomesPartition | src/App.jsx:246-280 | every row ends in exactly one of skipped, unclassified, on time or late |
| AttendanceFacts.SkippedAreNonQualifying | src/App.jsx:242-248 | row by row, a row is skipped exactly when it fails the name, time and date filter; so the skipped count plus the qualifying count is the number of rows |
| AttendanceFacts.UnclassifiedRowStillSignedIn | src/App.jsx:250-261 | a qualifying row whose time does not parse, or whose name is not on the roster, is signed in but neither late nor on time |
| AttendanceFacts.DuplicateSignInsEachCount | src/App.jsx:241-307 | two identical on-time sign-ins count twice as on time and once as signed in |
| AttendanceFacts.LatenessRule | src/App.jsx:253-277 | a matched row with a readable time is late exactly when hours*60+minutes exceeds the shift's threshold (equality is on time); the record carries the excess, the `H:MM` time, the shift's label, the trimmed name and the roster row's department and title |
| AttendanceFacts.LateRecordsTrace | src/App.jsx:268-277 | a record is in the late list exactly when some row's outcome is that late record |
| AttendanceFacts.LateRecordsAreLate | src/App.jsx:268-274 | every late record is at least one minute late and expects "7:50 AM" or "8:30 AM" |
| AttendanceFacts.LateOutcomeShape | src/App.jsx:267-274 | a late outcome is at least one minute late and names one of the two labels |
| AttendanceFacts.ReportLateOrder | src/App.jsx:304 | the report's late list is the late records sorted by descending minutes, stable, a permutation, all at least one minute late |
| AttendanceFacts.AbsenteesExactly | src/App.jsx:283-302 | the missing list has one entry per absent roster row, in roster order, and a row is listed exactly when it is absent (both names, active status, key neither signed in nor on leave) |
| AttendanceFacts.ReportNoSignIn | src/App.jsx:305 | the report's missing list is a permutation of the absentees, in ascending name order |
| AttendanceFacts.SignedInNeverAbsent | src/App.jsx:291-294 | a roster person whose key matches a qualifying sign-in is never reported missing |
| AttendanceFacts.LeaveEntrySuppresses | src/App.jsx:235-294 | a leave entry with the person's name keeps them off the missing list, whatever its status and date |
| Shift.ClassifyByOccurrence | src/App.jsx:262-267 | a department is instructional exactly when one of "instructional", "support services", "curriculum", "counseling" occurs in its lower-cased text; the empty department is non-instructional |
| Shift.ClassifyIgnoresCase | src/App.jsx:262 | letter case of the department does not change the shift |
| Shift.ClassifyKeepsKeywordInContext | src/App.jsx:263-266 | text around an instructional department keeps it instructional (the test is a substring test) |
| Shift.ExpectedLabelMatchesMinutes | src/App.jsx:267-273 | each shift's label reads back as its threshold (7:50 is 470, 8:30 is 510) and starts its default schedule text |
| TimeOfDay.MatchAtIsThePattern | src/App.jsx:251 | a match at a position exists exactly when digits, ':', digits, ':', digits start there; the groups are then the greedy digit runs |
| TimeOfDay.GroupIsMaximalRun | src/App.jsx:251 | a digit group followed by ':' is the whole digit run at its start |
| TimeOfDay.ParseTimeFails | src/App.jsx:251-252 | the time is unreadable exactly when the pattern occurs nowhere in the cell, at any position (the pattern is unanchored) |
| TimeOfDay.ParseTimeIsLeftmostMatch | src/App.jsx:251-255 | the time read is the hour and minute of the leftmost occurrence of the pattern |
| TimeOfDay.FormatClockReadsBack | src/App.jsx:272 | the shown time is the hour without a leading zero, ':', and the minute padded to two digits, with no leading zero beyond that padding; both read back as the values they came from |
| TimeOfDay.FirstMatchFromSpec | src/App.jsx:251 | the search finds the leftmost position at which the pattern matches, or none |
| Text.TrimSpec | src/App.jsx:242-247 | `trim` removes exactly the leading and the trailing whitespace: the result is the slice between the two whitespace runs, and when not empty it neither starts nor ends with whitespace |
| Text.TrimEmptyIffBlank | src/App.jsx:242-246 | a trimmed name is empty exactly when the name is all whitespace |
| Text.TrimIdempotent | src/App.jsx:118-121 | trimming twice is trimming once |
| Text.TrimToLowerCommute | src/App.jsx:171-175 | trimming and lower-casing commute |
| Text.ToLowerIdempotent | src/App.jsx:156-157 | lower-casing twice is lower-casing once |
| Text.ContainsIff | src/App.jsx:263-266 | `includes` holds exactly when the text occurs at some position |
| Text.ParseNatToString | src/App.jsx:253-272 | the printed form of a number parses back to it |
| Records.NameKeyInjective | src/App.jsx:287-293 | two people share a name key exactly when their trimmed first and last names agree ignoring case, when no first name has an inner space |
| Records.NameKeyCollides | src/App.jsx:249-250 | without that restriction the key is not injective: "Mary Ann" "Smith" and "Mary" "Ann Smith" are different names with one key, so one's sign-in or leave entry keeps the other off the missing list |
| Matching.FindFirst | src/App.jsx:256-260 | `find` returns the first position whose element satisfies the test, or none exactly when no element does |
| Matching.FindRoster | src/App.jsx:256-260 | the roster row for a sign-in is the first row whose trimmed, lower-cased names equal the sign-in's; none exactly when no row matches |
| Matching.FindSchedule | src/App.jsx:170-194 | the schedule row for a person is the first non-header row whose names (named column, else `_1`/`_2`) equal the person's; none exactly when no row matches |
| Matching.HeaderRowNeverMatches | src/App.jsx:179 | a sheet of header rows matches nobody |
| Matching.MatchersNormaliseAlike | src/App.jsx:171-175 | lower-then-trim (schedule matcher) equals trim-then-lower (roster matcher) |
| Sorting.StableSort | src/App.jsx:304-305 | the result is sorted by key, keeps the order of elements with equal keys, and is a permutation |
| Sorting.StringLeIsTotalOrder | src/App.jsx:305 | the name order used for the missing list is a total order |
| Lookup.LookupSchedule | src/App.jsx:138-225 | refuses exactly a blank search; with no roster the result is empty; otherwise one entry per matching person, built by `Entries` |
| Lookup.FilterByName | src/App.jsx:155-158 | the filter loop keeps exactly the people `Found` describes |
| Lookup.FoundExactly | src/App.jsx:155-221 | the k-th entry describes the k-th matching roster row, in roster order, and a row is listed exactly when its lower-cased `"first last"` contains the lower-cased search |
| Lookup.SearchIgnoresCase | src/App.jsx:157-158 | letter case in the search text does not matter |
| Lookup.SearchIsNotTrimmed | src/App.jsx:139-158 | "smith " passes the blank test but does not find John Smith, while "smith" does |
| Lookup.SheetScheduleShown | src/App.jsx:196-201 | a usable schedule cell of the person's schedule row is shown as it is |
| Lookup.DepartmentDefault | src/App.jsx:205-211 | without a usable cell, the schedule is the department's default, one of the two fixed texts |
| Lookup.HeaderOnlySheetDefaults | src/App.jsx:170-211 | a sheet of header rows gives everyone their department's default |
| Lookup.InstructionalDefault | src/App.jsx:206-211 | an instructional department with no sheet gets "7:50 AM - 3:50 PM (Instructional)" |
| Pto.FilterRequests | src/App.jsx:108-129 | the filter loop returns the entries of the eligible requests, and refuses exactly when there are none |
| Pto.EntriesExactly | src/App.jsx:109-124 | the k-th entry comes from the k-th eligible request (status "Approved", all three fields non-empty), in request order; a request is listed exactly when eligible |
| Pto.EntryShape | src/App.jsx:117-122 | an entry's status is "Approved", its fields have no surrounding whitespace, and its name key equals the untrimmed request's |
| Pto.BlankNameKept | src/App.jsx:116-118 | a first name of blanks passes the non-empty test and leaves an empty first name in the entry |
| Pto.ImportedLeaveKeys | src/App.jsx:109-237 | on a leave list the import produced, the check's leave keys are exactly the name keys of the eligible requests, in order |

## Left out

- Browser storage, file upload and spreadsheet parsing (`src/App.jsx:20-91`): the model starts from rows that have already been parsed, as maps from column label to text.
- Extracting requests from the leave page's XML, and the XML error path (`src/App.jsx:93-107`): this needs the browser's XML parser. `Pto.FilterRequests` starts from extracted requests.
- Alerts, console logging (including the per-row debug output for one name at `src/App.jsx:183-191`), loading flags, the 100 ms timer and the error catch: these are user-interface effects with no bearing on the results.
- The page layout (`src/App.jsx:318-427`).
- Number cells: the model assumes every cell holds text and does not model number cells. In the source, `.trim()` and `.toLowerCase()` are called on the raw cell value (`src/App.jsx:165`, `src/App.jsx:173-176`, `src/App.jsx:198`, `src/App.jsx:242-288`) and throw on a number. The check catches that error at `src/App.jsx:310`, but the lookup does not catch it. A numeric `0` is also falsy at `src/App.jsx:246`.
- `parseInt` reads the digit groups as unbounded naturals. Very long digit runs, which JavaScript turns into imprecise floating-point numbers, are not modelled.
- `toLowerCase` is modelled for ASCII letters only. Non-ASCII case mapping is not modelled.
- `localeCompare` is modelled as lexicographic code-point order (`Sorting.StringLe`). The browser's locale collation is not modelled.
- Attendance.AnalyzeAttendance: React state updates are not modelled. The method returns the report instead of storing it.
- Lookup.LookupSchedule: `setScheduleInfo` is modelled as the returned list. A refused search leaves the previous list in place, so no list is returned.
- Pto.FilterRequests: on a refusal the leave list is left unchanged. The model returns the refusal and does not model the stored list.
- Repeated calls return the same report because Dafny functions are deterministic, so no lemma about repetition is stated.
