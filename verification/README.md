# Attendance and fees management: a Dafny model

The system is the office application of a small Qur'an institute, the
Anjuman-e-Faizanul Quraan. It keeps three lists in memory:

- the student roster;
- the attendance records, each one per student for one (date, batch) slot;
- the log of monthly fee payments.

Around these lists sit four screens:

- the attendance screen keeps a draft of statuses while the register for
  one batch on one day is taken, then saves it;
- the fee screen searches students, shows a student's recent payments and
  logs new ones;
- the report screen joins attendance records with student names, filters
  them by batch and period, and sorts them;
- the administrator's dashboard lists students with outstanding fees and
  exports a monthly attendance summary and a fee-collection log as CSV.

The model is functional. The store is a record of three sequences, and
every store operation is a pure function from one store to the next.
Every screen computation is a pure function of a store snapshot and the
screen's inputs. The modules follow the program:

| module | file | models |
|---|---|---|
| `Types` | `types.dfy` | `types.ts`, `constants.ts` |
| `DataStore` | `data_store.dfy` | `hooks/useMockData.ts` |
| `AdminDashboard` | `admin_dashboard.dfy` | `components/AdminDashboard.tsx` |
| `ReportsDashboard` | `reports_dashboard.dfy` | `components/ReportsDashboard.tsx` |
| `FeesManager` | `fees_manager.dfy` | `components/FeesManager.tsx` |
| `AttendanceTaker` | `attendance_taker.dfy` | `components/AttendanceTaker.tsx` |
| `CsvExporter` | `csv_exporter.dfy` | `utils/csvExporter.ts` |
| `Seqs`, `Text` | `seqs.dfy`, `text.dfy` | the JavaScript array and string methods the code uses |

The `Seqs` and `Text` modules cover `filter`, `find`, `findIndex`, `slice`,
a stable comparator sort, `startsWith`, `includes`, `toLowerCase`,
`substring`, `join` and `split`.

Whatever the program reads from its environment becomes a parameter:

- `stamp` and `clock`: the clock readings `Date.now()` that ids are built
  from. `stamp` is one reading, for a payment or a student. `clock(i)` is
  the reading taken for the i-th record of an attendance submission,
  because the code reads the clock once per record;
- `parse`: the `new Date(...)` conversion;
- `nameLe`: `localeCompare`, required to be a total preorder;
- `encode`: `JSON.stringify` of one CSV cell;
- `parseAmount`: `parseFloat` of the amount field;
- the report month.

Three behaviours of the code are worth stating up front, because a reader
might expect otherwise:

- **Outstanding fees.** The code looks up a student's payment for the month
  with `find` (`components/AdminDashboard.tsx:20`). Only the first row in
  log order for the student and month counts. A partial first payment keeps
  the student outstanding whatever later rows pay, and amounts are never
  summed.
- **Student ids.** A new id is "S" followed by the last six characters of
  the clock reading (`hooks/useMockData.ts:95`). Two students can therefore
  get the same id, and nothing here assumes that ids are unique.
- **Resolving an id to a student.** The report screen builds a `Map` from
  the roster, so the last student with an id wins
  (`components/ReportsDashboard.tsx:15-17`). The fee log uses `find`, so
  the first student wins, and its `|| 'N/A'` also turns an empty name into
  "N/A" (`components/AdminDashboard.tsx:69`).

## Model

| member | source | states |
|---|---|---|
| Types.EveryBatchListed | constants.ts:3 | The batch list names each of Morning, Afternoon and Evening exactly once. |
| Text.StartsWith | components/AdminDashboard.tsx:45 | A string starts with a prefix iff the prefix is no longer and agrees with it position by position. |
| Text.Includes | components/FeesManager.tsx:19-20 | A string includes a query iff the query occurs at some position of it. |
| Types.ActiveInBatch | components/AttendanceTaker.tsx:61-63 | A student is selected iff they are on the roster, in the batch and Active. Each is selected as many times as on the roster, in roster order. |
| DataStore.AddAttendance | hooks/useMockData.ts:52-63 | After a submission, the store holds the records of every other slot in their old order, then the slot's new records. The slot's records carry the submitted (student, status) pairs in order, and the i-th record's id is built from the i-th clock reading. Students and payments are unchanged. |
| DataStore.SlotOfSubmission | hooks/useMockData.ts:55-62 | Records outside a slot followed by records inside it form a list whose slot is exactly the second part. |
| DataStore.AddAttendanceKeepsOtherSlots | hooks/useMockData.ts:55-62 | A submission for one (date, batch) leaves the records of every other (date, batch) exactly as they were. |
| DataStore.OtherSlotAfterSubmission | hooks/useMockData.ts:55-62 | Dropping a slot's records and appending records of that slot leaves every other slot's record list unchanged. |
| DataStore.SubmissionKeepsOutside | hooks/useMockData.ts:55-62 | After a submission, the records outside its slot are exactly those outside it before. |
| DataStore.OthersOfSubmission | hooks/useMockData.ts:55-62 | Records outside a slot followed by records inside it: filtering out the slot gives back the first part. |
| DataStore.AddAttendanceIdempotent | hooks/useMockData.ts:52-63 | Submitting the same entries twice leaves the same records as submitting once, ignoring record ids; nothing is duplicated. With the same clock readings the two stores are equal. |
| DataStore.MarkBatchAsHoliday | hooks/useMockData.ts:66-80 | Marking a holiday is the attendance submission of a Holiday entry for each Active student of the batch. |
| DataStore.HolidaySlot | hooks/useMockData.ts:68-78 | After a holiday is marked, the slot holds one Holiday record per Active student of the batch, in roster order. Every record in it belongs to an Active roster student of the batch, so none is for an Inactive student. |
| DataStore.HolidayPairs | hooks/useMockData.ts:71-77 | Records carrying the Holiday entries of some students have those students' ids in order, all with status Holiday. |
| DataStore.EntriesPairwise | hooks/useMockData.ts:56-61 | Records whose (student, status) pairs equal a list of entries agree with it index by index. |
| DataStore.AddFeePayment | hooks/useMockData.ts:82-90 | Exactly one payment is appended, carrying the submitted fields, the due amount 100 and the recorder "Admin Staff". Earlier payments, students and attendance are unchanged. |
| DataStore.NewStudentId | hooks/useMockData.ts:95 | A new id is "S" followed by the last six characters of the clock reading (all of it when shorter), so it is at most seven characters long. |
| DataStore.StudentIdsCanCollide | hooks/useMockData.ts:95 | Two different clock readings can give the same student id, so ids are not unique by construction. |
| DataStore.AddStudent | hooks/useMockData.ts:92-98 | Exactly one student is appended, with the submitted fields and the derived id. Earlier students, attendance and payments are unchanged. |
| DataStore.AddedStudentIsFetched | hooks/useMockData.ts:92-98 | Looking up a freshly added student by id returns the submitted fields with the new id, provided no earlier student had that id. |
| DataStore.UpdateStudent | hooks/useMockData.ts:100-102 | The roster keeps its length and order. Every student with the submitted id is replaced by the submitted record, and every other student is untouched. |
| DataStore.UpdateMissingIsNoOp | hooks/useMockData.ts:101 | Updating a student whose id is not on the roster leaves the store unchanged. |
| DataStore.UpdateIdempotent | hooks/useMockData.ts:101 | Applying an update twice equals applying it once. |
| DataStore.DeleteStudent | hooks/useMockData.ts:104-106 | Exactly the students with the id are removed; the rest keep their order and multiplicity. Attendance and payments are untouched. |
| AdminDashboard.OutstandingStudents | components/AdminDashboard.tsx:17-23 | The listed students are Active roster students, in roster order. Every Active student who owes for the month appears as often as on the roster, and no one else appears. |
| AdminDashboard.IsOutstanding | components/AdminDashboard.tsx:20-21 | A student owes for the month iff every first payment row for them and the month, in log order, pays less than 100. With no such row they owe. |
| AdminDashboard.OutstandingIffFirstPayment | components/AdminDashboard.tsx:18-22 | A student is listed iff they are on the roster, Active, and either have no payment row for the month or the first such row, in log order, pays less than 100. |
| AdminDashboard.LaterPaymentsDoNotClear | components/AdminDashboard.tsx:20-21 | A partial first payment keeps the student listed whatever rows are logged after it. |
| AdminDashboard.FirstFullPaymentClears | components/AdminDashboard.tsx:20-21 | A first payment of at least 100 keeps the student off the list whatever rows are logged after it. |
| AdminDashboard.ClassDates | components/AdminDashboard.tsx:34-39 | A date is a class day of the batch iff some record of the month for that batch, dated that day, is not a Holiday. |
| AdminDashboard.ClassDaysByBatch | components/AdminDashboard.tsx:33-42 | Every batch has an entry: the number of its distinct class days in the month. |
| AdminDashboard.Percentage | components/AdminDashboard.tsx:52 | The percentage is 0 when the batch held no class. Otherwise it times the class days equals 100 times the attended days, and it lies in 0..100 when attended days do not exceed class days; there is no division by zero. |
| AdminDashboard.SummaryRow | components/AdminDashboard.tsx:44-60 | A row carries the student's name and the month name. Attended days are the number of the student's Present or Late records dated in the month, and holidays the number of their Holiday records in the month. The percentage is that of attended days over the class days of the student's batch, 0 when the batch is missing. |
| AdminDashboard.SummaryRowFacts | components/AdminDashboard.tsx:44-60 | A summary row carries the student's name and the month name, the two counts above, and the percentage of attended days over the batch's class days (0 with no class day). |
| AdminDashboard.AttendanceSummary | components/AdminDashboard.tsx:44-61 | The summary has one row per roster student, Inactive ones included, in roster order. |
| AdminDashboard.AttendanceSummaryRows | components/AdminDashboard.tsx:44-61 | Every row of the summary, stated directly over all records: name, month, attended days, holidays and percentage as above. |
| AdminDashboard.DisplayName | components/AdminDashboard.tsx:69 | The shown name is "N/A" when no student has the id. Otherwise it is the name of the first student with the id, or "N/A" when that name is empty. |
| AdminDashboard.FeesLog | components/AdminDashboard.tsx:64-74 | The log has one row per payment of the month, in log order. Each row shows that payment's fields and the student's display name. |
| AdminDashboard.GenerateReports | components/AdminDashboard.tsx:62-75 | There is no attendance file exactly when the roster is empty, and no fee file exactly when no payment is for the month. |
| AdminDashboard.HeadersDistinct | components/AdminDashboard.tsx:54-60 | The five attendance column names are pairwise distinct. |
| AdminDashboard.AttendanceLine | components/AdminDashboard.tsx:54-60 | A summary row's CSV cells are exactly its name, month, attended days, holidays and percentage, encoded in that column order. |
| AdminDashboard.AttendanceFileLayout | components/AdminDashboard.tsx:54-62 | The attendance file's first line is the five column names joined by commas. Line i + 1 holds the encoded cells of the i-th student's row. |
| AdminDashboard.FeeFileHeader | components/AdminDashboard.tsx:66-75 | The fee file's first line is the seven column names joined by commas. |
| AdminDashboard.FeeHeadersDistinct | components/AdminDashboard.tsx:67-73 | The seven fee column names are pairwise distinct. |
| AdminDashboard.FeeLine | components/AdminDashboard.tsx:66-74 | A fee row's CSV cells are exactly its payment id, student id, name, month, amount, date and recorder, encoded in that column order. |
| AdminDashboard.AttendanceCsv | components/AdminDashboard.tsx:54-62 | The CSV of a summary is absent iff the summary is empty. Otherwise it is the five column names, then one line per row with that row's values in column order, lines joined by CRLF. |
| AdminDashboard.FeeCsv | components/AdminDashboard.tsx:66-75 | The same for a fee log and its seven columns. |
| AdminDashboard.AttendanceFile | components/AdminDashboard.tsx:44-62 | The attendance file is absent iff the roster is empty. Otherwise it is the header line, then one line per student of the monthly summary, in roster order. |
| AdminDashboard.FeeFile | components/AdminDashboard.tsx:64-75 | The fee file is absent iff no payment is for the month. Otherwise it is the header line, then one line per payment of the month's fee log, in log order. |
| ReportsDashboard.Resolve | components/ReportsDashboard.tsx:15-17 | An id resolves iff some roster student has it, and then to the last student with it. |
| ReportsDashboard.Joined | components/ReportsDashboard.tsx:20-26 | A joined row exists iff its record is in the log, its id resolves, and it carries the resolved student's name. Such a row occurs as many times as its record is logged, and records that do not resolve are dropped. |
| ReportsDashboard.StrictEquals | components/ReportsDashboard.tsx:39-42 | Two numbers read from dates are `===` iff they are equal and not `NaN`. |
| ReportsDashboard.Selected | components/ReportsDashboard.tsx:28-45 | A kept record is of the chosen batch. In daily mode a record of the batch is kept iff its date string equals the selected one. In monthly mode it is kept iff its parsed year and month are numbers equal to the selected date's. In yearly mode it is kept iff its parsed year is. A record whose date does not parse is never kept in monthly or yearly mode. |
| ReportsDashboard.RowLe | components/ReportsDashboard.tsx:47 | A row with an earlier time goes strictly first. Rows with equal times are ordered by name. |
| ReportsDashboard.RowLeIsTotalPreorder | components/ReportsDashboard.tsx:47 | Ordering by date, then by a total preorder on names, is a total preorder on report rows. |
| ReportsDashboard.FilteredRecords | components/ReportsDashboard.tsx:19-48 | The report is a permutation of the joined rows that pass the batch and period tests, sorted by date and then by name. |
| ReportsDashboard.ReportCount | components/ReportsDashboard.tsx:20-47 | A row occurs in the report as many times as its record is logged if it carries the resolved name and passes the batch and period tests, and otherwise not at all. |
| ReportsDashboard.ReportMembership | components/ReportsDashboard.tsx:20-46 | A row is in the report iff its record is logged, its id resolves, it carries the resolved name, and it passes the batch and period tests. |
| ReportsDashboard.BatchFilterMeaning | components/ReportsDashboard.tsx:28-30 | The report for one batch holds exactly the rows of the "All" report that belong to that batch. |
| ReportsDashboard.DailyKeepsExactlyTheDay | components/ReportsDashboard.tsx:36-37 | In daily mode, a resolvable record of the selected batch is reported iff its date string equals the selected date. |
| ReportsDashboard.MonthlyKeepsTheMonth | components/ReportsDashboard.tsx:38-40 | In monthly mode, a resolvable record of the selected batch is reported iff its parsed year and month equal the selected date's and are not `NaN`. |
| ReportsDashboard.YearlyKeepsTheYear | components/ReportsDashboard.tsx:41-42 | In yearly mode, a resolvable record of the selected batch is reported iff its parsed year equals the selected date's and is not `NaN`. |
| ReportsDashboard.UnparsableDateLeavesPeriodReports | components/ReportsDashboard.tsx:32-42 | A record whose date parses to an Invalid Date appears in no monthly or yearly report, whatever date is selected. |
| ReportsDashboard.DeletedStudentLeavesReport | components/ReportsDashboard.tsx:21-23 | After a student is deleted, their records stay in the log but appear in no report. |
| ReportsDashboard.DateChange | components/ReportsDashboard.tsx:74-82 | In yearly mode the input is stored followed by "-01-01"; other modes store it unchanged. |
| ReportsDashboard.DateValue | components/ReportsDashboard.tsx:84-92 | The shown value is a prefix of the stored date: 4 characters in yearly mode, 7 in monthly mode, all of it in daily mode (fewer when the date is shorter). |
| ReportsDashboard.DateInputRoundTrip | components/ReportsDashboard.tsx:75-91 | Storing an input and showing it gives the input back: any 4-character year, any month value of at most 7 characters, and any daily value. |
| ReportsDashboard.ShortYearIsPadded | components/ReportsDashboard.tsx:78-86 | A three-character year does not come back: "123" is shown as "123-". |
| FeesManager.Matches | components/FeesManager.tsx:18-20 | A student matches iff the lowercased query occurs at some position of their lowercased name or lowercased id. The empty query matches everyone. |
| FeesManager.SearchStudents | components/FeesManager.tsx:16-22 | An empty query finds nothing. Otherwise the result is the first five matching roster students, in roster order. A student matches when the query, lowercased, occurs in their lowercased name or id. |
| FeesManager.SearchIsCompleteBelowLimit | components/FeesManager.tsx:18-21 | When fewer than five students are found, every matching student is among them. |
| FeesManager.SearchIgnoresCase | components/FeesManager.tsx:18-20 | Lowercasing the query does not change the result. |
| FeesManager.NewerFirst | components/FeesManager.tsx:28 | The comparator is a total preorder. A payment goes strictly before another iff it was paid strictly later. |
| FeesManager.HistorySorted | components/FeesManager.tsx:26-28 | The student's payments are a permutation of the matching log rows, sorted by payment date, latest first. |
| FeesManager.PaymentHistory | components/FeesManager.tsx:24-30 | The history is empty without a selected student. Otherwise it holds min(6, n) of the student's n payments, each at most as often as it is logged, and nothing of any other student, latest first. |
| FeesManager.LatestOf | components/FeesManager.tsx:26-29 | The shown payments are min(6, n) of the student's n payments, a sub-multiset of them, sorted latest first. |
| FeesManager.HistoryShowsLatest | components/FeesManager.tsx:28-29 | A payment of the student left out of the history is no later than any payment shown. |
| FeesManager.HandleAddPayment | components/FeesManager.tsx:37-45 | Nothing happens without a selected student or with an empty amount. Otherwise exactly one payment is logged, with the student's id, the chosen month and date and the parsed amount. |
| FeesManager.LoggedPaymentIsListed | components/FeesManager.tsx:37-45 | A logged payment appears in the student's history, unless the history is full with six payments at least as recent. |
| AttendanceTaker.ToggleOptions | components/AttendanceTaker.tsx:11 | The per-student toggle offers Present, Absent and Late and never Holiday. |
| AttendanceTaker.Get | components/AttendanceTaker.tsx:136 | Reading a draft key gives nothing iff the key is absent, and otherwise a status stored under it. When keys are distinct, a key reads its own entry's status. |
| AttendanceTaker.SetStatus | components/AttendanceTaker.tsx:76-78 | Setting a status adds the key if it is new, at the end, and otherwise keeps every key in place. Entries of other students are unchanged, and distinct keys stay distinct. |
| AttendanceTaker.SetStatusGet | components/AttendanceTaker.tsx:76-78 | After a change, the changed student reads the new status and every other student reads as before. |
| AttendanceTaker.UpdateGet | components/AttendanceTaker.tsx:77 | The same, when the student already has an entry. |
| AttendanceTaker.AppendGet | components/AttendanceTaker.tsx:77 | The same, when the student is new to the draft. |
| AttendanceTaker.Fill | components/AttendanceTaker.tsx:69-72 | Filling writes one key per student id, no key twice and no other key. |
| AttendanceTaker.FillValues | components/AttendanceTaker.tsx:69-72 | Every key of a filled draft reads the value computed for that key. |
| AttendanceTaker.FirstStatus | components/AttendanceTaker.tsx:70-71 | A student's status is that of their first record in the slot, or Absent when they have none. |
| AttendanceTaker.ExistingStatus | components/AttendanceTaker.tsx:67-71 | The same, for the (date, batch) slot taken from the whole log. |
| AttendanceTaker.InitialDraft | components/AttendanceTaker.tsx:65-74 | The opening draft has exactly the batch's Active students as keys, each reading its existing status. |
| AttendanceTaker.MarkAllPresent | components/AttendanceTaker.tsx:88-93 | The draft has exactly the batch's Active students as keys, all Present. |
| AttendanceTaker.SaveAttendance | components/AttendanceTaker.tsx:98-100 | Saving replaces the slot with the draft's entries, in draft order, after the other slots' records. Students and payments are unchanged. |
| AttendanceTaker.SaveThenReload | components/AttendanceTaker.tsx:98-100 | After a save, every draft key's reloaded status is the status in the draft. |
| AttendanceTaker.ReadBackEntries | components/AttendanceTaker.tsx:99 | Records carrying a draft's entries in order give back the draft's status for every key. |
| AttendanceTaker.SaveThenReloadDraft | components/AttendanceTaker.tsx:65-100 | When the draft holds exactly the batch's Active students, the draft rebuilt after saving agrees with it key for key. |
| AttendanceTaker.StartsOnHoliday | components/AttendanceTaker.tsx:70-71 | A student with a record in an all-Holiday slot starts on Holiday. |
| AttendanceTaker.HolidayThenReload | components/AttendanceTaker.tsx:80-86 | After a batch is marked as a holiday, the screen reopens with every Active student of the batch on Holiday. |
| CsvExporter.KeysOf | utils/csvExporter.ts:8 | The header is the first row's keys, in field order. |
| CsvExporter.Lookup | utils/csvExporter.ts:13 | A lookup finds nothing iff the key is absent. Otherwise it gives the value of the first field with the key. |
| CsvExporter.LookupDistinct | utils/csvExporter.ts:13 | In a row with distinct keys, every key finds its own field. |
| CsvExporter.Cells | utils/csvExporter.ts:12-14 | A data line has one cell per header: the encoded lookup of that header. |
| CsvExporter.CellsAreValues | utils/csvExporter.ts:11-14 | When a row's keys are the distinct headers in order, its cells are exactly its values, encoded in field order. |
| CsvExporter.CsvLines | utils/csvExporter.ts:8-16 | There are n + 1 lines: the header joined by commas, then one line per row, in row order. |
| CsvExporter.GenerateCsv | utils/csvExporter.ts:2-18 | There is no file iff there are no rows; otherwise the file is the lines joined by CRLF. |
| CsvExporter.GenerateCsvLayout | utils/csvExporter.ts:2-18 | When the first row's keys are the headers and every row's cells are given, the file is the header line and then those cells, each line comma-separated, joined by CRLF. |
| CsvExporter.CharNotInJoin | utils/csvExporter.ts:14-18 | A character absent from the separator and from every part is absent from their join. |
| CsvExporter.CsvReadBack | utils/csvExporter.ts:8-18 | Provided no header or cell holds a comma or a carriage return, splitting the file at CRLF gives n + 1 lines. The first splits at commas into the header, and line i + 1 into row i's cells. |

## Left out

- Clock-derived ids (`Date.now()`): the readings are the `stamp` and `clock` parameters, and nothing is claimed about ids being unique or about successive readings being ordered.
- Date parsing and time zones: `new Date(...)` is the opaque `parse`. The report screen's month and year comparisons are modelled over what it returns, `NaN` for an Invalid Date included.
- The dashboard's "last month" computation (`setMonth`, `toISOString`, `toLocaleString`): the report month and its display name are inputs.
- Floating point: amounts are integers; `parseFloat` is the opaque `parseAmount`; the percentage is an exact real, and `toFixed(1)` with the "%" suffix belongs to the encoder.
- `localeCompare`: the opaque `nameLe`, assumed to be a total preorder.
- `JSON.stringify` with its null replacer: the opaque `encode`. The only effect of `alert` on the empty path is that no file is produced.
- The Blob and anchor download of a CSV file: browser I/O.
- The AI summary (`services/geminiService.ts`): a network call.
- React rendering, hooks and context, `window.confirm` before a holiday, toasts, and the seeded initial roster and payments: interface and fixture data. The model is stated for every store.
- JavaScript objects order integer-like keys (such as "12") before the others. The draft keeps plain insertion order, which matches the program for its "S…" ids only.
- Lowercasing covers ASCII letters only; `toLowerCase` on other characters is not modelled.
- ReportsDashboard.FilteredRecords: states permutation and order but not that the sort is stable. The comparator is assumed to be a total preorder, so the time value of a date is an integer: a `NaN` time from an unparsable date, which makes the source's comparator fall back to names alone and stop being an order, is not modelled for the sort.
- FeesManager.HistorySorted: the same: the order of payments with equal dates is not stated.
- The screens' state handling (`handleSelectStudent`, clearing the search, resetting the amount field) only moves values between inputs; the model takes those values as parameters.
- The roster screen (`components/StudentManager.tsx`) and `App.tsx` are not part of this model; they only call the store operations modelled here.
