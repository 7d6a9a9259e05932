/** The attendance report (`components/ReportsDashboard.tsx`): records
    joined with their student's name, filtered by batch and by period, and
    sorted by date, then by name. Date parsing (`new Date(...)`) is the
    opaque `parse`, and `localeCompare` is the opaque total preorder
    `nameLe`. */
module ReportsDashboard {
  import opened Seqs
  import opened Text
  import opened Types
  import DataStore

  datatype ReportType = Daily | Monthly | Yearly

  /** The batch selector: "All" or one batch. */
  datatype BatchFilter = AllBatches | OnlyBatch(batch: Batch)

  /** A number read from a `Date`: `getFullYear()` and `getMonth()` give
      `NaN` for an Invalid Date, the result of parsing an unparsable string
      such as the empty one. */
  datatype Number = NaN | Finite(value: int)

  /** JavaScript's `===` on numbers: `NaN` equals nothing, not even itself. */
  function StrictEquals(a: Number, b: Number): (r: bool)
    ensures r <==> a == b && a != NaN
  {
    match (a, b)
    case (Finite(x), Finite(y)) => x == y
    case _ => false
  }

  /** What the view reads from a parsed date: its time value, year and
      month. */
  datatype Instant = Instant(time: int, year: Number, month: Number)

  /** A record together with the name of the student it resolves to. */
  datatype ReportRow = ReportRow(record: AttendanceRecord, studentName: string)

  /** `studentMap.get(id)`: the map is built from the roster in order, so
      the LAST student with the id wins. */
  function Resolve(students: seq<Student>, id: string): (r: Option<Student>)
    ensures r.None? <==> forall i :: 0 <= i < |students| ==> students[i].studentId != id
    ensures r.Some? ==> exists i :: && 0 <= i < |students| && students[i] == r.value && students[i].studentId == id
                                    && forall j :: i < j < |students| ==> students[j].studentId != id
  {
    match FindLastIndex(students, HasId(id))
    case None => None
    case Some(i) => Some(students[i])
  }

  /** `row` carries the name of the student its record's id resolves to. */
  predicate NamedAsResolved(row: ReportRow, students: seq<Student>)
  {
    Resolve(students, row.record.studentId).Some?
    && row.studentName == Resolve(students, row.record.studentId).value.name
  }

  /** The join: a record whose student id resolves is paired with the
      resolved student's name; the others are dropped. Each logged copy of
      a resolvable record gives one row. */
  function Joined(records: seq<AttendanceRecord>, students: seq<Student>): (r: seq<ReportRow>)
    ensures |r| <= |records|
    ensures forall row :: row in r <==> row.record in records && NamedAsResolved(row, students)
    ensures forall row :: multiset(r)[row] == if NamedAsResolved(row, students) then multiset(records)[row.record] else 0
  {
    if |records| == 0 then []
    else
      var rest := Joined(records[1..], students);
      assert records == [records[0]] + records[1..];
      match Resolve(students, records[0].studentId)
      case None => rest
      case Some(s) => [ReportRow(records[0], s.name)] + rest
  }

  /** The batch test and the period test of one record. A kept record is
      of the chosen batch. A daily report compares date strings; a monthly
      report keeps a record whose parsed year and month are numbers equal
      to the selected date's, and a yearly report one whose parsed year is.
      A record with an unparsable date is therefore never kept by a
      monthly or yearly report, not even when the selected date is the
      same string. */
  function Selected(rec: AttendanceRecord, kind: ReportType, selectedDate: string, filter: BatchFilter,
                     parse: string -> Instant): (b: bool)
    ensures b ==> filter.AllBatches? || rec.batch == filter.batch
    ensures kind == Daily ==> (b <==> (filter.AllBatches? || rec.batch == filter.batch) && rec.date == selectedDate)
    ensures kind == Monthly ==>
              (b <==> && (filter.AllBatches? || rec.batch == filter.batch)
                      && parse(rec.date).year.Finite? && parse(rec.date).year == parse(selectedDate).year
                      && parse(rec.date).month.Finite? && parse(rec.date).month == parse(selectedDate).month)
    ensures kind == Yearly ==>
              (b <==> && (filter.AllBatches? || rec.batch == filter.batch)
                      && parse(rec.date).year.Finite? && parse(rec.date).year == parse(selectedDate).year)
    ensures kind != Daily && parse(rec.date).year.NaN? ==> !b
  {
    && (filter.AllBatches? || rec.batch == filter.batch)
    && match kind
       case Daily => rec.date == selectedDate
       case Monthly =>
         StrictEquals(parse(rec.date).year, parse(selectedDate).year)
         && StrictEquals(parse(rec.date).month, parse(selectedDate).month)
       case Yearly => StrictEquals(parse(rec.date).year, parse(selectedDate).year)
  }

  function Keeps(kind: ReportType, selectedDate: string, filter: BatchFilter, parse: string -> Instant): ReportRow -> bool
  {
    (row: ReportRow) => Selected(row.record, kind, selectedDate, filter, parse)
  }

  /** The report order: a row of an earlier time goes strictly first; rows
      of the same time are ordered by name. */
  function RowLe(parse: string -> Instant, nameLe: (string, string) -> bool): (r: (ReportRow, ReportRow) -> bool)
    ensures forall a: ReportRow, b: ReportRow :: parse(a.record.date).time < parse(b.record.date).time ==> r(a, b) && !r(b, a)
    ensures forall a: ReportRow, b: ReportRow :: parse(a.record.date).time == parse(b.record.date).time ==>
              (r(a, b) <==> nameLe(a.studentName, b.studentName))
  {
    (a: ReportRow, b: ReportRow) =>
      || parse(a.record.date).time < parse(b.record.date).time
      || (parse(a.record.date).time == parse(b.record.date).time && nameLe(a.studentName, b.studentName))
  }

  /** Ordering by time, then by a total preorder on names, is a total
      preorder on rows. */
  lemma RowLeIsTotalPreorder(parse: string -> Instant, nameLe: (string, string) -> bool)
    requires TotalPreorder(nameLe)
    ensures TotalPreorder(RowLe(parse, nameLe))
  {
    var le := RowLe(parse, nameLe);
    forall a: ReportRow, b: ReportRow, c: ReportRow | le(a, b) && le(b, c)
      ensures le(a, c)
    {
      assert nameLe(a.studentName, b.studentName) && nameLe(b.studentName, c.studentName)
             ==> nameLe(a.studentName, c.studentName);
    }
    forall a: ReportRow, b: ReportRow
      ensures le(a, b) || le(b, a)
    {
      assert nameLe(a.studentName, b.studentName) || nameLe(b.studentName, a.studentName);
    }
  }

  /** `filteredRecords`: the joined rows that pass the batch and period
      tests, ordered by `RowLe`. */
  function FilteredRecords(records: seq<AttendanceRecord>, students: seq<Student>, kind: ReportType,
                           selectedDate: string, filter: BatchFilter,
                           parse: string -> Instant, nameLe: (string, string) -> bool): (r: seq<ReportRow>)
    requires TotalPreorder(nameLe)
    ensures multiset(r) == multiset(Filter(Joined(records, students), Keeps(kind, selectedDate, filter, parse)))
    ensures SortedBy(r, RowLe(parse, nameLe))
  {
    RowLeIsTotalPreorder(parse, nameLe);
    SortBy(Filter(Joined(records, students), Keeps(kind, selectedDate, filter, parse)), RowLe(parse, nameLe))
  }

  /** A row is in the report exactly when its record is in the log, its
      student id resolves, it carries the resolved student's name, and it
      passes the batch and period tests. */
  lemma ReportMembership(records: seq<AttendanceRecord>, students: seq<Student>, kind: ReportType,
                         selectedDate: string, filter: BatchFilter,
                         parse: string -> Instant, nameLe: (string, string) -> bool, row: ReportRow)
    requires TotalPreorder(nameLe)
    ensures row in FilteredRecords(records, students, kind, selectedDate, filter, parse, nameLe) <==>
              && row.record in records
              && Resolve(students, row.record.studentId).Some?
              && row.studentName == Resolve(students, row.record.studentId).value.name
              && Selected(row.record, kind, selectedDate, filter, parse)
  {
    var r := FilteredRecords(records, students, kind, selectedDate, filter, parse, nameLe);
    var kept := Filter(Joined(records, students), Keeps(kind, selectedDate, filter, parse));
    assert row in r <==> row in multiset(r);
    assert row in kept <==> row in multiset(kept);
  }

  /** A resolvable record that passes the batch and period tests is
      reported once per logged copy, with the resolved name; no other row
      is reported. */
  lemma ReportCount(records: seq<AttendanceRecord>, students: seq<Student>, kind: ReportType,
                    selectedDate: string, filter: BatchFilter,
                    parse: string -> Instant, nameLe: (string, string) -> bool, row: ReportRow)
    requires TotalPreorder(nameLe)
    ensures multiset(FilteredRecords(records, students, kind, selectedDate, filter, parse, nameLe))[row]
         == if NamedAsResolved(row, students) && Selected(row.record, kind, selectedDate, filter, parse)
            then multiset(records)[row.record] else 0
  {
    FilterMultiset(Joined(records, students), Keeps(kind, selectedDate, filter, parse));
  }

  /** With one batch selected, the report holds exactly the rows of the
      "All" report that belong to that batch: the batch selector excludes
      nothing else, and "All" excludes nothing by batch. */
  lemma BatchFilterMeaning(records: seq<AttendanceRecord>, students: seq<Student>, kind: ReportType,
                           selectedDate: string, batch: Batch,
                           parse: string -> Instant, nameLe: (string, string) -> bool, row: ReportRow)
    requires TotalPreorder(nameLe)
    ensures row in FilteredRecords(records, students, kind, selectedDate, OnlyBatch(batch), parse, nameLe) <==>
              row in FilteredRecords(records, students, kind, selectedDate, AllBatches, parse, nameLe)
              && row.record.batch == batch
  {
    ReportMembership(records, students, kind, selectedDate, OnlyBatch(batch), parse, nameLe, row);
    ReportMembership(records, students, kind, selectedDate, AllBatches, parse, nameLe, row);
  }

  /** In daily mode a resolvable record of the selected batch is reported
      exactly when its date string equals the selected date; no parsing is
      involved. */
  lemma DailyKeepsExactlyTheDay(records: seq<AttendanceRecord>, students: seq<Student>, selectedDate: string,
                                filter: BatchFilter, parse: string -> Instant, nameLe: (string, string) -> bool,
                                rec: AttendanceRecord)
    requires TotalPreorder(nameLe)
    requires rec in records
    requires Resolve(students, rec.studentId).Some?
    requires filter.AllBatches? || rec.batch == filter.batch
    ensures ReportRow(rec, Resolve(students, rec.studentId).value.name)
              in FilteredRecords(records, students, Daily, selectedDate, filter, parse, nameLe)
            <==> rec.date == selectedDate
  {
    ReportMembership(records, students, Daily, selectedDate, filter, parse, nameLe,
                     ReportRow(rec, Resolve(students, rec.studentId).value.name));
  }

  /** In monthly mode a resolvable record of the selected batch is reported
      exactly when its date parses to the selected date's year and month. */
  lemma MonthlyKeepsTheMonth(records: seq<AttendanceRecord>, students: seq<Student>, selectedDate: string,
                             filter: BatchFilter, parse: string -> Instant, nameLe: (string, string) -> bool,
                             rec: AttendanceRecord)
    requires TotalPreorder(nameLe)
    requires rec in records
    requires Resolve(students, rec.studentId).Some?
    requires filter.AllBatches? || rec.batch == filter.batch
    ensures ReportRow(rec, Resolve(students, rec.studentId).value.name)
              in FilteredRecords(records, students, Monthly, selectedDate, filter, parse, nameLe)
            <==> && parse(rec.date).year == parse(selectedDate).year && parse(rec.date).year != NaN
                 && parse(rec.date).month == parse(selectedDate).month && parse(rec.date).month != NaN
  {
    ReportMembership(records, students, Monthly, selectedDate, filter, parse, nameLe,
                     ReportRow(rec, Resolve(students, rec.studentId).value.name));
  }

  /** In yearly mode a resolvable record of the selected batch is reported
      exactly when its date parses to the selected date's year. */
  lemma YearlyKeepsTheYear(records: seq<AttendanceRecord>, students: seq<Student>, selectedDate: string,
                           filter: BatchFilter, parse: string -> Instant, nameLe: (string, string) -> bool,
                           rec: AttendanceRecord)
    requires TotalPreorder(nameLe)
    requires rec in records
    requires Resolve(students, rec.studentId).Some?
    requires filter.AllBatches? || rec.batch == filter.batch
    ensures ReportRow(rec, Resolve(students, rec.studentId).value.name)
              in FilteredRecords(records, students, Yearly, selectedDate, filter, parse, nameLe)
            <==> parse(rec.date).year == parse(selectedDate).year && parse(rec.date).year != NaN
  {
    ReportMembership(records, students, Yearly, selectedDate, filter, parse, nameLe,
                     ReportRow(rec, Resolve(students, rec.studentId).value.name));
  }

  /** A record whose date does not parse appears in no monthly or yearly
      report, whatever date is selected. */
  lemma UnparsableDateLeavesPeriodReports(records: seq<AttendanceRecord>, students: seq<Student>, kind: ReportType,
                                          selectedDate: string, filter: BatchFilter,
                                          parse: string -> Instant, nameLe: (string, string) -> bool,
                                          row: ReportRow)
    requires TotalPreorder(nameLe)
    requires kind != Daily
    requires parse(row.record.date).year == NaN
    ensures row !in FilteredRecords(records, students, kind, selectedDate, filter, parse, nameLe)
  {
    ReportMembership(records, students, kind, selectedDate, filter, parse, nameLe, row);
  }

  /** After a student is deleted, none of their attendance records appears
      in any report, although the records stay in the log. */
  lemma DeletedStudentLeavesReport(st: DataStore.Store, id: string, kind: ReportType, selectedDate: string,
                                   filter: BatchFilter, parse: string -> Instant, nameLe: (string, string) -> bool)
    requires TotalPreorder(nameLe)
    ensures var after := DataStore.DeleteStudent(st, id);
            && after.attendance == st.attendance
            && forall row :: row in FilteredRecords(after.attendance, after.students, kind, selectedDate, filter, parse, nameLe)
                 ==> row.record.studentId != id
  {
    var after := DataStore.DeleteStudent(st, id);
    forall row | row in FilteredRecords(after.attendance, after.students, kind, selectedDate, filter, parse, nameLe)
      ensures row.record.studentId != id
    {
      ReportMembership(after.attendance, after.students, kind, selectedDate, filter, parse, nameLe, row);
    }
  }

  // ---------------------------------------------------------------------
  // The period input
  // ---------------------------------------------------------------------

  /** `handleDateChange`: a year typed in yearly mode is padded to the first
      of January; other modes store the input as it is. */
  function DateChange(kind: ReportType, value: string): (r: string)
    ensures kind == Yearly ==> value <= r && r[|value|..] == "-01-01"
    ensures kind != Yearly ==> r == value
  {
    if kind == Yearly then value + "-01-01" else value
  }

  /** `getDateValue`: the year (first four characters) in yearly mode, the
      month (first seven) in monthly mode, the whole date in daily mode. */
  function DateValue(kind: ReportType, selectedDate: string): (r: string)
    ensures r <= selectedDate
    ensures kind == Yearly ==> |r| == Min(4, |selectedDate|)
    ensures kind == Monthly ==> |r| == Min(7, |selectedDate|)
    ensures kind == Daily ==> r == selectedDate
  {
    match kind
    case Yearly => Prefix(selectedDate, 4)
    case Monthly => Prefix(selectedDate, 7)
    case Daily => selectedDate
  }

  /** Typing a value and reading it back gives the value again: in yearly
      mode for a four-character year, in monthly mode for any value of at
      most seven characters, and always in daily mode. */
  lemma DateInputRoundTrip(kind: ReportType, value: string)
    requires kind == Yearly ==> |value| == 4
    requires kind == Monthly ==> |value| <= 7
    ensures DateValue(kind, DateChange(kind, value)) == value
  {
    if kind == Yearly {
      assert (value + "-01-01")[..4] == value;
    }
  }

  /** A year of other than four characters does not survive the round
      trip: the field shows the first four characters of the padded date. */
  lemma ShortYearIsPadded()
    ensures DateValue(Yearly, DateChange(Yearly, "123")) == "123-"
  {
    assert ("123" + "-01-01")[..4] == "123-";
  }
}
