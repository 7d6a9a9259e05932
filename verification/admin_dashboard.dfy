/** The administrator's views (`components/AdminDashboard.tsx`): the
    outstanding-fee list for a month, and the monthly attendance summary and
    fee-collection log that are exported as CSV. The report month is an
    input; the source derives it from the clock. */
module AdminDashboard {
  import opened Seqs
  import opened Text
  import opened Types
  import opened CsvExporter

  // ---------------------------------------------------------------------
  // Outstanding fees
  // ---------------------------------------------------------------------

  /** Selects the payment rows of one student for one month. */
  function PaysFor(studentId: string, month: string): FeesPayment -> bool
  {
    (p: FeesPayment) => p.studentId == studentId && p.monthYear == month
  }

  /** Index `i` holds the first payment row, in log order, of the student
      for the month. */
  ghost predicate FirstPaymentAt(payments: seq<FeesPayment>, studentId: string, month: string, i: int)
  {
    && 0 <= i < |payments|
    && PaysFor(studentId, month)(payments[i])
    && forall j :: 0 <= j < i ==> !PaysFor(studentId, month)(payments[j])
  }

  /** A student owes for the month when the first payment row found for
      them is missing or below the monthly due amount: whatever row comes
      first pays less than is due. */
  function IsOutstanding(payments: seq<FeesPayment>, studentId: string, month: string): (b: bool)
    ensures b <==> forall i :: FirstPaymentAt(payments, studentId, month, i) ==> payments[i].amountPaid < MonthlyFeeDue
  {
    var k := FindIndex(payments, PaysFor(studentId, month));
    assert k.Some? ==> FirstPaymentAt(payments, studentId, month, k.value);
    assert forall i :: FirstPaymentAt(payments, studentId, month, i) ==> k == Some(i);
    match Find(payments, PaysFor(studentId, month))
    case None => true
    case Some(p) => p.amountPaid < MonthlyFeeDue
  }

  /** `outstandingStudents`: the Active students who owe for the month, in
      roster order, each as often as on the roster. */
  function OutstandingStudents(students: seq<Student>, payments: seq<FeesPayment>, month: string): (r: seq<Student>)
    ensures IsSubseq(r, students)
    ensures forall s :: s in r ==> s in students && s.status == Active
    ensures forall s :: multiset(r)[s] ==
              if s.status == Active && IsOutstanding(payments, s.studentId, month) then multiset(students)[s] else 0
  {
    var owes := (s: Student) => s.status == Active && IsOutstanding(payments, s.studentId, month);
    FilterMultiset(students, owes);
    Filter(students, owes)
  }

  /** A roster student is listed exactly when they are Active and either no
      payment row exists for them and the month, or the first such row pays
      less than the due amount; later rows are never consulted and amounts
      are never summed. */
  lemma OutstandingIffFirstPayment(students: seq<Student>, payments: seq<FeesPayment>, month: string, s: Student)
    ensures s in OutstandingStudents(students, payments, month) <==>
              && s in students
              && s.status == Active
              && ((forall i :: 0 <= i < |payments| ==> !PaysFor(s.studentId, month)(payments[i]))
                  || exists i :: FirstPaymentAt(payments, s.studentId, month, i) && payments[i].amountPaid < MonthlyFeeDue)
  {
    var found := Find(payments, PaysFor(s.studentId, month));
    if found.Some? {
      var k := FindIndex(payments, PaysFor(s.studentId, month)).value;
      assert FirstPaymentAt(payments, s.studentId, month, k);
      forall i | FirstPaymentAt(payments, s.studentId, month, i)
        ensures i == k
      {
      }
    }
  }

  /** Once the first row for a student and month is a partial payment, no
      later row clears the debt, however much it pays. */
  lemma LaterPaymentsDoNotClear(students: seq<Student>, payments: seq<FeesPayment>, later: seq<FeesPayment>,
                                month: string, s: Student, k: int)
    requires s in students && s.status == Active
    requires FirstPaymentAt(payments, s.studentId, month, k)
    requires payments[k].amountPaid < MonthlyFeeDue
    ensures s in OutstandingStudents(students, payments + later, month)
  {
    assert FirstPaymentAt(payments + later, s.studentId, month, k);
    OutstandingIffFirstPayment(students, payments + later, month, s);
  }

  /** Once the first row for a student and month pays the due amount, the
      student is not listed, whatever later rows say. */
  lemma FirstFullPaymentClears(students: seq<Student>, payments: seq<FeesPayment>, later: seq<FeesPayment>,
                               month: string, s: Student, k: int)
    requires FirstPaymentAt(payments, s.studentId, month, k)
    requires payments[k].amountPaid >= MonthlyFeeDue
    ensures s !in OutstandingStudents(students, payments + later, month)
  {
    var all := payments + later;
    assert FirstPaymentAt(all, s.studentId, month, k);
    assert PaysFor(s.studentId, month)(all[k]);
    forall i | FirstPaymentAt(all, s.studentId, month, i)
      ensures i == k
    {
    }
    OutstandingIffFirstPayment(students, all, month, s);
  }

  // ---------------------------------------------------------------------
  // Monthly attendance summary
  // ---------------------------------------------------------------------

  /** A record that makes its date a class day of `batch` in `month`. */
  predicate IsClassDay(r: AttendanceRecord, month: string, batch: Batch)
  {
    StartsWith(r.date, month) && r.batch == batch && r.status != Holiday
  }

  /** The dates of `month` on which `batch` has at least one non-Holiday
      record (the `uniqueDates` set). */
  function ClassDates(records: seq<AttendanceRecord>, month: string, batch: Batch): (r: set<string>)
    ensures forall d :: d in r <==>
              exists i :: 0 <= i < |records| && records[i].date == d && IsClassDay(records[i], month, batch)
    decreases |records|
  {
    if |records| == 0 then {}
    else
      var n := |records| - 1;
      var earlier := ClassDates(records[..n], month, batch);
      assert forall i :: 0 <= i < n ==> records[..n][i] == records[i];
      if IsClassDay(records[n], month, batch) then earlier + {records[n].date} else earlier
  }

  /** `classDaysByBatch`: the number of class days of every batch. */
  function ClassDaysByBatch(records: seq<AttendanceRecord>, month: string): (r: map<Batch, nat>)
    ensures forall b :: b in r && r[b] == |ClassDates(records, month, b)|
  {
    EveryBatchListed();
    map b | b in Batches :: |ClassDates(records, month, b)|
  }

  /** The attendance percentage, as an exact ratio; zero when the batch held
      no class. */
  function Percentage(attended: nat, classDays: nat): (p: real)
    ensures classDays == 0 ==> p == 0.0
    ensures classDays > 0 ==> p * (classDays as real) == (attended as real) * 100.0
    ensures classDays > 0 && attended <= classDays ==> 0.0 <= p <= 100.0
  {
    if classDays > 0 then (attended as real / classDays as real) * 100.0 else 0.0
  }

  /** The student's records dated in the month. */
  function InMonthOf(studentId: string, month: string): AttendanceRecord -> bool
  {
    (r: AttendanceRecord) => r.studentId == studentId && StartsWith(r.date, month)
  }

  function HasStatus(status: AttendanceStatus): AttendanceRecord -> bool
  {
    (r: AttendanceRecord) => r.status == status
  }

  /** The student's records of the month with status `status`. */
  function MarkedAs(studentId: string, month: string, status: AttendanceStatus): AttendanceRecord -> bool
  {
    (r: AttendanceRecord) => r.studentId == studentId && StartsWith(r.date, month) && r.status == status
  }

  /** The student's records of the month that count as attended. */
  function Attended(studentId: string, month: string): AttendanceRecord -> bool
  {
    (r: AttendanceRecord) => r.studentId == studentId && StartsWith(r.date, month) && (r.status == Present || r.status == Late)
  }

  datatype AttendanceRow = AttendanceRow(
    studentName: string,
    month: string,
    attendedDays: nat,
    holidays: nat,
    percentage: real)

  /** One row of the summary, computed as the source does: the student's
      records of the month, then Present and Late counted separately. The
      attended days are the student's Present or Late records of the month,
      the holidays their Holiday records, and the percentage relates the
      attended days to the class days of the student's batch. */
  function SummaryRow(student: Student, records: seq<AttendanceRecord>, classDays: map<Batch, nat>,
                      month: string, monthName: string): (r: AttendanceRow)
    ensures r.studentName == student.name && r.month == monthName
    ensures r.attendedDays == |Filter(records, Attended(student.studentId, month))|
    ensures r.holidays == |Filter(records, MarkedAs(student.studentId, month, Holiday))|
    ensures r.percentage == Percentage(r.attendedDays, if student.batch in classDays then classDays[student.batch] else 0)
  {
    var id := student.studentId;
    var presentOrLate := (r: AttendanceRecord) => r.status == Present || r.status == Late;
    FilterDisjointCount(Filter(records, InMonthOf(id, month)), HasStatus(Present), HasStatus(Late), presentOrLate);
    FilterFilter(records, InMonthOf(id, month), presentOrLate, Attended(id, month));
    FilterFilter(records, InMonthOf(id, month), HasStatus(Holiday), MarkedAs(id, month, Holiday));
    var mine := Filter(records, InMonthOf(student.studentId, month));
    var present := |Filter(mine, HasStatus(Present))|;
    var late := |Filter(mine, HasStatus(Late))|;
    var holidays := |Filter(mine, HasStatus(Holiday))|;
    var total := if student.batch in classDays then classDays[student.batch] else 0;
    AttendanceRow(student.name, monthName, present + late, holidays, Percentage(present + late, total))
  }

  /** A summary row, stated directly over all records: attended days count
      the student's Present and Late records of the month, holidays count
      their Holiday records, and the percentage relates attended days to the
      batch's class days as `Percentage` states. */
  lemma SummaryRowFacts(student: Student, records: seq<AttendanceRecord>, month: string, monthName: string)
    ensures var row := SummaryRow(student, records, ClassDaysByBatch(records, month), month, monthName);
            var classDays := |ClassDates(records, month, student.batch)|;
            && row.studentName == student.name
            && row.month == monthName
            && row.attendedDays == |Filter(records, Attended(student.studentId, month))|
            && row.holidays == |Filter(records, MarkedAs(student.studentId, month, Holiday))|
            && row.percentage == Percentage(row.attendedDays, classDays)
  {
    var classDays := ClassDaysByBatch(records, month);
    var row := SummaryRow(student, records, classDays, month, monthName);
    var total := classDays[student.batch];
    assert total == |ClassDates(records, month, student.batch)|;
  }

  /** The monthly attendance summary (`attendanceData`): one row per
      student, Inactive ones included, in roster order. */
  function AttendanceSummary(students: seq<Student>, records: seq<AttendanceRecord>, month: string, monthName: string)
    : (r: seq<AttendanceRow>)
    ensures |r| == |students|
    ensures forall i :: 0 <= i < |students| ==>
              r[i] == SummaryRow(students[i], records, ClassDaysByBatch(records, month), month, monthName)
  {
    var classDays := ClassDaysByBatch(records, month);
    seq(|students|, i requires 0 <= i < |students| => SummaryRow(students[i], records, classDays, month, monthName))
  }

  /** Every row of the summary, stated over all records. */
  lemma AttendanceSummaryRows(students: seq<Student>, records: seq<AttendanceRecord>, month: string, monthName: string)
    ensures var rows := AttendanceSummary(students, records, month, monthName);
            && |rows| == |students|
            && forall i :: 0 <= i < |students| ==>
                 var classDays := |ClassDates(records, month, students[i].batch)|;
                 && rows[i].studentName == students[i].name
                 && rows[i].month == monthName
                 && rows[i].attendedDays == |Filter(records, Attended(students[i].studentId, month))|
                 && rows[i].holidays == |Filter(records, MarkedAs(students[i].studentId, month, Holiday))|
                 && rows[i].percentage == Percentage(rows[i].attendedDays, classDays)
  {
    forall i | 0 <= i < |students| {
      SummaryRowFacts(students[i], records, month, monthName);
    }
  }

  // ---------------------------------------------------------------------
  // Fee-collection log
  // ---------------------------------------------------------------------

  /** The name shown for a student id: the first roster entry's name, or
      "N/A" when no student has the id or the name is empty (`?.name || 'N/A'`). */
  function DisplayName(students: seq<Student>, id: string): (r: string)
    ensures (forall i :: 0 <= i < |students| ==> students[i].studentId != id) ==> r == "N/A"
    ensures forall i :: (0 <= i < |students| && students[i].studentId == id
                         && forall j :: 0 <= j < i ==> students[j].studentId != id) ==>
              r == (if students[i].name == "" then "N/A" else students[i].name)
  {
    match Find(students, HasId(id))
    case None => "N/A"
    case Some(s) => if s.name == "" then "N/A" else s.name
  }

  datatype FeeRow = FeeRow(
    paymentId: string,
    studentId: string,
    studentName: string,
    monthCovered: string,
    amountPaid: int,
    datePaid: string,
    recordedBy: string)

  function PaidIn(month: string): FeesPayment -> bool
  {
    (p: FeesPayment) => p.monthYear == month
  }

  /** `row` shows `p` with the student's display name. */
  predicate Shows(row: FeeRow, p: FeesPayment, students: seq<Student>)
  {
    && row.paymentId == p.paymentId
    && row.studentId == p.studentId
    && row.studentName == DisplayName(students, p.studentId)
    && row.monthCovered == p.monthYear
    && row.amountPaid == p.amountPaid
    && row.datePaid == p.datePaid
    && row.recordedBy == p.recordedBy
  }

  /** `feesData`: one row per payment of the month, in log order. */
  function FeesLog(students: seq<Student>, payments: seq<FeesPayment>, month: string): (r: seq<FeeRow>)
    ensures |r| == |Filter(payments, PaidIn(month))|
    ensures forall i :: 0 <= i < |r| ==> Shows(r[i], Filter(payments, PaidIn(month))[i], students)
    ensures forall row :: row in r ==> row.monthCovered == month
  {
    var ps := Filter(payments, PaidIn(month));
    assert forall i :: 0 <= i < |ps| ==> ps[i] in ps;
    seq(|ps|, i requires 0 <= i < |ps| =>
      var p := ps[i];
      FeeRow(p.paymentId, p.studentId, DisplayName(students, p.studentId), p.monthYear, p.amountPaid, p.datePaid, p.recordedBy))
  }

  // ---------------------------------------------------------------------
  // Report generation
  // ---------------------------------------------------------------------

  /** A value of a report cell; the percentage is formatted by the encoder. */
  datatype Cell = Str(s: string) | Num(n: int) | Pct(p: real)

  function AttendanceFields(row: AttendanceRow): Row<Cell>
  {
    [ Field("Student Name", Str(row.studentName)),
      Field("Month", Str(row.month)),
      Field("Total Attended Days", Num(row.attendedDays)),
      Field("Total Holidays", Num(row.holidays)),
      Field("Attendance Percentage", Pct(row.percentage)) ]
  }

  function FeeFields(row: FeeRow): Row<Cell>
  {
    [ Field("Payment ID", Str(row.paymentId)),
      Field("Student ID", Str(row.studentId)),
      Field("Student Name", Str(row.studentName)),
      Field("Month Covered", Str(row.monthCovered)),
      Field("Amount Paid", Num(row.amountPaid)),
      Field("Date Paid", Str(row.datePaid)),
      Field("Recorded By", Str(row.recordedBy)) ]
  }

  function AttendanceCsvRows(summary: seq<AttendanceRow>): (r: seq<Row<Cell>>)
    ensures |r| == |summary|
  {
    seq(|summary|, i requires 0 <= i < |summary| => AttendanceFields(summary[i]))
  }

  function FeeCsvRows(log: seq<FeeRow>): (r: seq<Row<Cell>>)
    ensures |r| == |log|
  {
    seq(|log|, i requires 0 <= i < |log| => FeeFields(log[i]))
  }

  /** `handleGenerateReports`: the attendance-summary file and the
      fee-collection file of the report month; either is absent when it
      would have no rows. */
  function GenerateReports(students: seq<Student>, records: seq<AttendanceRecord>, payments: seq<FeesPayment>,
                           month: string, monthName: string, encode: Option<Cell> -> string)
    : (r: (Option<string>, Option<string>))
    ensures r.0.None? <==> |students| == 0
    ensures r.1.None? <==> forall p :: p in payments ==> p.monthYear != month
  {
    var attendanceRows := AttendanceCsvRows(AttendanceSummary(students, records, month, monthName));
    var feeRows := FeeCsvRows(FeesLog(students, payments, month));
    var paid := Filter(payments, PaidIn(month));
    assert |paid| == 0 <==> forall p :: p in payments ==> p.monthYear != month by {
      if |paid| > 0 {
        assert paid[0] in paid;
      }
    }
    (GenerateCsv(attendanceRows, encode), GenerateCsv(feeRows, encode))
  }

  const AttendanceHeaders: seq<string> :=
    ["Student Name", "Month", "Total Attended Days", "Total Holidays", "Attendance Percentage"]

  const FeeHeaders: seq<string> :=
    ["Payment ID", "Student ID", "Student Name", "Month Covered", "Amount Paid", "Date Paid", "Recorded By"]

  /** The attendance columns have distinct names (of lengths 12, 5, 19,
      14 and 21). */
  lemma HeadersDistinct()
    ensures forall j, k :: 0 <= j < k < |AttendanceHeaders| ==> AttendanceHeaders[j] != AttendanceHeaders[k]
  {
    var lengths := [12, 5, 19, 14, 21];
    assert forall k :: 0 <= k < 5 ==> |AttendanceHeaders[k]| == lengths[k];
  }

  /** Every summary row's fields are keyed by the attendance headers. */
  lemma AttendanceKeys(row: AttendanceRow)
    ensures KeysOf(AttendanceFields(row)) == AttendanceHeaders
  {
  }

  /** One summary row's line: its five values, encoded in column order. */
  lemma AttendanceLine(row: AttendanceRow, encode: Option<Cell> -> string)
    ensures Cells(AttendanceFields(row), AttendanceHeaders, encode) == AttendanceValues(row, encode)
  {
    AttendanceKeys(row);
    HeadersDistinct();
    CellsAreValues(AttendanceFields(row), AttendanceHeaders, encode);
    AttendanceFieldValues(row, encode);
  }

  lemma AttendanceFieldValues(row: AttendanceRow, encode: Option<Cell> -> string)
    ensures Values(AttendanceFields(row), encode) == AttendanceValues(row, encode)
  {
  }

  /** The attendance file's header line names the summary's columns, and
      line i + 1 holds the encoded values of the i-th student's row, in
      column order. */
  lemma AttendanceFileLayout(summary: seq<AttendanceRow>, encode: Option<Cell> -> string)
    requires |summary| > 0
    ensures var lines := CsvLines(AttendanceCsvRows(summary), encode);
            && lines[0] == Join(AttendanceHeaders, Comma)
            && forall i :: 0 <= i < |summary| ==>
                 lines[i + 1] == Join(Cells(AttendanceFields(summary[i]), AttendanceHeaders, encode), Comma)
  {
    var rows := AttendanceCsvRows(summary);
    assert KeysOf(rows[0]) == AttendanceHeaders;
  }

  /** The fee file's header line names the log's columns. */
  lemma FeeFileHeader(log: seq<FeeRow>, encode: Option<Cell> -> string)
    requires |log| > 0
    ensures CsvLines(FeeCsvRows(log), encode)[0] == Join(FeeHeaders, Comma)
  {
    assert KeysOf(FeeCsvRows(log)[0]) == FeeHeaders;
  }

  /** The fee columns have distinct names: the lengths (10, 10, 12, 13,
      11, 9, 11) and first letters (P, S, S, M, A, D, R) tell them apart. */
  lemma FeeHeadersDistinct()
    ensures forall j, k :: 0 <= j < k < |FeeHeaders| ==> FeeHeaders[j] != FeeHeaders[k]
  {
    var lengths := [10, 10, 12, 13, 11, 9, 11];
    var initials := ['P', 'S', 'S', 'M', 'A', 'D', 'R'];
    assert forall k :: 0 <= k < 7 ==> |FeeHeaders[k]| == lengths[k] && FeeHeaders[k][0] == initials[k];
  }

  /** Every fee-log row's fields are keyed by the fee headers. */
  lemma FeeKeys(row: FeeRow)
    ensures KeysOf(FeeFields(row)) == FeeHeaders
  {
  }

  /** One fee-log row's line: its seven values, encoded in column order. */
  lemma FeeLine(row: FeeRow, encode: Option<Cell> -> string)
    ensures Cells(FeeFields(row), FeeHeaders, encode) == FeeValues(row, encode)
  {
    FeeKeys(row);
    FeeHeadersDistinct();
    CellsAreValues(FeeFields(row), FeeHeaders, encode);
    FeeFieldValues(row, encode);
  }

  lemma FeeFieldValues(row: FeeRow, encode: Option<Cell> -> string)
    ensures Values(FeeFields(row), encode) == FeeValues(row, encode)
  {
  }

  /** The encoded values of a summary row, in column order. */
  function AttendanceValues(row: AttendanceRow, encode: Option<Cell> -> string): (r: seq<string>)
    ensures |r| == |AttendanceHeaders|
  {
    [ encode(Some(Str(row.studentName))), encode(Some(Str(row.month))), encode(Some(Num(row.attendedDays))),
      encode(Some(Num(row.holidays))), encode(Some(Pct(row.percentage))) ]
  }

  /** The encoded values of a fee-log row, in column order. */
  function FeeValues(row: FeeRow, encode: Option<Cell> -> string): (r: seq<string>)
    ensures |r| == |FeeHeaders|
  {
    [ encode(Some(Str(row.paymentId))), encode(Some(Str(row.studentId))), encode(Some(Str(row.studentName))),
      encode(Some(Str(row.monthCovered))), encode(Some(Num(row.amountPaid))), encode(Some(Str(row.datePaid))),
      encode(Some(Str(row.recordedBy))) ]
  }

  /** The CSV of a summary: absent when it is empty, otherwise its header
      line followed by one line per row, in order. */
  lemma AttendanceCsv(summary: seq<AttendanceRow>, encode: Option<Cell> -> string)
    ensures GenerateCsv(AttendanceCsvRows(summary), encode)
              == if |summary| == 0 then None
                 else Some(CsvFile(AttendanceHeaders,
                                   seq(|summary|, i requires 0 <= i < |summary| => AttendanceValues(summary[i], encode))))
  {
    var rows := AttendanceCsvRows(summary);
    var values := seq(|summary|, i requires 0 <= i < |summary| => AttendanceValues(summary[i], encode));
    if |summary| > 0 {
      forall i | 0 <= i < |rows|
        ensures Cells(rows[i], AttendanceHeaders, encode) == values[i]
      {
        AttendanceLine(summary[i], encode);
      }
      AttendanceKeys(summary[0]);
      GenerateCsvLayout(rows, AttendanceHeaders, values, encode);
    }
  }

  /** The CSV of a fee log: absent when it is empty, otherwise its header
      line followed by one line per row, in order. */
  lemma FeeCsv(log: seq<FeeRow>, encode: Option<Cell> -> string)
    ensures GenerateCsv(FeeCsvRows(log), encode)
              == if |log| == 0 then None
                 else Some(CsvFile(FeeHeaders, seq(|log|, i requires 0 <= i < |log| => FeeValues(log[i], encode))))
  {
    var rows := FeeCsvRows(log);
    var values := seq(|log|, i requires 0 <= i < |log| => FeeValues(log[i], encode));
    if |log| > 0 {
      forall i | 0 <= i < |rows|
        ensures Cells(rows[i], FeeHeaders, encode) == values[i]
      {
        FeeLine(log[i], encode);
      }
      FeeKeys(log[0]);
      GenerateCsvLayout(rows, FeeHeaders, values, encode);
    }
  }

  /** The attendance file of `GenerateReports`: absent for an empty roster,
      otherwise the summary's header line followed by one line per student
      of the monthly summary, in roster order. */
  lemma AttendanceFile(students: seq<Student>, records: seq<AttendanceRecord>, payments: seq<FeesPayment>,
                       month: string, monthName: string, encode: Option<Cell> -> string)
    ensures var summary := AttendanceSummary(students, records, month, monthName);
            GenerateReports(students, records, payments, month, monthName, encode).0
              == if |students| == 0 then None
                 else Some(CsvFile(AttendanceHeaders,
                                   seq(|summary|, i requires 0 <= i < |summary| => AttendanceValues(summary[i], encode))))
  {
    AttendanceCsv(AttendanceSummary(students, records, month, monthName), encode);
  }

  /** The fee file of `GenerateReports`: absent when no payment covers the
      month, otherwise the log's header line followed by one line per
      payment of the month, in log order. */
  lemma FeeFile(students: seq<Student>, records: seq<AttendanceRecord>, payments: seq<FeesPayment>,
                month: string, monthName: string, encode: Option<Cell> -> string)
    ensures var log := FeesLog(students, payments, month);
            GenerateReports(students, records, payments, month, monthName, encode).1
              == if |log| == 0 then None
                 else Some(CsvFile(FeeHeaders, seq(|log|, i requires 0 <= i < |log| => FeeValues(log[i], encode))))
  {
    FeeCsv(FeesLog(students, payments, month), encode);
  }
}
