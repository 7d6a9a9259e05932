/** The in-memory data store (`hooks/useMockData.ts`): three sequences and
    the six operations that change them, each a pure state-to-state
    function. The clock that the source reads for fresh ids (`Date.now()`)
    is a parameter: `stamp` where the source reads it once, `clock` (the
    reading taken for the i-th fresh record) where it reads it once per
    record; nothing makes two readings, and therefore two ids, differ. */
module DataStore {
  import opened Seqs
  import opened Types

  datatype Store = Store(
    students: seq<Student>,
    attendance: seq<AttendanceRecord>,
    payments: seq<FeesPayment>)

  /** Membership of a record in the (date, batch) slot. */
  function InSlot(date: string, batch: Batch): AttendanceRecord -> bool
  {
    (r: AttendanceRecord) => r.date == date && r.batch == batch
  }

  function OutsideSlot(date: string, batch: Batch): AttendanceRecord -> bool
  {
    (r: AttendanceRecord) => !(r.date == date && r.batch == batch)
  }

  /** The records of one (date, batch) slot, in store order. */
  function SlotOf(records: seq<AttendanceRecord>, date: string, batch: Batch): seq<AttendanceRecord>
  {
    Filter(records, InSlot(date, batch))
  }

  /** The (student_id, status) pairs of a list of records. */
  function EntriesOf(records: seq<AttendanceRecord>): (r: seq<Entry>)
    ensures |r| == |records|
  {
    seq(|records|, i requires 0 <= i < |records| => Entry(records[i].studentId, records[i].status))
  }

  /** The records with their clock-derived ids blanked out. */
  function Unstamped(records: seq<AttendanceRecord>): (r: seq<AttendanceRecord>)
    ensures |r| == |records|
  {
    seq(|records|, i requires 0 <= i < |records| => records[i].(recordId := ""))
  }

  function AttendanceId(stamp: string, studentId: string): string
  {
    "ATT-" + stamp + "-" + studentId
  }

  /** The fresh records of one submission, one per entry; the i-th takes
      the i-th clock reading into its id. */
  function SlotRecords(entries: seq<Entry>, date: string, batch: Batch, clock: nat -> string): seq<AttendanceRecord>
  {
    seq(|entries|, i requires 0 <= i < |entries| =>
      AttendanceRecord(AttendanceId(clock(i), entries[i].studentId), entries[i].studentId, date, batch, entries[i].status))
  }

  /** The fresh records all belong to the slot, carry the entries' pairs in
      order, and have clock-derived ids. */
  lemma SlotRecordsFacts(entries: seq<Entry>, date: string, batch: Batch, clock: nat -> string)
    ensures forall i :: 0 <= i < |entries| ==> InSlot(date, batch)(SlotRecords(entries, date, batch, clock)[i])
    ensures EntriesOf(SlotRecords(entries, date, batch, clock)) == entries
    ensures forall i :: 0 <= i < |entries| ==>
              SlotRecords(entries, date, batch, clock)[i].recordId == AttendanceId(clock(i), entries[i].studentId)
  {
    var added := SlotRecords(entries, date, batch, clock);
    assert forall i :: 0 <= i < |entries| ==> EntriesOf(added)[i] == entries[i];
  }

  /** Records outside a slot followed by records inside it: the slot is
      exactly the second part. */
  lemma SlotOfSubmission(others: seq<AttendanceRecord>, added: seq<AttendanceRecord>, date: string, batch: Batch)
    requires forall x :: x in others ==> OutsideSlot(date, batch)(x)
    requires forall i :: 0 <= i < |added| ==> InSlot(date, batch)(added[i])
    ensures SlotOf(others + added, date, batch) == added
  {
    FilterConcat(others, added, InSlot(date, batch));
    assert forall i :: 0 <= i < |others| ==> others[i] in others;
    FilterNone(others, InSlot(date, batch));
    FilterAll(added, InSlot(date, batch));
  }

  /** `addAttendance`: the records of the (date, batch) slot are replaced
      wholesale by one fresh record per entry, appended after the records
      of every other slot. */
  function AddAttendance(st: Store, entries: seq<Entry>, date: string, batch: Batch, clock: nat -> string): (r: Store)
    ensures r.students == st.students && r.payments == st.payments
    ensures |r.attendance| == |Filter(st.attendance, OutsideSlot(date, batch))| + |entries|
    ensures r.attendance[..|r.attendance| - |entries|] == Filter(st.attendance, OutsideSlot(date, batch))
    ensures r.attendance[|r.attendance| - |entries|..] == SlotOf(r.attendance, date, batch)
    ensures EntriesOf(SlotOf(r.attendance, date, batch)) == entries
    ensures var slot := SlotOf(r.attendance, date, batch);
            forall i :: 0 <= i < |slot| ==> slot[i].recordId == AttendanceId(clock(i), slot[i].studentId)
  {
    var others := Filter(st.attendance, OutsideSlot(date, batch));
    var added := SlotRecords(entries, date, batch, clock);
    SlotRecordsFacts(entries, date, batch, clock);
    SlotOfSubmission(others, added, date, batch);
    assert (others + added)[..|others|] == others;
    assert (others + added)[|others|..] == added;
    Store(st.students, others + added, st.payments)
  }

  /** Submitting attendance for one slot leaves every other slot as it was. */
  lemma AddAttendanceKeepsOtherSlots(st: Store, entries: seq<Entry>, date: string, batch: Batch, clock: nat -> string,
                                     date': string, batch': Batch)
    requires date' != date || batch' != batch
    ensures SlotOf(AddAttendance(st, entries, date, batch, clock).attendance, date', batch')
         == SlotOf(st.attendance, date', batch')
  {
    var added := SlotRecords(entries, date, batch, clock);
    SlotRecordsFacts(entries, date, batch, clock);
    OtherSlotAfterSubmission(st.attendance, added, date, batch, date', batch');
  }

  /** Replacing one slot's records by records of that slot leaves every
      other slot as it was. */
  lemma OtherSlotAfterSubmission(records: seq<AttendanceRecord>, added: seq<AttendanceRecord>,
                                 date: string, batch: Batch, date': string, batch': Batch)
    requires date' != date || batch' != batch
    requires forall i :: 0 <= i < |added| ==> InSlot(date, batch)(added[i])
    ensures SlotOf(Filter(records, OutsideSlot(date, batch)) + added, date', batch') == SlotOf(records, date', batch')
  {
    var others := Filter(records, OutsideSlot(date, batch));
    FilterConcat(others, added, InSlot(date', batch'));
    FilterNone(added, InSlot(date', batch'));
    FilterFilter(records, OutsideSlot(date, batch), InSlot(date', batch'), InSlot(date', batch'));
  }

  /** After a submission, the records outside its slot are exactly the
      records that were outside it before. */
  lemma SubmissionKeepsOutside(st: Store, entries: seq<Entry>, date: string, batch: Batch, clock: nat -> string)
    ensures Filter(AddAttendance(st, entries, date, batch, clock).attendance, OutsideSlot(date, batch))
         == Filter(st.attendance, OutsideSlot(date, batch))
  {
    var others := Filter(st.attendance, OutsideSlot(date, batch));
    var added := SlotRecords(entries, date, batch, clock);
    SlotRecordsFacts(entries, date, batch, clock);
    OthersOfSubmission(others, added, date, batch);
  }

  /** Submitting the same attendance twice leaves the same records as
      submitting it once, up to the clock-derived ids; with the same clock
      readings the stores are identical. */
  lemma AddAttendanceIdempotent(st: Store, entries: seq<Entry>, date: string, batch: Batch, clock1: nat -> string, clock2: nat -> string)
    ensures var once := AddAttendance(st, entries, date, batch, clock1);
            var twice := AddAttendance(once, entries, date, batch, clock2);
            && twice.students == once.students
            && twice.payments == once.payments
            && Unstamped(twice.attendance) == Unstamped(once.attendance)
            && ((forall i :: clock1(i) == clock2(i)) ==> twice == once)
  {
    SubmissionKeepsOutside(st, entries, date, batch, clock1);
    var others := Filter(st.attendance, OutsideSlot(date, batch));
    var added1 := SlotRecords(entries, date, batch, clock1);
    var added2 := SlotRecords(entries, date, batch, clock2);
    UnstampedConcat(others, added1);
    UnstampedConcat(others, added2);
    assert Unstamped(added1) == Unstamped(added2);
  }

  /** Records outside a slot followed by records inside it: the records
      outside the slot are exactly the first part. */
  lemma OthersOfSubmission(others: seq<AttendanceRecord>, added: seq<AttendanceRecord>, date: string, batch: Batch)
    requires forall x :: x in others ==> OutsideSlot(date, batch)(x)
    requires forall i :: 0 <= i < |added| ==> InSlot(date, batch)(added[i])
    ensures Filter(others + added, OutsideSlot(date, batch)) == others
  {
    FilterConcat(others, added, OutsideSlot(date, batch));
    assert forall i :: 0 <= i < |others| ==> others[i] in others;
    FilterAll(others, OutsideSlot(date, batch));
    FilterNone(added, OutsideSlot(date, batch));
  }

  lemma UnstampedConcat(a: seq<AttendanceRecord>, b: seq<AttendanceRecord>)
    ensures Unstamped(a + b) == Unstamped(a) + Unstamped(b)
  {
  }

  /** A Holiday entry for each of the given students. */
  function HolidayEntries(students: seq<Student>): (r: seq<Entry>)
    ensures |r| == |students|
  {
    seq(|students|, i requires 0 <= i < |students| => Entry(students[i].studentId, Holiday))
  }

  /** `markBatchAsHoliday`: the slot's records are replaced by a Holiday
      record for each Active student of the batch; it is the attendance
      submission of those Holiday entries. */
  function MarkBatchAsHoliday(st: Store, date: string, batch: Batch, clock: nat -> string): (r: Store)
    ensures r == AddAttendance(st, HolidayEntries(ActiveInBatch(st.students, batch)), date, batch, clock)
  {
    var others := Filter(st.attendance, OutsideSlot(date, batch));
    var active := ActiveInBatch(st.students, batch);
    var holidays := seq(|active|, i requires 0 <= i < |active| =>
      AttendanceRecord(AttendanceId(clock(i), active[i].studentId), active[i].studentId, date, batch, Holiday));
    assert holidays == SlotRecords(HolidayEntries(active), date, batch, clock);
    Store(st.students, others + holidays, st.payments)
  }

  /** After a holiday is marked, the slot holds one Holiday record per
      Active student of the batch, in roster order, and no record for any
      other student. */
  lemma HolidaySlot(st: Store, date: string, batch: Batch, clock: nat -> string)
    ensures var slot := SlotOf(MarkBatchAsHoliday(st, date, batch, clock).attendance, date, batch);
            var active := ActiveInBatch(st.students, batch);
            && |slot| == |active|
            && (forall i :: 0 <= i < |slot| ==> slot[i].studentId == active[i].studentId && slot[i].status == Holiday)
            && (forall x :: x in slot ==>
                  exists s :: s in st.students && s.studentId == x.studentId && s.batch == batch && s.status == Active)
  {
    var active := ActiveInBatch(st.students, batch);
    var slot := SlotOf(MarkBatchAsHoliday(st, date, batch, clock).attendance, date, batch);
    HolidaySlotPairs(st, date, batch, clock);
    forall x | x in slot
      ensures exists s :: s in st.students && s.studentId == x.studentId && s.batch == batch && s.status == Active
    {
      var i :| 0 <= i < |slot| && slot[i] == x;
      var s := active[i];
      assert s in active;
      assert s in st.students && s.studentId == x.studentId && s.batch == batch && s.status == Active;
    }
  }

  lemma HolidaySlotPairs(st: Store, date: string, batch: Batch, clock: nat -> string)
    ensures var slot := SlotOf(MarkBatchAsHoliday(st, date, batch, clock).attendance, date, batch);
            var active := ActiveInBatch(st.students, batch);
            && |slot| == |active|
            && (forall i :: 0 <= i < |slot| ==> slot[i].studentId == active[i].studentId && slot[i].status == Holiday)
  {
    var active := ActiveInBatch(st.students, batch);
    HolidayPairs(SlotOf(MarkBatchAsHoliday(st, date, batch, clock).attendance, date, batch), active);
  }

  /** Records carrying the Holiday entries of some students pair up with
      those students, in order. */
  lemma HolidayPairs(records: seq<AttendanceRecord>, students: seq<Student>)
    requires EntriesOf(records) == HolidayEntries(students)
    ensures |records| == |students|
    ensures forall i :: 0 <= i < |records| ==> records[i].studentId == students[i].studentId && records[i].status == Holiday
  {
    EntriesPairwise(records, HolidayEntries(students));
  }

  lemma EntriesPairwise(records: seq<AttendanceRecord>, entries: seq<Entry>)
    requires EntriesOf(records) == entries
    ensures forall i :: 0 <= i < |records| ==> records[i].studentId == entries[i].studentId && records[i].status == entries[i].status
  {
    assert forall i :: 0 <= i < |records| ==> EntriesOf(records)[i] == Entry(records[i].studentId, records[i].status);
  }

  function PaymentId(stamp: string): string
  {
    "PAY-" + stamp
  }

  /** `addFeePayment`: appends one payment carrying the submitted fields,
      the fixed monthly due amount and the logged-in operator. */
  function AddFeePayment(st: Store, data: PaymentData, stamp: string): (r: Store)
    ensures r.students == st.students && r.attendance == st.attendance
    ensures |r.payments| == |st.payments| + 1
    ensures r.payments[..|st.payments|] == st.payments
    ensures var p := r.payments[|st.payments|];
            && p.paymentId == PaymentId(stamp)
            && p.studentId == data.studentId
            && p.monthYear == data.monthYear
            && p.amountPaid == data.amountPaid
            && p.datePaid == data.datePaid
            && p.amountDue == MonthlyFeeDue
            && p.recordedBy == LoggedInUser
  {
    var payment := FeesPayment(PaymentId(stamp), data.studentId, data.monthYear, MonthlyFeeDue,
                               data.amountPaid, data.datePaid, LoggedInUser);
    Store(st.students, st.attendance, st.payments + [payment])
  }

  /** The id `addStudent` derives from the clock: "S" followed by the last
      six characters of the clock reading. */
  function NewStudentId(stamp: string): (r: string)
    ensures 1 <= |r| <= 7 && r[0] == 'S'
    ensures |r| - 1 <= |stamp| && r[1..] == stamp[|stamp| - (|r| - 1)..]
    ensures |stamp| >= 6 ==> |r| == 7
    ensures |stamp| <= 6 ==> r == "S" + stamp
  {
    "S" + (if |stamp| <= 6 then stamp else stamp[|stamp| - 6..])
  }

  /** Two different clock readings can give the same student id, so ids are
      not unique by construction. */
  lemma StudentIdsCanCollide()
    ensures exists a: string, b: string :: a != b && NewStudentId(a) == NewStudentId(b)
  {
    var a, b := "1000000", "2000000";
    assert a[0] != b[0];
    assert NewStudentId(a) == "S000000" == NewStudentId(b);
  }

  /** `addStudent`: appends one student with the submitted fields and a
      clock-derived id. */
  function AddStudent(st: Store, data: StudentData, stamp: string): (r: Store)
    ensures r.attendance == st.attendance && r.payments == st.payments
    ensures |r.students| == |st.students| + 1
    ensures r.students[..|st.students|] == st.students
    ensures var s := r.students[|st.students|];
            && s.studentId == NewStudentId(stamp)
            && s.name == data.name
            && s.batch == data.batch
            && s.parentContact == data.parentContact
            && s.status == data.status
  {
    var student := Student(NewStudentId(stamp), data.name, data.batch, data.parentContact, data.status);
    Store(st.students + [student], st.attendance, st.payments)
  }

  /** Fetching a freshly added student by id returns the submitted fields
      with the new id, provided no earlier student already had that id. */
  lemma AddedStudentIsFetched(st: Store, data: StudentData, stamp: string)
    requires forall s :: s in st.students ==> s.studentId != NewStudentId(stamp)
    ensures Find(AddStudent(st, data, stamp).students, HasId(NewStudentId(stamp)))
         == Some(Student(NewStudentId(stamp), data.name, data.batch, data.parentContact, data.status))
  {
    var r := AddStudent(st, data, stamp).students;
    var n := |st.students|;
    assert forall j :: 0 <= j < n ==> r[j] in st.students;
    assert HasId(NewStudentId(stamp))(r[n]);
  }

  /** `updateStudent`: every student whose id matches is replaced by the
      submitted record; every other student and the order stay. */
  function UpdateStudent(st: Store, updated: Student): (r: Store)
    ensures r.attendance == st.attendance && r.payments == st.payments
    ensures |r.students| == |st.students|
    ensures forall i :: 0 <= i < |st.students| && st.students[i].studentId == updated.studentId ==> r.students[i] == updated
    ensures forall i :: 0 <= i < |st.students| && st.students[i].studentId != updated.studentId ==> r.students[i] == st.students[i]
  {
    var students := seq(|st.students|, i requires 0 <= i < |st.students| =>
      if st.students[i].studentId == updated.studentId then updated else st.students[i]);
    Store(students, st.attendance, st.payments)
  }

  /** Updating a student whose id is not on the roster changes nothing. */
  lemma UpdateMissingIsNoOp(st: Store, updated: Student)
    requires forall s :: s in st.students ==> s.studentId != updated.studentId
    ensures UpdateStudent(st, updated) == st
  {
    var r := UpdateStudent(st, updated);
    assert forall i :: 0 <= i < |st.students| ==> st.students[i] in st.students;
    assert r.students == st.students;
  }

  /** Applying the same update twice is the same as applying it once. */
  lemma UpdateIdempotent(st: Store, updated: Student)
    ensures UpdateStudent(UpdateStudent(st, updated), updated) == UpdateStudent(st, updated)
  {
    var once := UpdateStudent(st, updated);
    var twice := UpdateStudent(once, updated);
    assert forall i :: 0 <= i < |once.students| ==> twice.students[i] == once.students[i];
  }

  /** `deleteStudent`: removes exactly the students with the id, keeps the
      others in order, and leaves attendance and payments (now possibly
      orphaned) untouched. */
  function DeleteStudent(st: Store, id: string): (r: Store)
    ensures r.attendance == st.attendance && r.payments == st.payments
    ensures forall s :: s in r.students <==> s in st.students && s.studentId != id
    ensures forall s :: multiset(r.students)[s] == if s.studentId == id then 0 else multiset(st.students)[s]
    ensures IsSubseq(r.students, st.students)
  {
    FilterMultiset(st.students, (s: Student) => s.studentId != id);
    Store(Filter(st.students, (s: Student) => s.studentId != id), st.attendance, st.payments)
  }
}
