/** The attendance screen (`components/AttendanceTaker.tsx`): the draft of
    statuses kept per student while attendance is taken for one (date,
    batch), how it is filled from the store, edited and saved. The draft
    object is modelled as its entries in insertion order, which is the
    order `Object.entries` hands to the save. */
module AttendanceTaker {
  import opened Seqs
  import opened Types
  import DataStore

  /** The per-screen draft map (`Record<string, AttendanceStatus>`). */
  type Draft = seq<Entry>

  /** The statuses the per-student toggle offers. */
  function ToggleOptions(): (r: seq<AttendanceStatus>)
    ensures |r| == 3
    ensures Holiday !in r
    ensures forall s :: s != Holiday ==> s in r
  {
    forall s: AttendanceStatus | s != Holiday
      ensures s in [Present, Absent, Late]
    {
      if s.Present? {
        assert [Present, Absent, Late][0] == s;
      } else if s.Absent? {
        assert [Present, Absent, Late][1] == s;
      } else {
        assert [Present, Absent, Late][2] == s;
      }
    }
    [Present, Absent, Late]
  }

  function KeyIs(id: string): Entry -> bool
  {
    (e: Entry) => e.studentId == id
  }

  /** No student id occurs twice among the keys. */
  predicate UniqueKeys(d: Draft)
  {
    forall i, j :: 0 <= i < j < |d| ==> d[i].studentId != d[j].studentId
  }

  function Keys(d: Draft): set<string>
  {
    set e | e in d :: e.studentId
  }

  /** `draft[id]`: the status stored under `id`, if any. */
  function Get(d: Draft, id: string): (r: Option<AttendanceStatus>)
    ensures r.None? <==> id !in Keys(d)
    ensures r.Some? ==> Entry(id, r.value) in d
    ensures UniqueKeys(d) ==> forall e :: e in d && e.studentId == id ==> r == Some(e.status)
  {
    match FindIndex(d, KeyIs(id))
    case None =>
      assert forall e :: e in d ==> e.studentId != id by {
        forall e | e in d
          ensures e.studentId != id
        {
          var i :| 0 <= i < |d| && d[i] == e;
          assert !KeyIs(id)(d[i]);
        }
      }
      None
    case Some(i) => Some(d[i].status)
  }

  /** `{ ...draft, [id]: status }`: an existing key keeps its place and
      takes the new status; a new key is appended. */
  function SetStatus(d: Draft, id: string, status: AttendanceStatus): (r: Draft)
    ensures Keys(r) == Keys(d) + {id}
    ensures UniqueKeys(d) ==> UniqueKeys(r)
    ensures id in Keys(d) ==> |r| == |d|
    ensures id !in Keys(d) ==> r == d + [Entry(id, status)]
    ensures forall i :: 0 <= i < |d| ==> r[i].studentId == d[i].studentId
    ensures forall i :: 0 <= i < |d| && d[i].studentId != id ==> r[i] == d[i]
  {
    match FindIndex(d, KeyIs(id))
    case None => d + [Entry(id, status)]
    case Some(j) =>
      var r := d[j := Entry(id, status)];
      assert Keys(r) == Keys(d) by {
        forall k | k in Keys(d)
          ensures k in Keys(r)
        {
          var e :| e in d && e.studentId == k;
          var i :| 0 <= i < |d| && d[i] == e;
          assert r[i].studentId == k;
        }
        forall k | k in Keys(r)
          ensures k in Keys(d)
        {
          var e :| e in r && e.studentId == k;
          var i :| 0 <= i < |r| && r[i] == e;
          assert d[i].studentId == k;
        }
      }
      r
  }

  /** After `SetStatus`, the key set holds the new status and every other
      key reads as before. */
  lemma SetStatusGet(d: Draft, id: string, status: AttendanceStatus, k: string)
    ensures Get(SetStatus(d, id, status), k) == if k == id then Some(status) else Get(d, k)
  {
    if id in Keys(d) {
      UpdateGet(d, id, status, k);
    } else {
      AppendGet(d, id, status, k);
    }
  }

  lemma UpdateGet(d: Draft, id: string, status: AttendanceStatus, k: string)
    requires id in Keys(d)
    ensures Get(SetStatus(d, id, status), k) == if k == id then Some(status) else Get(d, k)
  {
    var r := SetStatus(d, id, status);
    var j := FindIndex(d, KeyIs(id)).value;
    assert r == d[j := Entry(id, status)];
    FindIndexAligned(r, KeyIs(k), d, KeyIs(k));
  }

  lemma AppendGet(d: Draft, id: string, status: AttendanceStatus, k: string)
    requires id !in Keys(d)
    ensures Get(SetStatus(d, id, status), k) == if k == id then Some(status) else Get(d, k)
  {
    var r := d + [Entry(id, status)];
    assert SetStatus(d, id, status) == r;
    if k == id {
      forall i | 0 <= i < |d|
        ensures !KeyIs(k)(d[i])
      {
        assert d[i] in d;
      }
      FindIndexAppendHit(d, Entry(id, status), KeyIs(k));
    } else {
      FindIndexAppend(d, Entry(id, status), KeyIs(k));
    }
  }

  /** The ids of a list of students. */
  function IdsOf(students: seq<Student>): set<string>
  {
    set s | s in students :: s.studentId
  }

  /** Writes `value(id)` under the id of every student, in list order (the
      `forEach` and the `reduce` of the screen). */
  function Fill(students: seq<Student>, value: string -> AttendanceStatus): (r: Draft)
    ensures UniqueKeys(r)
    ensures Keys(r) == IdsOf(students)
    decreases |students|
  {
    if |students| == 0 then []
    else
      var n := |students| - 1;
      assert students == students[..n] + [students[n]];
      assert IdsOf(students) == IdsOf(students[..n]) + {students[n].studentId};
      SetStatus(Fill(students[..n], value), students[n].studentId, value(students[n].studentId))
  }

  /** Every key of a filled draft holds the value for that key. */
  lemma {:induction false} FillValues(students: seq<Student>, value: string -> AttendanceStatus, k: string)
    requires k in IdsOf(students)
    ensures Get(Fill(students, value), k) == Some(value(k))
    decreases |students|
  {
    var n := |students| - 1;
    var id := students[n].studentId;
    assert students == students[..n] + [students[n]];
    assert IdsOf(students) == IdsOf(students[..n]) + {id};
    SetStatusGet(Fill(students[..n], value), id, value(id), k);
    if k != id {
      FillValues(students[..n], value, k);
    }
  }

  function IsFor(id: string): AttendanceRecord -> bool
  {
    (r: AttendanceRecord) => r.studentId == id
  }

  /** The status of the first record for `id` in `slot`, or Absent. */
  function FirstStatus(slot: seq<AttendanceRecord>, id: string): (r: AttendanceStatus)
    ensures (forall i :: 0 <= i < |slot| ==> slot[i].studentId != id) ==> r == Absent
    ensures forall i :: 0 <= i < |slot| && slot[i].studentId == id && (forall j :: 0 <= j < i ==> slot[j].studentId != id)
              ==> r == slot[i].status
  {
    match FindIndex(slot, IsFor(id))
    case None => Absent
    case Some(i) => slot[i].status
  }

  /** The status a student starts with: that of the first record of the
      (date, batch) slot for them, or Absent when there is none. */
  function ExistingStatus(records: seq<AttendanceRecord>, date: string, batch: Batch, id: string): (r: AttendanceStatus)
    ensures var slot := DataStore.SlotOf(records, date, batch);
            (forall i :: 0 <= i < |slot| ==> slot[i].studentId != id) ==> r == Absent
    ensures var slot := DataStore.SlotOf(records, date, batch);
            forall i :: 0 <= i < |slot| && slot[i].studentId == id && (forall j :: 0 <= j < i ==> slot[j].studentId != id)
              ==> r == slot[i].status
  {
    FirstStatus(DataStore.SlotOf(records, date, batch), id)
  }

  /** The draft when the screen opens on (date, batch): one key per Active
      student of the batch, each holding the status already recorded. */
  function InitialDraft(records: seq<AttendanceRecord>, active: seq<Student>, date: string, batch: Batch): (r: Draft)
    ensures UniqueKeys(r)
    ensures Keys(r) == IdsOf(active)
    ensures forall k :: k in Keys(r) ==> Get(r, k) == Some(ExistingStatus(records, date, batch, k))
  {
    var value := (id: string) => ExistingStatus(records, date, batch, id);
    forall k | k in IdsOf(active)
      ensures Get(Fill(active, value), k) == Some(value(k))
    {
      FillValues(active, value, k);
    }
    Fill(active, value)
  }

  /** `handleMarkAllPresent`: every Active student of the batch, Present. */
  function MarkAllPresent(active: seq<Student>): (r: Draft)
    ensures UniqueKeys(r)
    ensures Keys(r) == IdsOf(active)
    ensures forall k :: k in Keys(r) ==> Get(r, k) == Some(Present)
  {
    var value := (id: string) => Present;
    forall k | k in IdsOf(active)
      ensures Get(Fill(active, value), k) == Some(value(k))
    {
      FillValues(active, value, k);
    }
    Fill(active, value)
  }

  /** `handleSaveAttendance`: the draft's entries replace the slot. */
  function SaveAttendance(st: DataStore.Store, draft: Draft, date: string, batch: Batch, clock: nat -> string)
    : (r: DataStore.Store)
    ensures r.students == st.students && r.payments == st.payments
    ensures DataStore.EntriesOf(DataStore.SlotOf(r.attendance, date, batch)) == draft
    ensures r.attendance[..|r.attendance| - |draft|] == Filter(st.attendance, DataStore.OutsideSlot(date, batch))
  {
    DataStore.AddAttendance(st, draft, date, batch, clock)
  }

  /** Reopening the screen after a save shows what was saved: for every key
      of the draft, the reloaded status is the draft's. */
  lemma SaveThenReload(st: DataStore.Store, draft: Draft, date: string, batch: Batch, clock: nat -> string, k: string)
    requires k in Keys(draft)
    ensures Some(ExistingStatus(SaveAttendance(st, draft, date, batch, clock).attendance, date, batch, k)) == Get(draft, k)
  {
    var after := SaveAttendance(st, draft, date, batch, clock);
    ReadBackEntries(DataStore.SlotOf(after.attendance, date, batch), draft, k);
  }

  /** Records carrying the draft's pairs in order give back the draft's
      status for each key. */
  lemma ReadBackEntries(slot: seq<AttendanceRecord>, draft: Draft, k: string)
    requires DataStore.EntriesOf(slot) == draft
    requires k in Keys(draft)
    ensures Some(FirstStatus(slot, k)) == Get(draft, k)
  {
    assert |slot| == |draft|;
    forall i | 0 <= i < |slot|
      ensures IsFor(k)(slot[i]) == KeyIs(k)(draft[i]) && slot[i].status == draft[i].status
    {
      assert DataStore.EntriesOf(slot)[i] == draft[i];
    }
    FindIndexAligned(slot, IsFor(k), draft, KeyIs(k));
  }

  /** When the draft holds exactly the batch's Active students, as it does
      on this screen, the draft rebuilt after saving agrees with it key for
      key. */
  lemma SaveThenReloadDraft(st: DataStore.Store, draft: Draft, date: string, batch: Batch, clock: nat -> string)
    requires Keys(draft) == IdsOf(ActiveInBatch(st.students, batch))
    ensures var after := SaveAttendance(st, draft, date, batch, clock);
            var reloaded := InitialDraft(after.attendance, ActiveInBatch(after.students, batch), date, batch);
            && Keys(reloaded) == Keys(draft)
            && forall k :: k in Keys(draft) ==> Get(reloaded, k) == Get(draft, k)
  {
    var after := SaveAttendance(st, draft, date, batch, clock);
    forall k | k in Keys(draft)
      ensures Some(ExistingStatus(after.attendance, date, batch, k)) == Get(draft, k)
    {
      SaveThenReload(st, draft, date, batch, clock, k);
    }
  }

  lemma IdHasIndex(students: seq<Student>, k: string) returns (i: nat)
    requires k in IdsOf(students)
    ensures i < |students| && students[i].studentId == k
  {
    var s :| s in students && s.studentId == k;
    i :| i < |students| && students[i] == s;
  }

  /** A student with a record in a slot where every record is a Holiday
      starts on Holiday. */
  lemma StartsOnHoliday(slot: seq<AttendanceRecord>, k: string, i: nat)
    requires forall j :: 0 <= j < |slot| ==> slot[j].status == Holiday
    requires i < |slot| && slot[i].studentId == k
    ensures FirstStatus(slot, k) == Holiday
  {
    assert IsFor(k)(slot[i]);
  }

  /** After a batch is marked as a holiday, the screen reopens with every
      Active student of the batch on Holiday. */
  lemma HolidayThenReload(st: DataStore.Store, date: string, batch: Batch, clock: nat -> string)
    ensures var after := DataStore.MarkBatchAsHoliday(st, date, batch, clock);
            var active := ActiveInBatch(after.students, batch);
            var reloaded := InitialDraft(after.attendance, active, date, batch);
            && Keys(reloaded) == IdsOf(active)
            && forall k :: k in Keys(reloaded) ==> Get(reloaded, k) == Some(Holiday)
  {
    var after := DataStore.MarkBatchAsHoliday(st, date, batch, clock);
    var active := ActiveInBatch(st.students, batch);
    var slot := DataStore.SlotOf(after.attendance, date, batch);
    DataStore.HolidaySlot(st, date, batch, clock);
    forall k | k in IdsOf(active)
      ensures ExistingStatus(after.attendance, date, batch, k) == Holiday
    {
      var i := IdHasIndex(active, k);
      StartsOnHoliday(slot, k, i);
    }
  }
}
