/** The fee screen (`components/FeesManager.tsx`): the student search, the
    selected student's recent payment history, and the guard in front of
    logging a payment. Parsing a paid date to a time value (`new
    Date(...).getTime()`) and the amount text to a number (`parseFloat`)
    are the opaque `time` and `parseAmount`. */
module FeesManager {
  import opened Seqs
  import opened Text
  import opened Types
  import DataStore

  /** At most this many students are suggested. */
  const SearchLimit: nat := 5

  /** At most this many payments are shown. */
  const HistoryLimit: nat := 6

  /** A student matches when the query, lowercased, occurs in their
      lowercased name or lowercased id. */
  function Matches(s: Student, query: string): (b: bool)
    ensures b <==> (exists i: nat :: OccursAt(Lower(s.name), Lower(query), i))
                   || (exists i: nat :: OccursAt(Lower(s.studentId), Lower(query), i))
    ensures query == "" ==> b
  {
    assert query == "" ==> OccursAt(Lower(s.name), Lower(query), 0);
    Includes(Lower(s.name), Lower(query)) || Includes(Lower(s.studentId), Lower(query))
  }

  function MatcherOf(query: string): Student -> bool
  {
    (s: Student) => Matches(s, query)
  }

  /** `filteredStudents`: nothing for an empty query; otherwise the first
      five matching students in roster order. */
  function SearchStudents(students: seq<Student>, query: string): (r: seq<Student>)
    ensures query == "" ==> r == []
    ensures |r| <= SearchLimit
    ensures forall s :: s in r ==> s in students && Matches(s, query)
    ensures query != "" ==> |r| == Min(SearchLimit, |Filter(students, MatcherOf(query))|)
    ensures query != "" ==> forall i :: 0 <= i < |r| ==> r[i] == Filter(students, MatcherOf(query))[i]
  {
    if query == "" then []
    else
      var hits := Filter(students, MatcherOf(query));
      assert forall i :: 0 <= i < |hits| ==> hits[i] in hits;
      Take(hits, SearchLimit)
  }

  /** When fewer than five students are suggested for a non-empty query,
      every matching student is among them. */
  lemma SearchIsCompleteBelowLimit(students: seq<Student>, query: string, s: Student)
    requires query != ""
    requires |SearchStudents(students, query)| < SearchLimit
    requires s in students && Matches(s, query)
    ensures s in SearchStudents(students, query)
  {
    var hits := Filter(students, MatcherOf(query));
    var r := SearchStudents(students, query);
    assert s in hits;
    var k :| 0 <= k < |hits| && hits[k] == s;
    assert r[k] == s;
  }

  lemma {:induction false} LowerIdempotent(s: string)
    ensures Lower(Lower(s)) == Lower(s)
  {
    assert forall i :: 0 <= i < |s| ==> LowerChar(LowerChar(s[i])) == LowerChar(s[i]);
  }

  /** The search ignores the case of the query's ASCII letters. */
  lemma SearchIgnoresCase(students: seq<Student>, query: string)
    ensures SearchStudents(students, Lower(query)) == SearchStudents(students, query)
  {
    LowerIdempotent(query);
    FilterCongruent(students, MatcherOf(Lower(query)), MatcherOf(query));
  }

  // ---------------------------------------------------------------------
  // Payment history
  // ---------------------------------------------------------------------

  function ForStudent(id: string): FeesPayment -> bool
  {
    (p: FeesPayment) => p.studentId == id
  }

  /** The comparator of the history: later payment date first. It is a
      total preorder, and a payment goes strictly before another exactly
      when it was paid strictly later. */
  function NewerFirst(time: string -> int): (r: (FeesPayment, FeesPayment) -> bool)
    ensures TotalPreorder(r)
    ensures forall a: FeesPayment, b: FeesPayment :: r(a, b) && !r(b, a) <==> time(a.datePaid) > time(b.datePaid)
  {
    (a: FeesPayment, b: FeesPayment) => time(a.datePaid) >= time(b.datePaid)
  }

  /** The selected student's payments, latest first. */
  function HistorySorted(payments: seq<FeesPayment>, id: string, time: string -> int): (r: seq<FeesPayment>)
    ensures multiset(r) == multiset(Filter(payments, ForStudent(id)))
    ensures SortedBy(r, NewerFirst(time))
  {
    SortBy(Filter(payments, ForStudent(id)), NewerFirst(time))
  }

  /** `studentPaymentHistory`: empty with no student selected; otherwise
      the six latest payments of the selected student, latest first. */
  function PaymentHistory(payments: seq<FeesPayment>, selected: Option<Student>, time: string -> int)
    : (r: seq<FeesPayment>)
    ensures selected.None? ==> r == []
    ensures |r| <= HistoryLimit
    ensures selected.Some? ==> forall p :: p in r ==> p in payments && p.studentId == selected.value.studentId
    ensures selected.Some? ==> |r| == Min(HistoryLimit, |Filter(payments, ForStudent(selected.value.studentId))|)
    ensures selected.Some? ==> multiset(r) <= multiset(Filter(payments, ForStudent(selected.value.studentId)))
    ensures SortedBy(r, NewerFirst(time))
  {
    match selected
    case None => []
    case Some(s) => LatestOf(payments, s.studentId, time)
  }

  /** The six latest payments of one student, latest first. */
  function LatestOf(payments: seq<FeesPayment>, id: string, time: string -> int): (r: seq<FeesPayment>)
    ensures |r| == Min(HistoryLimit, |Filter(payments, ForStudent(id))|)
    ensures forall p :: p in r ==> p in payments && p.studentId == id
    ensures multiset(r) <= multiset(Filter(payments, ForStudent(id)))
    ensures SortedBy(r, NewerFirst(time))
  {
    var sorted := HistorySorted(payments, id, time);
    var r := Take(sorted, HistoryLimit);
    var le := NewerFirst(time);
    assert SortedBy(r, le) by {
      forall i, j | 0 <= i < j < |r|
        ensures le(r[i], r[j])
      {
        assert le(sorted[i], sorted[j]);
      }
    }
    forall p | p in r
      ensures p in Filter(payments, ForStudent(id))
    {
      var k :| 0 <= k < |r| && r[k] == p;
      assert sorted[k] in multiset(sorted);
    }
    r
  }

  /** A payment of the selected student that is left out of the history
      (one more copy than shown) is no later than any payment shown. */
  lemma HistoryShowsLatest(payments: seq<FeesPayment>, s: Student, time: string -> int, p: FeesPayment)
    requires multiset(PaymentHistory(payments, Some(s), time))[p] < multiset(Filter(payments, ForStudent(s.studentId)))[p]
    ensures forall q :: q in PaymentHistory(payments, Some(s), time) ==> time(q.datePaid) >= time(p.datePaid)
  {
    var sorted := HistorySorted(payments, s.studentId, time);
    var r := PaymentHistory(payments, Some(s), time);
    if |sorted| > HistoryLimit {
      assert r == sorted[..HistoryLimit];
      assert sorted == r + sorted[HistoryLimit..];
      assert multiset(sorted) == multiset(r) + multiset(sorted[HistoryLimit..]);
      assert p in sorted[HistoryLimit..];
      var j :| HistoryLimit <= j < |sorted| && sorted[j] == p;
      forall q | q in r
        ensures time(q.datePaid) >= time(p.datePaid)
      {
        var k :| 0 <= k < |r| && r[k] == q;
        assert NewerFirst(time)(sorted[k], sorted[j]);
      }
    }
  }

  // ---------------------------------------------------------------------
  // Logging a payment
  // ---------------------------------------------------------------------

  /** `handleAddPayment`: nothing happens without a selected student or
      with an empty amount; otherwise one payment of the selected student
      for the chosen month and date is logged. */
  function HandleAddPayment(st: DataStore.Store, selected: Option<Student>, amountText: string,
                            parseAmount: string -> int, month: string, date: string, stamp: string)
    : (r: DataStore.Store)
    ensures selected.None? || amountText == "" ==> r == st
    ensures selected.Some? && amountText != "" ==>
              && r.students == st.students && r.attendance == st.attendance
              && |r.payments| == |st.payments| + 1
              && r.payments[..|st.payments|] == st.payments
              && r.payments[|st.payments|].studentId == selected.value.studentId
              && r.payments[|st.payments|].monthYear == month
              && r.payments[|st.payments|].datePaid == date
              && r.payments[|st.payments|].amountPaid == parseAmount(amountText)
  {
    if selected.None? || amountText == "" then st
    else DataStore.AddFeePayment(st, PaymentData(selected.value.studentId, month, parseAmount(amountText), date), stamp)
  }

  /** A logged payment shows up in the selected student's history unless
      six payments of theirs are at least as recent. */
  lemma LoggedPaymentIsListed(st: DataStore.Store, s: Student, amountText: string, parseAmount: string -> int,
                              month: string, date: string, stamp: string, time: string -> int)
    requires amountText != ""
    ensures var after := HandleAddPayment(st, Some(s), amountText, parseAmount, month, date, stamp);
            var p := after.payments[|st.payments|];
            p !in PaymentHistory(after.payments, Some(s), time) ==>
              |PaymentHistory(after.payments, Some(s), time)| == HistoryLimit
              && forall q :: q in PaymentHistory(after.payments, Some(s), time) ==> time(q.datePaid) >= time(date)
  {
    var after := HandleAddPayment(st, Some(s), amountText, parseAmount, month, date, stamp);
    var p := after.payments[|st.payments|];
    var mine := Filter(after.payments, ForStudent(s.studentId));
    var r := PaymentHistory(after.payments, Some(s), time);
    if p !in r {
      assert p in mine;
      assert multiset(r)[p] == 0 < multiset(mine)[p];
      HistoryShowsLatest(after.payments, s, time, p);
    }
  }
}
