/** The record shapes and enumerations of the institute's data
    (`types.ts`) and the compiled-in constants (`constants.ts`). */
module Types {
  import opened Seqs

  datatype Batch = Morning | Afternoon | Evening

  datatype AttendanceStatus = Present | Absent | Late | Holiday

  datatype StudentStatus = Active | Inactive

  datatype Student = Student(
    studentId: string,
    name: string,
    batch: Batch,
    parentContact: string,
    status: StudentStatus)

  datatype AttendanceRecord = AttendanceRecord(
    recordId: string,
    studentId: string,
    date: string,        // YYYY-MM-DD
    batch: Batch,
    status: AttendanceStatus)

  datatype FeesPayment = FeesPayment(
    paymentId: string,
    studentId: string,
    monthYear: string,   // YYYY-MM
    amountDue: int,
    amountPaid: int,
    datePaid: string,    // YYYY-MM-DD
    recordedBy: string)

  /** A student's fields before an id is assigned (`Omit<Student, 'student_id'>`). */
  datatype StudentData = StudentData(
    name: string,
    batch: Batch,
    parentContact: string,
    status: StudentStatus)

  /** A payment as the fee form submits it, before the store adds its id,
      due amount and recorder. */
  datatype PaymentData = PaymentData(
    studentId: string,
    monthYear: string,
    amountPaid: int,
    datePaid: string)

  /** One (student_id, status) pair of an attendance submission. */
  datatype Entry = Entry(studentId: string, status: AttendanceStatus)

  const Batches: seq<Batch> := [Morning, Afternoon, Evening]

  /** The batch list names every batch, once each. */
  lemma EveryBatchListed()
    ensures forall b: Batch :: b in Batches
    ensures |Batches| == 3 && Batches[0] != Batches[1] && Batches[1] != Batches[2] && Batches[0] != Batches[2]
  {
    forall b: Batch
      ensures b in Batches
    {
      match b
      case Morning => assert Batches[0] == b;
      case Afternoon => assert Batches[1] == b;
      case Evening => assert Batches[2] == b;
    }
  }

  /** The operator every payment is attributed to. */
  const LoggedInUser: string := "Admin Staff"

  /** The fixed amount due per student per month. */
  const MonthlyFeeDue: int := 100

  /** Selects the students with the given id. */
  function HasId(id: string): Student -> bool
  {
    (s: Student) => s.studentId == id
  }

  /** The Active students enrolled in `batch`, in roster order: who attendance
      is taken for and who a holiday is recorded for. */
  function ActiveInBatch(students: seq<Student>, batch: Batch): (r: seq<Student>)
    ensures forall s :: s in r <==> s in students && s.batch == batch && s.status == Active
    ensures forall s :: multiset(r)[s] == if s.batch == batch && s.status == Active then multiset(students)[s] else 0
    ensures IsSubseq(r, students)
  {
    FilterMultiset(students, (s: Student) => s.batch == batch && s.status == Active);
    Filter(students, (s: Student) => s.batch == batch && s.status == Active)
  }
}
