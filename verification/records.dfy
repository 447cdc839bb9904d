/** The per-user attendance store: the three collections the app keeps
    (`classes`, `students`, `attendance`), with the snapshot of each modelled
    as a sequence in document order. */
module Records {
  import opened Calendar
  import opened Seqs

  /** Document ids. The store hands them out from a counter, which stands for
      the database's fresh, distinct generated ids. */
  type Id = nat

  /** The opaque `serverTimestamp()` written into `createdAt`. */
  type Stamp = nat

  datatype Option<T> = None | Some(value: T)

  /** An attendance status: the four the app offers, or any other value a
      stored document may carry (which the reports ignore). */
  datatype Status = Hadir | Sakit | Izin | Alpa | Other(raw: string)
  {
    predicate Known() { !Other? }
  }

  datatype Class = Class(id: Id, name: string, createdAt: Stamp)

  datatype Student = Student(id: Id, name: string, classId: Id, createdAt: Stamp)

  datatype Attendance = Attendance(id: Id, studentId: Id, classId: Id, day: Day,
                                   status: Status, note: string, createdAt: Stamp)

  datatype Store = Store(classes: seq<Class>, students: seq<Student>,
                         attendance: seq<Attendance>, nextId: Id)

  /** Why a handler wrote nothing. */
  datatype Error =
    | EmptyName            // the trimmed name is empty
    | NoClassSelected      // no class chosen for a new student
    | NothingBeingEdited   // the edit dialog holds no item
    | NoSuchDocument       // `updateDoc` on an id the collection does not hold
    | BlankListOrNoClass   // bulk import: blank text or no class chosen
    | NoValidNames         // bulk import: no non-blank line
    | NoStudentsInClass    // attendance save with an empty roster

  datatype Result<T> = Ok(value: T) | Err(error: Error)

  function ClassId(c: Class): nat { c.id }
  function StudentId(s: Student): nat { s.id }
  function RecordId(a: Attendance): nat { a.id }

  /** Every id is below the counter and no collection repeats an id. */
  predicate WellFormed(s: Store)
  {
    && DistinctBy(s.classes, ClassId) && AllBelow(s.classes, ClassId, s.nextId)
    && DistinctBy(s.students, StudentId) && AllBelow(s.students, StudentId, s.nextId)
    && DistinctBy(s.attendance, RecordId) && AllBelow(s.attendance, RecordId, s.nextId)
  }

  /** The students of class `c`, in snapshot order: the result of the query
      `where('classId', '==', c)` on `students`. */
  function ClassRoster(s: Store, c: Id): (r: seq<Student>)
    ensures forall i :: 0 <= i < |r| ==> r[i].classId == c
    ensures multiset(r) <= multiset(s.students)
    ensures forall st :: st in multiset(s.students) && st.classId == c ==> st in multiset(r)
  {
    FilterMultiset(s.students, (st: Student) => st.classId == c);
    Filter(s.students, (st: Student) => st.classId == c)
  }

  /** The attendance records of class `c`, in snapshot order. */
  function ClassRecords(atts: seq<Attendance>, c: Id): (r: seq<Attendance>)
    ensures forall i :: 0 <= i < |r| ==> r[i].classId == c
    ensures multiset(r) <= multiset(atts)
    ensures forall a :: a in multiset(atts) && a.classId == c ==> a in multiset(r)
  {
    FilterMultiset(atts, (a: Attendance) => a.classId == c);
    Filter(atts, (a: Attendance) => a.classId == c)
  }
}
