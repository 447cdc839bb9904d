/** The report page: the per-status summary of a class over a date range,
    the month and semester shortcuts that set the range, and the per-student
    summary with its newest-first detail list. Both views read the records
    of the selected class only. */
module Reports {
  import opened Calendar
  import opened Seqs
  import opened Records

  /* ---------------------------------------------------------------- counting */

  /** One `{ name, value }` row of a summary. */
  datatype Tally = Tally(status: Status, count: nat)

  /** The `counts` object `{ Hadir: 0, Sakit: 0, Izin: 0, Alpa: 0 }`. */
  datatype Counts = Counts(hadir: nat, sakit: nat, izin: nat, alpa: nat)

  /** The key order of the `counts` object, which is the order of the rows. */
  const Order: seq<Status> := [Hadir, Sakit, Izin, Alpa]

  /** Position of a status in `Order`; any other status comes after them all. */
  function Rank(st: Status): nat
  {
    match st
    case Hadir => 0
    case Sakit => 1
    case Izin => 2
    case Alpa => 3
    case Other(_) => 4
  }

  function RankOf(t: Tally): int
  {
    Rank(t.status)
  }

  /** `counts[st]` for one of the four statuses. */
  function Get(k: Counts, st: Status): nat
  {
    match st
    case Hadir => k.hadir
    case Sakit => k.sakit
    case Izin => k.izin
    case Alpa => k.alpa
    case Other(_) => 0
  }

  /** `if (counts.hasOwnProperty(st)) counts[st]++`: one of the four statuses
      is counted; any other value is ignored. */
  function Bump(k: Counts, st: Status): (r: Counts)
    ensures forall x: Status :: x.Known() ==> Get(r, x) == Get(k, x) + (if x == st then 1 else 0)
  {
    match st
    case Hadir => k.(hadir := k.hadir + 1)
    case Sakit => k.(sakit := k.sakit + 1)
    case Izin => k.(izin := k.izin + 1)
    case Alpa => k.(alpa := k.alpa + 1)
    case Other(_) => k
  }

  /** The `forEach` over the records, from a zeroed `counts` object. */
  function CountAll(rs: seq<Attendance>): Counts
  {
    if rs == [] then Counts(0, 0, 0, 0)
    else Bump(CountAll(rs[..|rs| - 1]), rs[|rs| - 1].status)
  }

  /** `Object.entries(counts).map(([name, value]) => ({ name, value }))`. */
  function Table(k: Counts): (r: seq<Tally>)
    ensures |r| == |Order|
    ensures forall i :: 0 <= i < |r| ==> r[i] == Tally(Order[i], Get(k, Order[i]))
  {
    [Tally(Hadir, k.hadir), Tally(Sakit, k.sakit), Tally(Izin, k.izin), Tally(Alpa, k.alpa)]
  }

  /** The number of records with status `st`, independently of any fold. */
  function Count(rs: seq<Attendance>, st: Status): nat
  {
    if rs == [] then 0
    else (if rs[0].status == st then 1 else 0) + Count(rs[1..], st)
  }

  /** The number of records whose status is one of the four. */
  function KnownCount(rs: seq<Attendance>): nat
  {
    if rs == [] then 0
    else (if rs[0].status.Known() then 1 else 0) + KnownCount(rs[1..])
  }

  function Sum(ts: seq<Tally>): nat
  {
    if ts == [] then 0 else ts[0].count + Sum(ts[1..])
  }

  lemma {:induction false} CountConcat(a: seq<Attendance>, b: seq<Attendance>, st: Status)
    ensures Count(a + b, st) == Count(a, st) + Count(b, st)
  {
    if a == [] {
      assert a + b == b;
    } else {
      assert (a + b)[1..] == a[1..] + b;
      CountConcat(a[1..], b, st);
    }
  }

  /** The `forEach` tally of a status is the number of records carrying it. */
  lemma {:induction false} CountAllCounts(rs: seq<Attendance>, st: Status)
    requires st.Known()
    ensures Get(CountAll(rs), st) == Count(rs, st)
  {
    if rs != [] {
      var init, last := rs[..|rs| - 1], rs[|rs| - 1];
      CountAllCounts(init, st);
      assert rs == init + [last];
      CountConcat(init, [last], st);
    }
  }

  /** Every record with a known status falls in exactly one of the four counts. */
  lemma {:induction false} KnownIsSumOfCounts(rs: seq<Attendance>)
    ensures KnownCount(rs) == Count(rs, Hadir) + Count(rs, Sakit) + Count(rs, Izin) + Count(rs, Alpa)
  {
    if rs != [] {
      KnownIsSumOfCounts(rs[1..]);
    }
  }

  /** The four rows of a table hold between them every record with a known
      status. */
  lemma TableSum(rs: seq<Attendance>)
    ensures Sum(Table(CountAll(rs))) == KnownCount(rs)
  {
    var k := CountAll(rs);
    var t := Table(k);
    CountAllCounts(rs, Hadir);
    CountAllCounts(rs, Sakit);
    CountAllCounts(rs, Izin);
    CountAllCounts(rs, Alpa);
    KnownIsSumOfCounts(rs);
    assert Sum(t[3..]) == k.alpa;
    assert Sum(t[2..]) == k.izin + Sum(t[3..]) by { assert t[2..][1..] == t[3..]; }
    assert Sum(t[1..]) == k.sakit + Sum(t[2..]) by { assert t[1..][1..] == t[2..]; }
  }

  /* ------------------------------------------------------------ record scope */

  /** `allAttendance`: the records of the selected class, or none when no
      class is selected. */
  function Scope(s: Store, selected: Option<Id>): (r: seq<Attendance>)
    ensures selected.None? ==> r == []
    ensures selected.Some? ==> forall i :: 0 <= i < |r| ==> r[i].classId == selected.value
    ensures selected.Some? ==> multiset(r) <= multiset(s.attendance)
    ensures selected.Some? ==>
              forall a :: a in multiset(s.attendance) && a.classId == selected.value ==> a in multiset(r)
  {
    if selected.None? then [] else ClassRecords(s.attendance, selected.value)
  }

  /* ------------------------------------------------------------ class report */

  function InPeriod(start: Day, end: Day): Attendance -> bool
  {
    (a: Attendance) => InRange(a.day, start, end)
  }

  function Positive(): Tally -> bool
  {
    (t: Tally) => t.count > 0
  }

  /** The records the class summary counts. */
  function PeriodRecords(s: Store, selected: Option<Id>, start: Day, end: Day): (r: seq<Attendance>)
    ensures forall i :: 0 <= i < |r| ==> InRange(r[i].day, start, end)
    ensures multiset(r) <= multiset(Scope(s, selected))
    ensures forall a :: a in multiset(Scope(s, selected)) && InRange(a.day, start, end) ==> a in multiset(r)
  {
    FilterMultiset(Scope(s, selected), InPeriod(start, end));
    Filter(Scope(s, selected), InPeriod(start, end))
  }

  /** Dropping the zero rows keeps the total. */
  lemma {:induction false} SumDropZeros(ts: seq<Tally>)
    ensures Sum(Filter(ts, Positive())) == Sum(ts)
  {
    if ts != [] {
      FilterCons(ts, Positive());
      SumDropZeros(ts[1..]);
    }
  }

  /** `classReportData`: for each of the four statuses, in that order, the
      number of the class's records dated within the inclusive range, leaving
      out the statuses with no record. Records with any other status are not
      counted. */
  function ClassReport(s: Store, selected: Option<Id>, start: Day, end: Day): (r: seq<Tally>)
    ensures var rs := PeriodRecords(s, selected, start, end);
            forall i :: 0 <= i < |r| ==>
              && r[i].status.Known() && r[i].count > 0
              && r[i].count == Count(rs, r[i].status)
    ensures var rs := PeriodRecords(s, selected, start, end);
            forall st: Status :: st.Known() && Count(rs, st) > 0 ==>
              exists i :: 0 <= i < |r| && r[i].status == st
    ensures forall i, j :: 0 <= i < j < |r| ==> Rank(r[i].status) < Rank(r[j].status)
    ensures Sum(r) == KnownCount(PeriodRecords(s, selected, start, end))
  {
    var rs := PeriodRecords(s, selected, start, end);
    var table := Table(CountAll(rs));
    var r := Filter(table, Positive());
    TableIsCounts(rs);
    ReportRowsCounted(rs, table, r);
    ReportRowsComplete(rs, table, r);
    RowsInOrder(rs, table, r);
    SumDropZeros(table);
    TableSum(rs);
    r
  }

  /** One row per status, in key order, each holding that status's count. */
  predicate TableOf(table: seq<Tally>, rs: seq<Attendance>)
  {
    |table| == |Order| && forall i :: 0 <= i < |Order| ==> table[i] == Tally(Order[i], Count(rs, Order[i]))
  }

  /** The `forEach` tallies are the record counts, for all four statuses. */
  lemma TableIsCounts(rs: seq<Attendance>)
    ensures TableOf(Table(CountAll(rs)), rs)
  {
    forall i | 0 <= i < |Order| ensures Table(CountAll(rs))[i] == Tally(Order[i], Count(rs, Order[i])) {
      CountAllCounts(rs, Order[i]);
    }
  }

  /** Every row left is a non-zero count of one of the four statuses. */
  lemma ReportRowsCounted(rs: seq<Attendance>, table: seq<Tally>, r: seq<Tally>)
    requires TableOf(table, rs) && r == Filter(table, Positive())
    ensures forall i :: 0 <= i < |r| ==>
              && r[i].status.Known() && r[i].count > 0
              && r[i].count == Count(rs, r[i].status)
  {
    FilterMultiset(table, Positive());
    forall i | 0 <= i < |r|
      ensures r[i].status.Known() && r[i].count > 0 && r[i].count == Count(rs, r[i].status)
    {
      assert r[i] in table by { assert r[i] in multiset(table); }
      var k :| 0 <= k < |table| && table[k] == r[i];
    }
  }

  /** With no class selected there is nothing to count. */
  lemma ClassReportWithoutClass(s: Store, start: Day, end: Day)
    ensures ClassReport(s, None, start, end) == []
  {
  }

  /** The rows left keep the key order of the `counts` object. */
  lemma RowsInOrder(rs: seq<Attendance>, table: seq<Tally>, r: seq<Tally>)
    requires TableOf(table, rs) && r == Filter(table, Positive())
    ensures forall i, j :: 0 <= i < j < |r| ==> Rank(r[i].status) < Rank(r[j].status)
  {
    assert forall i :: 0 <= i < |table| ==> RankOf(table[i]) == i;
    FilterKeepsIncreasing(table, Positive(), RankOf, -1);
  }

  /** No status with a record in the range is left out. */
  lemma ReportRowsComplete(rs: seq<Attendance>, table: seq<Tally>, r: seq<Tally>)
    requires TableOf(table, rs) && r == Filter(table, Positive())
    ensures forall st: Status :: st.Known() && Count(rs, st) > 0 ==>
              exists i :: 0 <= i < |r| && r[i].status == st
  {
    FilterMultiset(table, Positive());
    forall st: Status | st.Known() && Count(rs, st) > 0
      ensures exists i :: 0 <= i < |r| && r[i].status == st
    {
      var x := table[Rank(st)];
      assert x == Tally(st, Count(rs, st)) by {
        assert Order[Rank(st)] == st;
      }
      assert x in multiset(r) by { assert x in multiset(table); }
      assert x in r;
    }
  }

  /* -------------------------------------------------------- range shortcuts */

  /** The report range and the year selector. */
  datatype Period = Period(start: Day, end: Day, year: int)

  /** `handleMonthChange(month0, year)`: the range becomes the whole month
      (with a zero-based month that rolls over like `Date`) and the year
      selector takes `year`. */
  function MonthChange(month0: int, year: int): (p: Period)
    ensures Valid(p.start) && Valid(p.end) && p.year == year
    ensures 0 <= month0 < 12 ==> p.start.year == year && p.start.month == month0 + 1
    ensures forall e :: Valid(e) ==>
              (InRange(e, p.start, p.end) <==> e.year == p.start.year && e.month == p.start.month)
  {
    var p := Period(FirstOfMonth(year, month0), LastOfMonth(year, month0), year);
    forall e | Valid(e)
      ensures InRange(e, p.start, p.end) <==> e.year == p.start.year && e.month == p.start.month
    {
      MonthRangeIsMonth(year, month0, e);
    }
    p
  }

  /** `setSemester(semester)`: semester 1 is January to June of the selected
      year, any other value July to December; the year is kept. */
  function SetSemester(p: Period, semester: int): (r: Period)
    ensures Valid(r.start) && Valid(r.end) && r.year == p.year
    ensures forall e :: Valid(e) ==>
              (InRange(e, r.start, r.end) <==>
                 e.year == p.year && (if semester == 1 then e.month <= 6 else 7 <= e.month))
  {
    if semester == 1 then Period(Day(p.year, 1, 1), Day(p.year, 6, 30), p.year)
    else Period(Day(p.year, 7, 1), Day(p.year, 12, 31), p.year)
  }

  /* ---------------------------------------------------------- student report */

  /** Newest first: no record is dated after the one before it. */
  predicate NewestFirst(rs: seq<Attendance>)
  {
    forall i, j :: 0 <= i < j < |rs| ==> DayLe(rs[j].day, rs[i].day)
  }

  /** Places `x` in front of the first record dated on or before it, so that
      a record placed earlier stays ahead of later ones on the same day. */
  function InsertByDay(x: Attendance, t: seq<Attendance>): (r: seq<Attendance>)
    requires NewestFirst(t)
    ensures NewestFirst(r)
    ensures multiset(r) == multiset([x] + t)
    ensures r != [] && (r[0] == x || (t != [] && r[0] == t[0]))
  {
    if t == [] || DayLe(t[0].day, x.day) then [x] + t
    else
      var rest := InsertByDay(x, t[1..]);
      var r := [t[0]] + rest;
      ConsNewestFirst(t[0], rest);
      assert multiset(r) == multiset([x] + t) by {
        assert multiset(r) == multiset([t[0]]) + multiset([x] + t[1..]);
        assert t == [t[0]] + t[1..];
      }
      r
  }

  /** A record no older than the head of a newest-first list can go in front. */
  lemma ConsNewestFirst(h: Attendance, rest: seq<Attendance>)
    requires NewestFirst(rest) && (rest == [] || DayLe(rest[0].day, h.day))
    ensures NewestFirst([h] + rest)
  {
    var r := [h] + rest;
    forall i, j | 0 <= i < j < |r| ensures DayLe(r[j].day, r[i].day) {
      if i == 0 {
        assert r[j] == rest[j - 1];
        assert DayLe(rest[j - 1].day, rest[0].day);
      } else {
        assert r[i] == rest[i - 1] && r[j] == rest[j - 1];
      }
    }
  }

  /** `sort((a, b) => b.date - a.date)`: a stable sort, newest first. */
  function SortByDay(rs: seq<Attendance>): (r: seq<Attendance>)
    ensures NewestFirst(r)
    ensures multiset(r) == multiset(rs)
  {
    if rs == [] then []
    else
      assert rs == [rs[0]] + rs[1..];
      InsertByDay(rs[0], SortByDay(rs[1..]))
  }

  /** A list already newest first comes out of the sort unchanged, same-day
      records included. */
  lemma {:induction false} SortedIsFixed(rs: seq<Attendance>)
    requires NewestFirst(rs)
    ensures SortByDay(rs) == rs
  {
    if rs != [] {
      var tail := rs[1..];
      assert NewestFirst(tail) by {
        assert forall i :: 0 <= i < |tail| ==> tail[i] == rs[i + 1];
      }
      SortedIsFixed(tail);
      assert tail == [] || DayLe(tail[0].day, rs[0].day) by {
        if tail != [] {
          assert tail[0] == rs[1];
        }
      }
      InsertAtFront(rs[0], tail);
      assert rs == [rs[0]] + tail;
    }
  }

  lemma InsertAtFront(x: Attendance, t: seq<Attendance>)
    requires NewestFirst(t) && (t == [] || DayLe(t[0].day, x.day))
    ensures InsertByDay(x, t) == [x] + t
  {
  }

  lemma {:induction false} CountInsert(x: Attendance, t: seq<Attendance>, st: Status)
    requires NewestFirst(t)
    ensures Count(InsertByDay(x, t), st) == Count([x] + t, st)
  {
    if t != [] && !DayLe(t[0].day, x.day) {
      CountInsert(x, t[1..], st);
      var rest := InsertByDay(x, t[1..]);
      assert ([t[0]] + rest)[1..] == rest;
      assert ([x] + t[1..])[1..] == t[1..];
      assert ([x] + t)[1..] == t;
    }
  }

  /** Sorting does not change how many records carry a status. */
  lemma {:induction false} CountSort(rs: seq<Attendance>, st: Status)
    ensures Count(SortByDay(rs), st) == Count(rs, st)
  {
    if rs != [] {
      CountSort(rs[1..], st);
      CountInsert(rs[0], SortByDay(rs[1..]), st);
      assert ([rs[0]] + SortByDay(rs[1..]))[1..] == SortByDay(rs[1..]);
    }
  }

  lemma {:induction false} KnownCountSort(rs: seq<Attendance>)
    ensures KnownCount(SortByDay(rs)) == KnownCount(rs)
  {
    KnownIsSumOfCounts(rs);
    KnownIsSumOfCounts(SortByDay(rs));
    CountSort(rs, Hadir);
    CountSort(rs, Sakit);
    CountSort(rs, Izin);
    CountSort(rs, Alpa);
  }

  function OfStudent(sid: Id): Attendance -> bool
  {
    (a: Attendance) => a.studentId == sid
  }

  /** The selected student's records within the selected class, unsorted. */
  function StudentRecords(s: Store, selClass: Option<Id>, sid: Id): (r: seq<Attendance>)
    ensures forall i :: 0 <= i < |r| ==> r[i].studentId == sid
    ensures multiset(r) <= multiset(Scope(s, selClass))
    ensures forall a :: a in multiset(Scope(s, selClass)) && a.studentId == sid ==> a in multiset(r)
  {
    FilterMultiset(Scope(s, selClass), OfStudent(sid));
    Filter(Scope(s, selClass), OfStudent(sid))
  }

  datatype StudentSummary = StudentSummary(summary: seq<Tally>, details: seq<Attendance>)

  /** `studentReportData`: with no student selected, nothing. Otherwise the
      student's records of the selected class, newest first, and a row for
      each of the four statuses, zero counts included. */
  function StudentReport(s: Store, selClass: Option<Id>, selStudent: Option<Id>): (r: StudentSummary)
    ensures selStudent.None? ==> r == StudentSummary([], [])
    ensures selStudent.Some? ==>
              var rs := StudentRecords(s, selClass, selStudent.value);
              && multiset(r.details) == multiset(rs)
              && NewestFirst(r.details)
              && TableOf(r.summary, rs)
              && Sum(r.summary) == KnownCount(rs)
  {
    if selStudent.None? then StudentSummary([], [])
    else
      var rs := StudentRecords(s, selClass, selStudent.value);
      var details := SortByDay(rs);
      var summary := Table(CountAll(details));
      StudentTableFacts(rs, details);
      StudentSummary(summary, details)
  }

  lemma StudentTableFacts(rs: seq<Attendance>, details: seq<Attendance>)
    requires details == SortByDay(rs)
    ensures TableOf(Table(CountAll(details)), rs)
    ensures Sum(Table(CountAll(details))) == KnownCount(rs)
  {
    TableIsCounts(details);
    forall st: Status ensures Count(details, st) == Count(rs, st) {
      CountSort(rs, st);
    }
    TableSum(details);
    KnownCountSort(rs);
  }
}
