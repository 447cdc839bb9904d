/** The moments the report page actually compares. A saved record's date is
    `new Date('YYYY-MM-DD')`, which reads a date-only string as midnight UTC,
    while the report bounds are `new Date(year, month, day)`, which is
    midnight in the browser's local zone. A moment is a UTC day and a minute
    of that day; a zone is its offset in minutes east of UTC. */
module Instants {
  import opened Calendar

  datatype Instant = Instant(day: Day, minute: int)

  /** `a <= b` on moments: by day, then by minute. */
  predicate InstantLe(a: Instant, b: Instant)
  {
    DayLt(a.day, b.day) || (a.day == b.day && a.minute <= b.minute)
  }

  /** A zone less than a day away from UTC. */
  predicate Zone(offset: int)
  {
    -1440 < offset < 1440
  }

  /** `new Date('YYYY-MM-DD')` and `Timestamp.fromDate` of it: midnight UTC. */
  function RecordMoment(d: Day): Instant
  {
    Instant(d, 0)
  }

  /** `new Date(y, m0, d)`: local midnight of `d`, written as a UTC moment.
      East of UTC it falls on the evening before; west of UTC, in the small
      hours of the same UTC day. */
  function LocalMidnight(d: Day, offset: int): (r: Instant)
    requires Valid(d) && Zone(offset)
    ensures 0 <= r.minute < 1440
  {
    if offset > 0 then Instant(DayBefore(d), 1440 - offset) else Instant(d, -offset)
  }

  /** The test `attDate >= reportStartDate && attDate <= reportEndDate` as
      written, on the record's stored moment. */
  predicate InRangeAsWritten(rec: Day, start: Day, end: Day, offset: int)
    requires Valid(start) && Valid(end) && Zone(offset)
  {
    InstantLe(LocalMidnight(start, offset), RecordMoment(rec))
    && InstantLe(RecordMoment(rec), LocalMidnight(end, offset))
  }

  /** East of UTC the written test is the half-open range from `start` up to
      but not including `end`: a record on the last day is never counted. */
  lemma EastOfUtcDropsLastDay(rec: Day, start: Day, end: Day, offset: int)
    requires Valid(rec) && Valid(start) && Valid(end) && 0 < offset < 1440
    ensures InRangeAsWritten(rec, start, end, offset) <==> DayLe(start, rec) && DayLt(rec, end)
  {
    var s, e := DayBefore(start), DayBefore(end);
    assert DayLt(s, rec) <==> DayLe(start, rec);
    assert DayLe(rec, e) <==> DayLt(rec, end) by {
      if DayLt(rec, end) {
        assert !DayLt(e, rec);
      }
    }
  }

  /** West of UTC the written test leaves out the first day instead. */
  lemma WestOfUtcDropsFirstDay(rec: Day, start: Day, end: Day, offset: int)
    requires Valid(start) && Valid(end) && -1440 < offset < 0
    ensures InRangeAsWritten(rec, start, end, offset) <==> DayLt(start, rec) && DayLe(rec, end)
  {
  }

  /** In UTC the written test is the intended one. */
  lemma AtUtcAsIntended(rec: Day, start: Day, end: Day)
    requires Valid(start) && Valid(end)
    ensures InRangeAsWritten(rec, start, end, 0) <==> InRange(rec, start, end)
  {
  }

  /** At UTC+7, a record of 31 January 2025 is inside the January range by
      calendar day but is not counted by the written test. */
  lemma JanuaryAtUtcPlusSeven()
    ensures InRange(Day(2025, 1, 31), Day(2025, 1, 1), Day(2025, 1, 31))
    ensures !InRangeAsWritten(Day(2025, 1, 31), Day(2025, 1, 1), Day(2025, 1, 31), 420)
  {
    EastOfUtcDropsLastDay(Day(2025, 1, 31), Day(2025, 1, 1), Day(2025, 1, 31), 420);
  }

  /** East of UTC, the month shortcut's range as written never counts a
      record of the month's last day, for every month. */
  lemma MonthLosesLastDay(year: int, month0: int, offset: int)
    requires 0 < offset < 1440
    ensures var first, last := FirstOfMonth(year, month0), LastOfMonth(year, month0);
            && InRange(last, first, last)
            && !InRangeAsWritten(last, first, last, offset)
  {
    var first, last := FirstOfMonth(year, month0), LastOfMonth(year, month0);
    LastOfMonthIsMonthEnd(year, month0);
    EastOfUtcDropsLastDay(last, first, last, offset);
  }
}
