/** An abstract proleptic Gregorian calendar standing in for the JavaScript
    `Date` values the reports compare: a day is (year, month 1..12, day),
    ordered lexicographically. */
module Calendar {

  datatype Day = Day(year: int, month: int, day: int)

  predicate IsLeapYear(y: int)
  {
    y % 4 == 0 && (y % 100 != 0 || y % 400 == 0)
  }

  /** Length of month `m` (1..12) of year `y`. */
  function DaysInMonth(y: int, m: int): (n: int)
    requires 1 <= m <= 12
    ensures 28 <= n <= 31
    ensures m == 2 ==> (n == 29 <==> IsLeapYear(y))
    ensures m != 2 ==> (n == 30 <==> m in {4, 6, 9, 11})
    ensures m == 2 && !IsLeapYear(y) ==> n == 28
    ensures m in {1, 3, 5, 7, 8, 10, 12} ==> n == 31
  {
    if m == 2 then (if IsLeapYear(y) then 29 else 28)
    else if m == 4 || m == 6 || m == 9 || m == 11 then 30
    else 31
  }

  /** The twelve months make a year of 365 days, or 366 in a leap year. */
  lemma YearLength(y: int)
    ensures DaysInMonth(y, 1) + DaysInMonth(y, 2) + DaysInMonth(y, 3) + DaysInMonth(y, 4)
            + DaysInMonth(y, 5) + DaysInMonth(y, 6) + DaysInMonth(y, 7) + DaysInMonth(y, 8)
            + DaysInMonth(y, 9) + DaysInMonth(y, 10) + DaysInMonth(y, 11) + DaysInMonth(y, 12)
            == if IsLeapYear(y) then 366 else 365
  {
  }

  /** A day that exists on the calendar. */
  predicate Valid(d: Day)
  {
    1 <= d.month <= 12 && 1 <= d.day <= DaysInMonth(d.year, d.month)
  }

  /** `a` is on or before `b`. */
  predicate DayLe(a: Day, b: Day)
  {
    || a.year < b.year
    || (a.year == b.year && a.month < b.month)
    || (a.year == b.year && a.month == b.month && a.day <= b.day)
  }

  predicate DayLt(a: Day, b: Day)
  {
    DayLe(a, b) && a != b
  }

  /** `d` lies in the inclusive range from `start` to `end`. */
  predicate InRange(d: Day, start: Day, end: Day)
  {
    DayLe(start, d) && DayLe(d, end)
  }

  /** `new Date(year, month0, 1)` with a zero-based month: out-of-range months
      roll over into neighbouring years the way `Date` normalises them. */
  function FirstOfMonth(year: int, month0: int): (d: Day)
    ensures Valid(d) && d.day == 1
    ensures 0 <= month0 < 12 ==> d.year == year && d.month == month0 + 1
  {
    Day(year + month0 / 12, month0 % 12 + 1, 1)
  }

  /** Day zero of a month, that is, the valid day just before `d`. */
  function DayBefore(d: Day): (r: Day)
    requires Valid(d)
    ensures Valid(r) && DayLt(r, d)
    ensures forall e :: Valid(e) && DayLt(r, e) ==> DayLe(d, e)
  {
    if d.day > 1 then Day(d.year, d.month, d.day - 1)
    else if d.month > 1 then Day(d.year, d.month - 1, DaysInMonth(d.year, d.month - 1))
    else Day(d.year - 1, 12, 31)
  }

  /** `new Date(year, month0 + 1, 0)`: the last day of the month that
      `FirstOfMonth(year, month0)` opens. */
  function LastOfMonth(year: int, month0: int): Day
  {
    DayBefore(FirstOfMonth(year, month0 + 1))
  }

  /** The day-zero construction lands on the last day of the same month,
      whose number is the month's length (29 for a leap February). */
  lemma LastOfMonthIsMonthEnd(year: int, month0: int)
    ensures var f := FirstOfMonth(year, month0);
            LastOfMonth(year, month0) == Day(f.year, f.month, DaysInMonth(f.year, f.month))
  {
    var f := FirstOfMonth(year, month0);
    var g := FirstOfMonth(year, month0 + 1);
    var q, m := month0 / 12, month0 % 12;
    assert month0 == 12 * q + m;
    if m == 11 {
      assert month0 + 1 == 12 * (q + 1) + 0;
      assert g.year == year + q + 1 && g.month == 1;
    } else {
      assert month0 + 1 == 12 * q + (m + 1);
      assert g.year == year + q && g.month == m + 2;
    }
  }

  /** The days from the first to the last of a month are exactly the valid
      days of that month. */
  lemma MonthRangeIsMonth(year: int, month0: int, e: Day)
    requires Valid(e)
    ensures var f := FirstOfMonth(year, month0);
            InRange(e, f, LastOfMonth(year, month0)) <==> e.year == f.year && e.month == f.month
  {
    LastOfMonthIsMonthEnd(year, month0);
  }
}
