/** The calendar that dates are compared with: Julian up to 4 October 1582, Gregorian from 15 October on. */
module Calendar {

  datatype Date = Date(year: int, month: int, day: int)

  predicate Leap(year: int) {
    if year <= 1582 then year % 4 == 0
    else year % 4 == 0 && (year % 100 != 0 || year % 400 == 0)
  }

  function DaysInMonth(year: int, month: int): int {
    if month == 2 then if Leap(year) then 29 else 28
    else if month == 4 || month == 6 || month == 9 || month == 11 then 30
    else 31
  }

  predicate Before(a: Date, b: Date) {
    a.year < b.year || (a.year == b.year && (a.month < b.month || (a.month == b.month && a.day < b.day)))
  }

  const LAST_JULIAN := Date(1582, 10, 4)
  const FIRST_GREGORIAN := Date(1582, 10, 15)

  predicate Gregorian(d: Date) {
    !Before(d, FIRST_GREGORIAN)
  }

  predicate ValidDate(d: Date) {
    && 1 <= d.year && 1 <= d.month <= 12 && 1 <= d.day <= DaysInMonth(d.year, d.month)
    && !(Before(LAST_JULIAN, d) && Before(d, FIRST_GREGORIAN))
  }

  function NextDay(d: Date): Date {
    if d == LAST_JULIAN then FIRST_GREGORIAN
    else if d.day < DaysInMonth(d.year, d.month) then d.(day := d.day + 1)
    else if d.month < 12 then Date(d.year, d.month + 1, 1)
    else Date(d.year + 1, 1, 1)
  }

  /** The n-th day of the era, counted day by day from 1 January 1. */
  function NthDay(n: nat): Date
    requires n >= 1
  {
    if n == 1 then Date(1, 1, 1) else NextDay(NthDay(n - 1))
  }

  // ---- Julian day numbers ----

  function DaysBeforeMonth(year: int, month: int): int {
    (if month <= 1 then 0
     else if month == 2 then 31
     else if month == 3 then 59
     else if month == 4 then 90
     else if month == 5 then 120
     else if month == 6 then 151
     else if month == 7 then 181
     else if month == 8 then 212
     else if month == 9 then 243
     else if month == 10 then 273
     else if month == 11 then 304
     else 334) + (if month > 2 && Leap(year) then 1 else 0)
  }

  /** The Julian day number of the day before 1 January of the year, in the calendar that is used. */
  function YearStart(year: int, gregorian: bool): int {
    var y := year - 1;
    if gregorian then 365 * y + y / 4 - y / 100 + y / 400 + 1_721_425
    else 365 * y + y / 4 + 1_721_423
  }

  function DayNumber(d: Date): int {
    YearStart(d.year, Gregorian(d)) + DaysBeforeMonth(d.year, d.month) + d.day
  }

  lemma NextDayCounts(d: Date)
    requires ValidDate(d)
    ensures ValidDate(NextDay(d)) && Before(d, NextDay(d))
    ensures DayNumber(NextDay(d)) == DayNumber(d) + 1
  {
    if d.day == DaysInMonth(d.year, d.month) && d.month == 12 {
      YearLength(d.year);
    }
  }

  lemma YearLength(year: int)
    requires year >= 1
    ensures YearStart(year + 1, year + 1 > 1582) - YearStart(year, year > 1582) ==
            if year == 1582 then 355 else if Leap(year) then 366 else 365
  {
    var y := year - 1;
    assert (y + 1) / 4 - y / 4 == if (y + 1) % 4 == 0 then 1 else 0;
    assert (y + 1) / 100 - y / 100 == if (y + 1) % 100 == 0 then 1 else 0;
    assert (y + 1) / 400 - y / 400 == if (y + 1) % 400 == 0 then 1 else 0;
  }

  lemma {:induction false} YearStartMonotone(a: int, b: int)
    requires 1 <= a < b
    ensures YearStart(a, a > 1582) + (if a == 1582 then 355 else if Leap(a) then 366 else 365) <= YearStart(b, b > 1582)
    decreases b - a
  {
    YearLength(a);
    if a + 1 < b {
      YearStartMonotone(a + 1, b);
    }
  }

  lemma DayOfYear(d: Date)
    requires ValidDate(d)
    ensures DayNumber(d) > YearStart(d.year, Gregorian(d))
    ensures DayNumber(d) <= YearStart(d.year, Gregorian(d)) + if Leap(d.year) then 366 else 365
    ensures d.year != 1582 ==> (Gregorian(d) <==> d.year > 1582)
  {
    hide Leap;
  }

  lemma LaterMonth(year: int, m: int, n: int)
    requires 1 <= m < n <= 12
    ensures DaysBeforeMonth(year, m) + DaysInMonth(year, m) <= DaysBeforeMonth(year, n)
  {
    hide Leap;
  }

  /** Later dates have greater numbers, so the number determines the date. */
  lemma DayNumberMonotone(a: Date, b: Date)
    requires ValidDate(a) && ValidDate(b) && Before(a, b)
    ensures DayNumber(a) < DayNumber(b)
  {
    if a.year < b.year {
      YearStartMonotone(a.year, b.year);
      DayOfYear(a);
      DayOfYear(b);
    } else if a.month < b.month {
      LaterMonth(a.year, a.month, b.month);
    }
  }

  lemma DayNumberInjective(a: Date, b: Date)
    requires ValidDate(a) && ValidDate(b) && DayNumber(a) == DayNumber(b)
    ensures a == b
  {
    if Before(a, b) {
      DayNumberMonotone(a, b);
    } else if Before(b, a) {
      DayNumberMonotone(b, a);
    }
  }

  lemma {:induction false} NthDayNumber(n: nat)
    requires n >= 1
    ensures ValidDate(NthDay(n)) && DayNumber(NthDay(n)) == n - 1 + 1_721_424
  {
    if n > 1 {
      NthDayNumber(n - 1);
      NextDayCounts(NthDay(n - 1));
    }
  }
}
