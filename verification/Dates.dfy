/**
 * The date types of src/types_impl/daydate.rs, longdate.rs and seconddate.rs. The formulas are written with
 * real numbers where the code uses `f64`; the date part, which the code has three times, is written once.
 */
module Dates {
  import opened Calendar
  import N = Numbers

  const ZEITENWENDE: int := 1_721_424
  const JGREG: int := 2_299_161

  /** The cast `as i32` of a floating-point number. */
  function Trunc(r: real): int {
    if r >= 0.0 then r.Floor else -((-r).Floor)
  }

  function Ja(julian: int): int {
    if julian >= JGREG then
      var jalpha := Trunc(((julian - 1_867_216) as real - 0.25) / 36524.25);
      julian + 1 + jalpha - Trunc(0.25 * jalpha as real)
    else julian
  }

  function Jc(jb: int): int {
    Trunc(6680.0 + ((jb - 2_439_870) as real - 122.1) / 365.25)
  }

  function Jd(jc: int): int {
    Trunc((365 * jc) as real + 0.25 * jc as real)
  }

  function Je(x: int): int {
    Trunc(x as real / 30.6001)
  }

  /** Date of a day, counted from 0 for 1 January 1. */
  function DateOfDay(datevalue: int): Date {
    var jb := Ja(datevalue + ZEITENWENDE) + 1524;
    var jc := Jc(jb);
    var jd := Jd(jc);
    var je := Je(jb - jd);
    var day := jb - jd - Trunc(30.6001 * je as real);
    var month := if je - 1 > 12 then je - 1 - 12 else je - 1;
    var year := if month > 2 then jc - 4715 - 1 else jc - 4715;
    Date(if year <= 0 then year - 1 else year, month, day)
  }

  /** `DayDate::as_ymd`; the special value 0 stands for day 1. */
  function AsYmd(raw: int): Date {
    DateOfDay(if raw == 0 then 0 else raw - 1)
  }

  // ---- Integer forms of the real-number formulas ----

  lemma Quarter(a: int)
    requires a >= 0
    ensures Trunc(0.25 * a as real) == a / 4
  {
  }

  lemma Jalpha(n: int)
    requires n >= 1
    ensures Trunc((n as real - 0.25) / 36524.25) == (4 * n - 1) / 146097
  {
  }

  lemma JaInteger(julian: int)
    requires julian >= JGREG
    ensures var a := (4 * (julian - 1_867_216) - 1) / 146097;
            a >= 11 && Ja(julian) == julian + 1 + a - a / 4
  {
    hide Trunc;
    Jalpha(julian - 1_867_216);
    Quarter((4 * (julian - 1_867_216) - 1) / 146097);
  }

  lemma JcInteger(jb: int)
    requires jb >= 123
    ensures Jc(jb) == (20 * jb - 2442) / 7305
  {
  }

  lemma JdInteger(jc: int)
    requires jc >= 0
    ensures Jd(jc) == 365 * jc + jc / 4
  {
  }

  /** Days before the month that starts the year at March, plus 122. */
  function MonthOffset(je: int): int {
    if je <= 4 then 122
    else if je == 5 then 153
    else if je == 6 then 183
    else if je == 7 then 214
    else if je == 8 then 244
    else if je == 9 then 275
    else if je == 10 then 306
    else if je == 11 then 336
    else if je == 12 then 367
    else if je == 13 then 397
    else if je == 14 then 428
    else 459
  }

  lemma JeInteger(x: int)
    requires 123 <= x <= 488
    ensures var je := Je(x);
            && 4 <= je <= 15
            && Trunc(30.6001 * je as real) == MonthOffset(je)
            && MonthOffset(je) < x
            && (je < 15 ==> x <= MonthOffset(je + 1))
  {
  }

  // ---- The two calendars ----

  /** The result for a day number `ja` of the proleptic Julian calendar, with years that start in March. */
  lemma JulianSteps(ja: int) returns (y: int, x: int)
    requires ja >= 0
    ensures y == Jc(ja + 1524) - 4716 && x == ja + 1524 - Jd(Jc(ja + 1524))
    ensures ja == 365 * y + y / 4 + x + 1_720_995
    ensures ja >= ZEITENWENDE ==> 0 <= y
    ensures 123 <= x <= 488 && (x == 488 ==> y % 4 == 3)
  {
    var jb := ja + 1524;
    JcInteger(jb);
    var jc := Jc(jb);
    JdInteger(jc);
    y, x := jc - 4716, jb - Jd(jc);
    assert 7305 * jc <= 20 * jb - 2442 < 7305 * jc + 7305;
    assert jc / 4 == y / 4 + 1179;
  }

  /** The date with the day `x` of the year that starts in March of year `y`. */
  function MarchDate(y: int, x: int): Date {
    var je := Je(x);
    if je <= 13 then Date(y, je - 1, x - MonthOffset(je)) else Date(y + 1, je - 13, x - MonthOffset(je))
  }

  lemma DateOfDaySteps(datevalue: int) returns (y: int, x: int)
    requires Ja(datevalue + ZEITENWENDE) >= 0
    ensures var ja := Ja(datevalue + ZEITENWENDE);
            && ja == 365 * y + y / 4 + x + 1_720_995
            && (ja >= ZEITENWENDE ==> 0 <= y)
    ensures 123 <= x <= 488 && (x == 488 ==> y % 4 == 3)
    ensures var d := MarchDate(y, x);
            DateOfDay(datevalue) == d.(year := if d.year <= 0 then d.year - 1 else d.year)
  {
    hide Ja, Jc, Jd;
    y, x := JulianSteps(Ja(datevalue + ZEITENWENDE));
    JeInteger(x);
  }

  /** Before year 1 there is no year 0: the year before is -1, and the Julian calendar goes on backwards. */
  lemma EarlyDay(datevalue: int)
    requires -ZEITENWENDE <= datevalue < 0
    ensures var d := DateOfDay(datevalue);
            var julian := d.(year := d.year + 1);
            && d.year < 0
            && 1 <= d.month <= 12 && 1 <= d.day <= DaysInMonth(julian.year, julian.month)
            && DayNumber(julian) == datevalue + ZEITENWENDE
  {
    hide DateOfDay, MarchDate;
    var y, x := DateOfDaySteps(datevalue);
    EarlyMarchDate(y, x);
  }

  lemma EarlyMarchDate(y: int, x: int)
    requires 123 <= x <= 488 && (x == 488 ==> y % 4 == 3)
    requires 365 * y + y / 4 + x + 1_720_995 < ZEITENWENDE
    ensures var d := MarchDate(y, x);
            && d.year <= 0 && 1 <= d.month <= 12 && 1 <= d.day <= DaysInMonth(d.year, d.month)
            && DayNumber(d) == 365 * y + y / 4 + x + 1_720_995
  {
    JulianLeap(y);
    hide Je, DaysBeforeMonth, DaysInMonth, Leap;
    JeInteger(x);
    MarchMonth(y, Je(x));
  }

  lemma JulianDay(datevalue: int)
    requires 0 <= datevalue && datevalue + ZEITENWENDE < JGREG
    ensures ValidDate(DateOfDay(datevalue)) && DayNumber(DateOfDay(datevalue)) == datevalue + ZEITENWENDE
  {
    var y, x := DateOfDaySteps(datevalue);
    JeInteger(x);
    MarchDateJulian(y, x);
  }

  /** The months of the year that starts in March of year `y`. */
  lemma MarchMonth(y: int, je: int)
    requires 4 <= je <= 15
    ensures je <= 13 ==> DaysBeforeMonth(y, je - 1) == MonthOffset(je) - 63 + if Leap(y) then 1 else 0
    ensures je <= 13 ==> DaysInMonth(y, je - 1) == MonthOffset(je + 1) - MonthOffset(je)
    ensures je > 13 ==> DaysBeforeMonth(y + 1, je - 13) == MonthOffset(je) - 428
    ensures je == 14 ==> DaysInMonth(y + 1, 1) == 31
    ensures je == 15 ==> DaysInMonth(y + 1, 2) == if Leap(y + 1) then 29 else 28
  {
    hide Leap;
  }

  lemma MarchDateJulian(y: int, x: int)
    requires 0 <= y && 123 <= x <= 488 && (x == 488 ==> y % 4 == 3)
    requires var ja := 365 * y + y / 4 + x + 1_720_995; ZEITENWENDE <= ja < JGREG
    ensures (y > 0 || x > 428) && ValidDate(MarchDate(y, x))
    ensures DayNumber(MarchDate(y, x)) == 365 * y + y / 4 + x + 1_720_995
  {
    JulianLeap(y);
    hide Je, DaysBeforeMonth, DaysInMonth, Leap;
    JeInteger(x);
    MarchMonth(y, Je(x));
  }

  lemma JulianLeap(y: int)
    ensures y <= 1582 ==> (Leap(y) <==> y % 4 == 0)
    ensures y < 1582 ==> (Leap(y + 1) <==> y % 4 == 3)
    ensures y / 4 == (y - 1) / 4 + if y % 4 == 0 then 1 else 0
  {
  }

  /** The century that `ja` was corrected for is the century of the year that starts in March. */
  lemma CenturyMatches(julian: int, a: int, y: int, x: int)
    requires julian >= JGREG && a == (4 * (julian - 1_867_216) - 1) / 146097
    requires julian + 1 + a - a / 4 == 365 * y + y / 4 + x + 1_720_995
    requires 123 <= x <= 488 && (x == 488 ==> y % 4 == 3)
    ensures y / 100 == a + 4
    ensures x == 488 ==> (y + 1) % 100 != 0 || (y + 1) % 400 == 0
  {
    CenturyBounds(julian - 1_867_216, a, y, x);
    CenturyOfYear(y, a);
  }

  lemma CenturyOfYear(y: int, a: int)
    requires 100 * a + 400 <= y < 100 * a + 500
    ensures y / 100 == a + 4
    ensures (y + 1) % 100 == 0 ==> y == 100 * a + 499
    ensures y == 100 * a + 499 && a % 4 == 3 ==> (y + 1) % 400 == 0
  {
    N.DivisionIsUnique(y, 100, a + 4, y - 100 * a - 400);
    if y < 100 * a + 499 {
      N.DivisionIsUnique(y + 1, 100, a + 4, y + 1 - 100 * a - 400);
    } else if a % 4 == 3 {
      N.DivisionIsUnique(y + 1, 400, a / 4 + 2, 0);
    }
  }

  lemma CenturyBounds(n: int, a: int, y: int, x: int)
    requires 4 * n - 1 >= 0 && a == (4 * n - 1) / 146097
    requires n + 1_867_217 + a - a / 4 == 365 * y + y / 4 + x + 1_720_995
    requires 123 <= x <= 488 && (x == 488 ==> y % 4 == 3)
    ensures 100 * a + 400 <= y < 100 * a + 500
    ensures x == 488 && y == 100 * a + 499 ==> a % 4 == 3
  {
    assert 146097 * a + 1 <= 4 * n <= 146097 * a + 146097;
    assert a == 4 * (a / 4) + a % 4 && y == 4 * (y / 4) + y % 4;
    assert 1461 * y - y % 4 + 4 * x == 4 * n + 584_888 + 3 * a + a % 4;
  }

  lemma MarchDateGregorian(y: int, x: int)
    requires y >= 1582 && (y == 1582 ==> x >= 351)
    requires 123 <= x <= 488 && (x == 488 ==> Leap(y + 1))
    ensures ValidDate(MarchDate(y, x)) && Gregorian(MarchDate(y, x))
    ensures DayNumber(MarchDate(y, x)) == 365 * y + y / 4 - y / 100 + y / 400 + x + 1_720_997
  {
    hide Je, DaysBeforeMonth, DaysInMonth, Leap;
    JeInteger(x);
    MarchMonth(y, Je(x));
    LeapCount(y);
  }

  lemma LeapCount(y: int)
    requires y >= 1582
    ensures var z := y - 1;
            y / 4 - y / 100 + y / 400 == z / 4 - z / 100 + z / 400 + if Leap(y) then 1 else 0
  {
    var z := y - 1;
    assert (z + 1) / 4 - z / 4 == if (z + 1) % 4 == 0 then 1 else 0;
    assert (z + 1) / 100 - z / 100 == if (z + 1) % 100 == 0 then 1 else 0;
    assert (z + 1) / 400 - z / 400 == if (z + 1) % 400 == 0 then 1 else 0;
  }

  lemma GregorianDay(datevalue: int)
    requires datevalue + ZEITENWENDE >= JGREG
    ensures ValidDate(DateOfDay(datevalue)) && DayNumber(DateOfDay(datevalue)) == datevalue + ZEITENWENDE
  {
    hide Ja, DateOfDay, MarchDate, DayNumber, ValidDate;
    var julian := datevalue + ZEITENWENDE;
    JaInteger(julian);
    var a := (4 * (julian - 1_867_216) - 1) / 146097;
    var y, x := DateOfDaySteps(datevalue);
    CenturyMatches(julian, a, y, x);
    GregorianCount(julian, a, y, x);
    MarchDateGregorian(y, x);
  }

  /** Taking the correction back is counting the leap days that the Gregorian calendar leaves out. */
  lemma GregorianCount(julian: int, a: int, y: int, x: int)
    requires julian >= JGREG && a >= 11 && y / 100 == a + 4
    requires julian + 1 + a - a / 4 == 365 * y + y / 4 + x + 1_720_995
    requires 123 <= x <= 488
    ensures y >= 1582 && (y == 1582 ==> x >= 351)
    ensures julian == 365 * y + y / 4 - y / 100 + y / 400 + x + 1_720_997
  {
    assert y / 400 == y / 100 / 4;
    assert (a + 4) / 4 == a / 4 + 1;
    assert a - a / 4 >= 9;
    assert 365 * y + y / 4 + x >= 578_176;
    assert y >= 1582;
  }

  /** For every raw day the result is the valid date with that Julian day number. */
  lemma DayNumberOfAsYmd(raw: int)
    requires raw >= 1
    ensures ValidDate(AsYmd(raw)) && DayNumber(AsYmd(raw)) == raw - 1 + ZEITENWENDE
  {
    if raw - 1 + ZEITENWENDE < JGREG {
      JulianDay(raw - 1);
    } else {
      GregorianDay(raw - 1);
    }
  }

  /** The formulas count exactly like the calendar, one day at a time. */
  lemma AsYmdIsNthDay(raw: int)
    requires raw >= 1
    ensures AsYmd(raw) == NthDay(raw)
  {
    hide AsYmd;
    DayNumberOfAsYmd(raw);
    NthDayNumber(raw);
    DayNumberInjective(AsYmd(raw), NthDay(raw));
  }

  /** No other valid date has the same Julian day number, and later days are later dates. */
  lemma AsYmdIsUniqueAndIncreasing(raw: int, later: int, d: Date)
    requires 1 <= raw < later
    ensures Before(AsYmd(raw), AsYmd(later))
    ensures ValidDate(d) && DayNumber(d) == raw - 1 + ZEITENWENDE ==> d == AsYmd(raw)
    ensures AsYmd(raw + 1) == NextDay(AsYmd(raw))
  {
    hide AsYmd, DayNumber, ValidDate;
    DayNumberOfAsYmd(raw);
    DayNumberOfAsYmd(later);
    AsYmdIsNthDay(raw);
    AsYmdIsNthDay(raw + 1);
    if ValidDate(d) && DayNumber(d) == raw - 1 + ZEITENWENDE {
      DayNumberInjective(d, AsYmd(raw));
    }
    TotalOrder(AsYmd(raw), AsYmd(later));
    if Before(AsYmd(later), AsYmd(raw)) {
      DayNumberMonotone(AsYmd(later), AsYmd(raw));
    }
  }

  lemma TotalOrder(a: Date, b: Date)
    ensures Before(a, b) || Before(b, a) || a == b
  {
  }

  // ---- Ranges and NULL ----

  const DAYDATE_NULL: int := 3_652_062
  const LONGDATE_NULL: int := 3_155_380_704_000_000_001
  const SECONDDATE_NULL: int := 315_538_070_401

  /** The first and the last day; the NULL markers stand for the day after the last one. */
  lemma Range()
    ensures AsYmd(0) == AsYmd(1) == Date(1, 1, 1)
    ensures AsYmd(DAYDATE_NULL - 1) == Date(9999, 12, 31)
    ensures DAYDATE_NULL - 1 == (LONGDATE_NULL - 1) / LongDate.dayFactor == (SECONDDATE_NULL - 1) / SecondDate.dayFactor
    ensures (LONGDATE_NULL - 1) % LongDate.dayFactor == (SECONDDATE_NULL - 1) % SecondDate.dayFactor == 0
  {
  }

  // ---- Points in time ----

  /** The units of a day: ticks of 100 ns for LongDate, seconds for SecondDate. */
  datatype Clock = Clock(secondFactor: int, minuteFactor: int, hourFactor: int, dayFactor: int)

  const LongDate := Clock(10_000_000, 600_000_000, 36_000_000_000, 864_000_000_000)
  const SecondDate := Clock(1, 60, 3_600, 86_400)

  /** A day has 24 hours, an hour 60 minutes, a minute 60 seconds, and a second 10^7 ticks or none. */
  lemma Clocks(clock: Clock)
    requires clock == LongDate || clock == SecondDate
    ensures clock.secondFactor == (if clock == LongDate then 10_000_000 else 1)
    ensures clock.minuteFactor == 60 * clock.secondFactor
    ensures clock.hourFactor == 60 * clock.minuteFactor
    ensures clock.dayFactor == 24 * clock.hourFactor
    ensures LongDate != SecondDate
  {
  }

  datatype Moment = Moment(date: Date, hour: nat, minute: nat, second: nat, fraction: nat)

  /** Division in Rust: towards zero. */
  function TruncDiv(a: int, b: int): int
    requires b > 0
  {
    if a >= 0 then a / b else -((-a) / b)
  }

  /** The cast `as u32` of an `i64`. */
  function AsU32(v: int): nat {
    v % 0x1_0000_0000
  }

  /** A remainder of at most `count` units is reduced by the whole ones. */
  lemma Field(t: int, unit: int, count: int)
    requires unit > 0 && 0 <= t < unit * count && count <= 60
    ensures var n := AsU32(TruncDiv(t, unit));
            n < count && 0 <= t - unit * n < unit
  {
    var q, r := t / unit, t % unit;
    assert t == unit * q + r && 0 <= r < unit;
    assert q >= count ==> unit * q >= unit * count;
    assert q < 0 ==> unit * q <= -unit;
  }

  /** A negative remainder leaves a huge field, or none. */
  lemma NegativeField(t: int, unit: int, count: int)
    requires unit > 0 && -(unit * count) < t <= 0 && 0 < count <= 60
    ensures var n := AsU32(TruncDiv(t, unit));
            n >= 60 || (n == 0 && -unit < t)
  {
    hide AsU32;
    var q := -TruncDiv(t, unit);
    assert TruncDiv(t, unit) == -((-t) / unit);
    hide TruncDiv;
    WholeUnits(-t, unit, count);
    NegativeCast(-q);
  }

  lemma WholeUnits(t: int, unit: int, count: int)
    requires unit > 0 && 0 <= t < unit * count
    ensures 0 <= t / unit < count && (t / unit == 0 ==> t < unit)
  {
    var q, r := t / unit, t % unit;
    assert t == unit * q + r && 0 <= r < unit;
    assert q >= count ==> unit * q >= unit * count;
    assert q < 0 ==> unit * q <= -unit;
  }

  lemma NegativeCast(v: int)
    requires -10_000_000 < v <= 0
    ensures AsU32(v) == if v == 0 then 0 else v + 0x1_0000_0000
  {
  }

  ghost predicate InRange(m: Moment, clock: Clock) {
    m.hour < 24 && m.minute < 60 && m.second < 60 && m.fraction < clock.secondFactor
  }

  /**
   * `as_ymd_hms_f` and `as_ymd_hms`: the time of day is reduced step by step. For a negative raw value the remainders
   * are negative, and the casts turn the first of them that is not zero into a huge field.
   */
  method AsYmdHms(clock: Clock, raw: int) returns (r: Moment)
    requires clock == LongDate || clock == SecondDate
    ensures raw >= 0 ==>
              var value := if raw == 0 then 0 else raw - 1;
              && r.date == AsYmd(value / clock.dayFactor + 1)
              && value == value / clock.dayFactor * clock.dayFactor + r.hour * clock.hourFactor + r.minute * clock.minuteFactor
                          + r.second * clock.secondFactor + r.fraction
              && var units := if clock == LongDate then 10_000_000 else 1;
                 value == (((value / (86_400 * units) * 24 + r.hour) * 60 + r.minute) * 60 + r.second) * units + r.fraction
    ensures clock == SecondDate ==> r.fraction == 0
    ensures raw < 0 ==> r.date == DateOfDay(-((1 - raw) / clock.dayFactor))
    ensures InRange(r, clock) <==> raw >= 0 || (raw - 1) % clock.dayFactor == 0
  {
    hide DateOfDay, TruncDiv, InRange;
    var value := if raw == 0 then 0 else raw - 1;
    var datevalue := TruncDiv(value, clock.dayFactor);
    DayAndTime(value, clock.dayFactor);
    var hour, minute, second, fraction := TimeOfDay(clock, value - datevalue * clock.dayFactor);
    InUnits(clock, value / clock.dayFactor, hour, minute, second, fraction);
    r := Moment(DateOfDay(datevalue), hour, minute, second, fraction);
    InRangeMeans(r, clock);
  }

  lemma InRangeMeans(m: Moment, clock: Clock)
    ensures InRange(m, clock) <==> m.hour < 24 && m.minute < 60 && m.second < 60 && m.fraction < clock.secondFactor
  {
  }

  /** The reduction of what is left of the day. */
  method TimeOfDay(clock: Clock, t: int) returns (hour: nat, minute: nat, second: nat, fraction: nat)
    requires clock == LongDate || clock == SecondDate
    requires -clock.dayFactor < t < clock.dayFactor
    ensures hour < 24 && minute < 60 && second < 60 && fraction < clock.secondFactor <==> t >= 0
    ensures t >= 0 ==>
              t == hour * clock.hourFactor + minute * clock.minuteFactor + second * clock.secondFactor + fraction
    ensures clock == SecondDate ==> fraction == 0
  {
    hide AsU32, TruncDiv;
    var timevalue := t;
    hour := AsU32(TruncDiv(timevalue, clock.hourFactor));
    OneField(timevalue, clock.hourFactor, 24);
    timevalue := timevalue - clock.hourFactor * hour;
    minute := AsU32(TruncDiv(timevalue, clock.minuteFactor));
    OneField(timevalue, clock.minuteFactor, 60);
    timevalue := timevalue - clock.minuteFactor * minute;
    second := AsU32(TruncDiv(timevalue, clock.secondFactor));
    OneField(timevalue, clock.secondFactor, 60);
    if clock == SecondDate {
      NoFraction(timevalue);
    }
    timevalue := timevalue - clock.secondFactor * second;
    fraction := AsU32(timevalue);
    LastField(timevalue, clock.secondFactor);
  }

  lemma InUnits(clock: Clock, days: int, hour: int, minute: int, second: int, fraction: int)
    requires clock == LongDate || clock == SecondDate
    ensures var units := if clock == LongDate then 10_000_000 else 1;
            && clock.dayFactor == 86_400 * units
            && days * clock.dayFactor + hour * clock.hourFactor + minute * clock.minuteFactor + second * clock.secondFactor
               + fraction
               == (((days * 24 + hour) * 60 + minute) * 60 + second) * units + fraction
  {
  }

  lemma NoFraction(t: int)
    ensures AsU32(t - AsU32(TruncDiv(t, 1))) == 0
  {
  }

  lemma DayAndTime(value: int, dayFactor: int)
    requires dayFactor > 0
    ensures var d := TruncDiv(value, dayFactor);
            && (value >= 0 ==> d == value / dayFactor && 0 <= value - d * dayFactor < dayFactor)
            && (value < 0 ==> d == -(-value / dayFactor) && -dayFactor < value - d * dayFactor <= 0)
            && (value - d * dayFactor == 0 <==> value % dayFactor == 0)
  {
    if value < 0 {
      NegativeDay(-value, dayFactor);
    } else {
      assert value == dayFactor * (value / dayFactor) + value % dayFactor;
    }
  }

  lemma NegativeDay(n: int, f: int)
    requires n >= 0 && f > 0
    ensures -f < -n + n / f * f <= 0
    ensures -n + n / f * f == 0 <==> -n % f == 0
  {
    var q, s := n / f, n % f;
    assert n == q * f + s && 0 <= s < f;
    assert f * -q == -(q * f) && f * (-q - 1) == -(q * f) - f;
    if s == 0 {
      N.DivisionIsUnique(-n, f, -q, 0);
    } else {
      N.DivisionIsUnique(-n, f, -q - 1, f - s);
    }
  }

  lemma OneField(t: int, unit: int, count: int)
    requires unit > 0 && 0 < count <= 60
    ensures var n := AsU32(TruncDiv(t, unit));
            && (0 <= t < unit * count ==> n < count && 0 <= t - unit * n < unit)
            && (-(unit * count) < t <= 0 ==> n >= 60 || (n == 0 && -unit < t))
  {
    hide AsU32, TruncDiv;
    if 0 <= t < unit * count {
      Field(t, unit, count);
    }
    if -(unit * count) < t <= 0 {
      NegativeField(t, unit, count);
    }
  }

  lemma LastField(t: int, unit: int)
    requires 0 < unit <= 10_000_000
    ensures 0 <= t < unit ==> AsU32(t) == t
    ensures -unit < t < 0 ==> AsU32(t) >= unit
  {
  }
}
