/** Timestamps as calendar dates (lib/time.c). */
module Calendar {
  import opened Words
  import opened Arith

  const DAY := 86400
  const EPOCH := 1970

  /** year_is_leap_year */
  predicate IsLeap(year: int) {
    year % 4 == 0 && (year % 100 != 0 || year % 400 == 0)
  }

  /** year_get_day_count */
  function DaysInYear(year: int): int {
    365 + if IsLeap(year) then 1 else 0
  }

  /** month_get_day_count; January is 1. */
  function DaysInMonth(month: int, leap: bool): int {
    if month == 2 then (if leap then 29 else 28)
    else if month == 4 || month == 6 || month == 9 || month == 11 then 30
    else 31
  }

  /** All the days from 1 January 1970 to 1 January of the year. */
  ghost function DaysBeforeYear(year: nat): nat
    requires year >= EPOCH
  {
    if year == EPOCH then 0 else DaysBeforeYear(year - 1) + DaysInYear(year - 1)
  }

  ghost function DaysBeforeMonth(month: nat, leap: bool): nat
    requires month >= 1
  {
    if month == 1 then 0 else DaysBeforeMonth(month - 1, leap) + DaysInMonth(month - 1, leap)
  }

  /** The fields of struct tm that are filled; `year` is the full year and `month` counts from 1. */
  datatype Time = Time(sec: int, min: int, hour: int, mday: int, month: int, year: int, wday: int, yday: int)

  /** Day number of a date; day 0 is 1 January 1970. */
  ghost function DayNumber(t: Time): int
    requires t.year >= EPOCH && t.month >= 1
  {
    DaysBeforeYear(t.year) + DaysBeforeMonth(t.month, IsLeap(t.year)) + (t.mday - 1)
  }

  // ----------------------------------------------------------------- the loops

  method FindYear(days: nat) returns (year: int, dayOfYear: int)
    ensures year >= EPOCH && DaysBeforeYear(year) + dayOfYear == days
    ensures -1 <= dayOfYear < 365
    ensures dayOfYear == -1 ==> year > EPOCH && IsLeap(year - 1)
  {
    year, dayOfYear := EPOCH, days;
    while dayOfYear >= 365
      invariant year >= EPOCH && DaysBeforeYear(year) + dayOfYear == days && dayOfYear >= -1
      invariant dayOfYear == -1 ==> year > EPOCH && IsLeap(year - 1)
    {
      dayOfYear := dayOfYear - DaysInYear(year);
      year := year + 1;
    }
  }

  lemma {:induction false} WholeYear(leap: bool)
    ensures DaysBeforeMonth(12, leap) == if leap then 335 else 334
    ensures DaysBeforeMonth(13, leap) == if leap then 366 else 365
  {
    assert DaysBeforeMonth(2, leap) == 31;
    assert DaysBeforeMonth(3, leap) == if leap then 60 else 59;
    assert DaysBeforeMonth(5, leap) == DaysBeforeMonth(3, leap) + 61;
    assert DaysBeforeMonth(7, leap) == DaysBeforeMonth(5, leap) + 61;
    assert DaysBeforeMonth(9, leap) == DaysBeforeMonth(7, leap) + 62;
    assert DaysBeforeMonth(11, leap) == DaysBeforeMonth(9, leap) + 61;
  }

  method FindMonth(dayOfYear: int, leap: bool) returns (month: int, dayOfMonth: int)
    requires -1 <= dayOfYear < 365
    ensures 1 <= month <= 12 && DaysBeforeMonth(month, leap) + dayOfMonth == dayOfYear
    ensures dayOfMonth < DaysInMonth(month, leap) && (if dayOfYear == -1 then month == 1 else dayOfMonth >= 0)
  {
    month, dayOfMonth := 1, dayOfYear;
    while dayOfMonth >= DaysInMonth(month, leap)
      invariant 1 <= month <= 12 && DaysBeforeMonth(month, leap) + dayOfMonth == dayOfYear
      invariant dayOfMonth >= 0 || (month == 1 && dayOfYear == -1)
      decreases 12 - month
    {
      WholeYear(leap);
      dayOfMonth := dayOfMonth - DaysInMonth(month, leap);
      month := month + 1;
    }
  }

  // ------------------------------------------------------------------ weekdays

  const SHIFTS := "bed=pen+mad."

  /** day_of_month_to_weekday; Sunday is 0. */
  function Weekday(year: int, month: int, day: int): int
    requires 1 <= month <= 12
  {
    var y := if month < 3 then year - 1 else year;
    (y + y / 4 - y / 100 + y / 400 + SHIFTS[month - 1] as int + day) % 7
  }

  function Leaps(y: int): int {
    y / 4 - y / 100 + y / 400
  }

  lemma {:induction false} LeapsStep(y: nat)
    requires y > 0
    ensures Leaps(y) == Leaps(y - 1) + if IsLeap(y) then 1 else 0
  {
    DivStep(y, 4);
    DivStep(y, 100);
    DivStep(y, 400);
    Centuries(y);
  }

  lemma {:induction false} DivStep(y: nat, d: nat)
    requires y > 0 && d > 0
    ensures y / d == (y - 1) / d + if y % d == 0 then 1 else 0
  {
    var q, m := y / d, y % d;
    if m == 0 {
      assert y - 1 == (q - 1) * d + (d - 1);
      DivUnique(y - 1, d, q - 1, d - 1);
    } else {
      DivUnique(y - 1, d, q, m - 1);
    }
  }

  lemma {:induction false} Centuries(y: nat)
    ensures y % 100 == 0 ==> y % 4 == 0
    ensures y % 400 == 0 ==> y % 100 == 0
  {
    MulDiv(25 * (y / 100), 4);
    MulDiv(4 * (y / 400), 100);
  }

  /** The days of whole years, in closed form. */
  lemma {:induction false} YearsClosed(y: nat)
    requires y >= EPOCH
    ensures DaysBeforeYear(y) == 365 * (y - EPOCH) + Leaps(y - 1) - 477
  {
    if y > EPOCH {
      YearsClosed(y - 1);
      LeapsStep(y - 1);
    }
  }

  /** The letters encode the days before each month, modulo 7. */
  lemma {:induction false} Letters(month: nat) returns (k: int)
    requires 1 <= month <= 12
    ensures SHIFTS[month - 1] as int == DaysBeforeMonth(month, false) + 7 * k + if month < 3 then 0 else 6
  {
    var d := DaysBeforeMonth(month, false);
    assert DaysBeforeMonth(4, false) == 90 && DaysBeforeMonth(2, false) == 31 && DaysBeforeMonth(3, false) == 59;
    assert DaysBeforeMonth(5, false) == 120 && DaysBeforeMonth(6, false) == 151;
    assert DaysBeforeMonth(7, false) == 181 && DaysBeforeMonth(8, false) == 212;
    assert DaysBeforeMonth(9, false) == 243 && DaysBeforeMonth(10, false) == 273;
    assert DaysBeforeMonth(11, false) == 304 && DaysBeforeMonth(12, false) == 334;
    k := (SHIFTS[month - 1] as int - d - (if month < 3 then 0 else 6)) / 7;
  }

  /** The days from the epoch to the day, four added: the epoch was a Thursday. */
  ghost function DayCount(year: nat, month: nat, day: int): int
    requires year >= EPOCH && 1 <= month <= 12
  {
    DaysBeforeYear(year) + DaysBeforeMonth(month, IsLeap(year)) + (day - 1) + 4
  }

  /** In January and February the formula counts the year before, which the letters allow for. */
  lemma {:induction false} EarlyMonths(year: nat, month: nat, day: int) returns (q: int)
    requires year >= EPOCH && 1 <= month < 3
    ensures (year - 1) + Leaps(year - 1) + SHIFTS[month - 1] as int + day == DayCount(year, month, day) + q * 7
  {
    YearsClosed(year);
    var k := Letters(month);
    LeapDay(month, IsLeap(year));
    q := k - 52 * (year - EPOCH) + 349;
  }

  lemma {:induction false} LateMonths(year: nat, month: nat, day: int) returns (q: int)
    requires year >= EPOCH && 3 <= month <= 12
    ensures year + Leaps(year) + SHIFTS[month - 1] as int + day == DayCount(year, month, day) + q * 7
  {
    YearsClosed(year);
    LeapsStep(year);
    var k := Letters(month);
    LeapDay(month, IsLeap(year));
    q := k - 52 * (year - EPOCH) + 350;
  }

  /** The formula counts days modulo 7. */
  lemma {:induction false} WeekdayCounts(year: nat, month: nat, day: int)
    requires year >= EPOCH && 1 <= month <= 12
    ensures Weekday(year, month, day) == DayCount(year, month, day) % 7
  {
    var q;
    if month < 3 {
      q := EarlyMonths(year, month, day);
    } else {
      q := LateMonths(year, month, day);
    }
    DivShift(DayCount(year, month, day), q, 7);
  }

  lemma {:induction false} LeapDay(month: nat, leap: bool)
    requires 1 <= month
    ensures DaysBeforeMonth(month, leap) == DaysBeforeMonth(month, false) + if leap && month >= 3 then 1 else 0
  {
    if month > 1 {
      LeapDay(month - 1, leap);
    }
  }

  // ----------------------------------------------------------------- the whole

  /** 31 December of a leap year. */
  ghost predicate LeapYearEnd(days: nat) {
    exists y :: y >= EPOCH && IsLeap(y) && DaysBeforeYear(y) + 365 == days
  }

  /**
   tm_from_stamp: the fields add up to the timestamp, for every timestamp whose day
   count fits an int, and the weekday is right. The date is a calendar date except on
   31 December of a leap year, which comes out as day 0 of the next January.
   */
  method FromStamp(timestamp: nat) returns (t: Time)
    requires timestamp / DAY <= INT_MAX
    ensures t.year >= EPOCH && 1 <= t.month <= 12
    ensures DayNumber(t) * DAY + (t.hour * 60 + t.min) * 60 + t.sec == timestamp
    ensures 0 <= t.hour < 24 && 0 <= t.min < 60 && 0 <= t.sec < 60
    ensures t.wday == (timestamp / DAY + 4) % 7
    ensures t.yday == DaysBeforeMonth(t.month, IsLeap(t.year)) + (t.mday - 1)
    ensures if LeapYearEnd(timestamp / DAY) then t.month == 1 && t.mday == 0 && t.yday == -1
            else 1 <= t.mday <= DaysInMonth(t.month, IsLeap(t.year))
  {
    var secondsOfDay := timestamp % DAY;
    var minutesOfDay := secondsOfDay / 60;
    var year, dayOfYear := FindYear(timestamp / DAY);
    var month, dayOfMonth := FindMonth(dayOfYear, IsLeap(year));
    WeekdayCounts(year, month, dayOfMonth + 1);
    t := Time(secondsOfDay % 60, minutesOfDay % 60, minutesOfDay / 60, dayOfMonth + 1, month, year,
              Weekday(year, month, dayOfMonth + 1), dayOfYear);
    EndOfLeapYear(timestamp / DAY, year, dayOfYear);
  }

  lemma {:induction false} YearsApart(a: nat, b: nat)
    requires EPOCH <= a <= b
    ensures DaysBeforeYear(b) >= DaysBeforeYear(a) + 365 * (b - a)
    decreases b - a
  {
    if a < b {
      YearsApart(a, b - 1);
    }
  }

  /** The day of the year is -1 exactly at the end of a leap year. */
  lemma {:induction false} EndOfLeapYear(days: nat, year: nat, dayOfYear: int)
    requires year >= EPOCH && DaysBeforeYear(year) + dayOfYear == days && -1 <= dayOfYear < 365
    requires dayOfYear == -1 ==> year > EPOCH && IsLeap(year - 1)
    ensures LeapYearEnd(days) <==> dayOfYear == -1
  {
    if dayOfYear == -1 {
      assert DaysBeforeYear(year - 1) + 365 == days;
    }
    if LeapYearEnd(days) {
      var y :| y >= EPOCH && IsLeap(y) && DaysBeforeYear(y) + 365 == days;
      if y < year {
        YearsApart(y + 1, year);
      } else {
        YearsApart(year, y);
      }
    }
  }

  /** 31 December 1972 comes out as 0 January 1973. */
  method LastDayOf1972() returns (t: Time)
    ensures LeapYearEnd(1095) && t.year == 1973 && t.month == 1 && t.mday == 0
  {
    assert IsLeap(1972) && DaysBeforeYear(1971) == 365;
    assert DaysBeforeYear(1972) + 365 == 1095;
    assert DaysBeforeYear(1973) == 1096;
    t := FromStamp(1095 * DAY);
    if t.year < 1973 {
      YearsApart(t.year, 1973);
    } else {
      YearsApart(1973, t.year);
    }
  }
}
