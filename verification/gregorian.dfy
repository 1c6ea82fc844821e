/** The proleptic Gregorian arithmetic that the calendar obtains from
    JavaScript `Date` objects, following the day-number definitions of
    ECMA-262 section 21.4.1 (Date Objects: `DayFromYear`, `InLeapYear`,
    `MakeDay`, `WeekDay`). Days are counted from 1 January 1970; months are
    numbered 0 to 11 as `getMonth` returns them. */
module Gregorian {

  type MonthIndex = m: int | 0 <= m < 12

  predicate IsLeapYear(y: int) {
    y % 4 == 0 && (y % 100 != 0 || y % 400 == 0)
  }

  function DaysInYear(y: int): int {
    if IsLeapYear(y) then 366 else 365
  }

  /** `DayFromYear(y)`: the day number of 1 January of year `y`, negative
      exactly for the years before 1970. */
  function DayFromYear(y: int): (d: int)
    ensures y >= 1970 <==> d >= 0
  {
    365 * (y - 1970) + (y - 1969) / 4 - (y - 1901) / 100 + (y - 1601) / 400
  }

  /** Days in month `m` of year `y`. */
  function DaysInMonth(y: int, m: MonthIndex): (n: int)
    ensures 28 <= n <= 31
    ensures m == 1 ==> (n == 29 <==> IsLeapYear(y))
  {
    if m == 1 then (if IsLeapYear(y) then 29 else 28)
    else if m == 3 || m == 5 || m == 8 || m == 10 then 30
    else 31
  }

  /** Days of year `y` before the first of month `m` (the table behind `MonthFromTime`). */
  function DaysBeforeMonth(y: int, m: MonthIndex): int {
    [0, 31, 59, 90, 120, 151, 181, 212, 243, 273, 304, 334][m] + (if m >= 2 && IsLeapYear(y) then 1 else 0)
  }

  /** Each entry of the table is the previous one plus the previous month's length. */
  lemma MonthStep(y: int, m: MonthIndex)
    requires m < 11
    ensures DaysBeforeMonth(y, m + 1) == DaysBeforeMonth(y, m) + DaysInMonth(y, m)
  {
  }

  /** `MakeDay(year, month, date)`: an out-of-range month carries into the
      year, and the date is added to the first of the month, so that date 0
      is the last day of the month before. The first of the month lies within
      the (carried) year. */
  function MakeDay(year: int, month: int, date: int): (d: int)
    ensures var ym := year + month / 12;
      DayFromYear(ym) <= d - (date - 1) < DayFromYear(ym + 1)
  {
    var ym := year + month / 12;
    var mn := month % 12;
    DayFromYearStep(ym);
    DayFromYear(ym) + DaysBeforeMonth(ym, mn) + date - 1
  }

  /** `WeekDay`: 0 for Sunday through 6 for Saturday; day 0 was a Thursday. */
  function WeekDay(day: int): (w: int)
    ensures 0 <= w < 7
  {
    (day + 4) % 7
  }

  /** Consecutive years are `DaysInYear` apart. */
  lemma DayFromYearStep(y: int)
    ensures DayFromYear(y + 1) == DayFromYear(y) + DaysInYear(y)
  {
    var d4 := (y - 1968) / 4 - (y - 1969) / 4;
    var d100 := (y - 1900) / 100 - (y - 1901) / 100;
    var d400 := (y - 1600) / 400 - (y - 1601) / 400;
    assert DayFromYear(y + 1) - DayFromYear(y) == 365 + d4 - d100 + d400;
    CountStep4(y);
    CountStep100(y);
    CountStep400(y);
    if y % 400 == 0 {
      Multiple400Is100(y);
    }
    if y % 100 == 0 {
      Multiple100Is4(y);
    }
  }

  /** The count of fourth years in `DayFromYear` grows by one exactly at a multiple of 4. */
  lemma CountStep4(y: int)
    ensures (y - 1968) / 4 - (y - 1969) / 4 == if y % 4 == 0 then 1 else 0
  {
    var q, r := y / 4, y % 4;
    assert y - 1968 == 4 * (q - 492) + r;
    if r == 0 {
      assert y - 1969 == 4 * (q - 493) + 3;
    } else {
      assert y - 1969 == 4 * (q - 492) + (r - 1);
    }
  }

  /** The count of century years grows by one exactly at a multiple of 100. */
  lemma CountStep100(y: int)
    ensures (y - 1900) / 100 - (y - 1901) / 100 == if y % 100 == 0 then 1 else 0
  {
    var q, r := y / 100, y % 100;
    assert y - 1900 == 100 * (q - 19) + r;
    if r == 0 {
      assert y - 1901 == 100 * (q - 20) + 99;
    } else {
      assert y - 1901 == 100 * (q - 19) + (r - 1);
    }
  }

  /** The count of 400th years grows by one exactly at a multiple of 400. */
  lemma CountStep400(y: int)
    ensures (y - 1600) / 400 - (y - 1601) / 400 == if y % 400 == 0 then 1 else 0
  {
    var q, r := y / 400, y % 400;
    assert y - 1600 == 400 * (q - 4) + r;
    if r == 0 {
      assert y - 1601 == 400 * (q - 5) + 399;
    } else {
      assert y - 1601 == 400 * (q - 4) + (r - 1);
    }
  }

  /** A multiple of 400 is a multiple of 100. */
  lemma Multiple400Is100(y: int)
    requires y % 400 == 0
    ensures y % 100 == 0
  {
    var k := y / 400;
    assert y == 100 * (4 * k) + 0;
  }

  /** A multiple of 100 is a multiple of 4. */
  lemma Multiple100Is4(y: int)
    requires y % 100 == 0
    ensures y % 4 == 0
  {
    var k := y / 100;
    assert y == 4 * (25 * k) + 0;
  }

  /** The month lengths add up to the year length. */
  lemma MonthsFillYear(y: int)
    ensures DaysBeforeMonth(y, 11) + DaysInMonth(y, 11) == DaysInYear(y)
  {
  }

  /** The first of the following month lies `DaysInMonth` days after the
      first of this one, across a year boundary too. */
  lemma NextMonthStart(y: int, m: MonthIndex)
    ensures MakeDay(y, m + 1, 1) == MakeDay(y, m, 1) + DaysInMonth(y, m)
  {
    assert MakeDay(y, m, 1) == DayFromYear(y) + DaysBeforeMonth(y, m);
    if m == 11 {
      assert (m + 1) / 12 == 1 && (m + 1) % 12 == 0;
      assert MakeDay(y, m + 1, 1) == DayFromYear(y + 1);
      DayFromYearStep(y);
      MonthsFillYear(y);
    } else {
      assert (m + 1) / 12 == 0 && (m + 1) % 12 == m + 1;
      assert MakeDay(y, m + 1, 1) == DayFromYear(y) + DaysBeforeMonth(y, m + 1);
      MonthStep(y, m);
    }
  }

  /** The source's `new Date(year, month + 1, 0).getDate()`: day 0 of the next
      month is the last day of this month, so the date it reads is `DaysInMonth`. */
  lemma LastDayTrick(y: int, m: MonthIndex)
    ensures MakeDay(y, m + 1, 0) == MakeDay(y, m, DaysInMonth(y, m))
    ensures 1 <= DaysInMonth(y, m) && MakeDay(y, m, 1) <= MakeDay(y, m + 1, 0) < MakeDay(y, m + 1, 1)
  {
    NextMonthStart(y, m);
    DateOffset(y, m + 1, 0);
    DateOffset(y, m, DaysInMonth(y, m));
  }

  /** The date is added to the first of the month. */
  lemma DateOffset(year: int, month: int, date: int)
    ensures MakeDay(year, month, date) == MakeDay(year, month, 1) + date - 1
  {
  }

  /** The weekday of the first advances by the length of the month. */
  lemma NextMonthWeekDay(y: int, m: MonthIndex)
    ensures WeekDay(MakeDay(y, m + 1, 1)) == (WeekDay(MakeDay(y, m, 1)) + DaysInMonth(y, m)) % 7
  {
    NextMonthStart(y, m);
    ModAddSeven(MakeDay(y, m, 1) + 4, DaysInMonth(y, m));
  }

  lemma ModAddSeven(x: int, n: int)
    ensures (x + n) % 7 == (x % 7 + n) % 7
  {
    var q := x / 7;
    assert x + n == (x % 7 + n) + 7 * q;
  }

  /** 1 January 1970 is day 0, a Thursday. */
  lemma EpochIsThursday()
    ensures MakeDay(1970, 0, 1) == 0 && WeekDay(MakeDay(1970, 0, 1)) == 4
  {
  }

  /** 1 January 2024 was a Monday. */
  lemma NewYear2024IsMonday()
    ensures WeekDay(MakeDay(2024, 0, 1)) == 1
  {
    assert DayFromYear(2024) == 19723;
    assert MakeDay(2024, 0, 1) == 19723;
  }

  /** February has 29 days in 2024 and 2000 but 28 in 1900. */
  lemma LeapExamples()
    ensures DaysInMonth(2024, 1) == 29 && DaysInMonth(1900, 1) == 28 && DaysInMonth(2000, 1) == 29
  {
  }
}
