/**
 The calendar behind localtime_r and mktime (src/lib/libc/mktime.c): leap
 years, month lengths, and the day number of a date counted from 1 January 1970.
 */
module Calendar {

  /** is_leap_year */
  predicate IsLeapYear(year: int) {
    year % 4 == 0 && (year % 100 != 0 || year % 400 == 0)
  }

  const DAYS_PER_MONTH: seq<nat> := [31, 28, 31, 30, 31, 30, 31, 31, 30, 31, 30, 31]

  /** days_per_month */
  function DaysPerMonth(month: nat, year: int): nat
    requires month < 12
  {
    DAYS_PER_MONTH[month] + if month == 1 && IsLeapYear(year) then 1 else 0
  }

  /** days_per_year */
  function DaysPerYear(year: int): nat {
    if IsLeapYear(year) then 366 else 365
  }

  /** Days from the epoch to the first day of the year. */
  function YearStart(year: int): int
    decreases if year >= 1970 then year - 1970 else 1970 - year
  {
    if year == 1970 then 0
    else if year > 1970 then YearStart(year - 1) + DaysPerYear(year - 1)
    else YearStart(year + 1) - DaysPerYear(year)
  }

  /** Days from the first day of the year to the first day of the month. */
  function MonthStart(month: nat, year: int): nat
    requires month <= 12
  {
    if month == 0 then 0 else MonthStart(month - 1, year) + DaysPerMonth(month - 1, year)
  }

  /** Days from the epoch to a date; mday counts from one and may lie outside the month. */
  function DayNumber(year: int, month: nat, mday: int): int
    requires month <= 12
  {
    YearStart(year) + MonthStart(month, year) + mday - 1
  }

  lemma NextYear(year: int)
    ensures YearStart(year + 1) == YearStart(year) + DaysPerYear(year)
  {
  }

  lemma MonthStarts(year: int)
    ensures MonthStart(0, year) == 0 && MonthStart(1, year) == 31
    ensures var leap := if IsLeapYear(year) then 1 else 0;
            && MonthStart(2, year) == 59 + leap && MonthStart(3, year) == 90 + leap && MonthStart(4, year) == 120 + leap
            && MonthStart(5, year) == 151 + leap && MonthStart(6, year) == 181 + leap && MonthStart(7, year) == 212 + leap
            && MonthStart(8, year) == 243 + leap && MonthStart(9, year) == 273 + leap && MonthStart(10, year) == 304 + leap
            && MonthStart(11, year) == 334 + leap && MonthStart(12, year) == DaysPerYear(year)
  {
    assert MonthStart(2, year) == MonthStart(1, year) + DaysPerMonth(1, year);
    assert MonthStart(4, year) == MonthStart(3, year) + DaysPerMonth(3, year);
    assert MonthStart(6, year) == MonthStart(5, year) + DaysPerMonth(5, year);
    assert MonthStart(8, year) == MonthStart(7, year) + DaysPerMonth(7, year);
    assert MonthStart(10, year) == MonthStart(9, year) + DaysPerMonth(9, year);
    assert MonthStart(12, year) == MonthStart(11, year) + DaysPerMonth(11, year);
  }

  lemma {:induction false} YearsGrow(a: int, b: int)
    requires a < b
    ensures YearStart(a) + DaysPerYear(a) <= YearStart(b)
    decreases b - a
  {
    NextYear(b - 1);
    if a < b - 1 { YearsGrow(a, b - 1); }
  }

  lemma {:induction false} MonthsGrow(a: nat, b: nat, year: int)
    requires a < b <= 12
    ensures MonthStart(a, year) + DaysPerMonth(a, year) <= MonthStart(b, year)
    decreases b - a
  {
    if a < b - 1 { MonthsGrow(a, b - 1, year); }
  }

  /** A date in normal form. */
  predicate IsDate(year: int, month: nat, mday: int) {
    month < 12 && 1 <= mday <= DaysPerMonth(month, year)
  }

  /** A later month gives a later day. */
  lemma DatesGrow(y: int, m: nat, d: int, y': int, m': nat, d': int)
    requires IsDate(y, m, d) && IsDate(y', m', d') && (y < y' || (y == y' && m < m'))
    ensures DayNumber(y, m, d) < DayNumber(y', m', d')
  {
    if y < y' {
      YearsGrow(y, y');
      MonthStarts(y);
      if m < 11 { MonthsGrow(m, 12, y); }
    } else {
      MonthsGrow(m, m', y);
    }
  }

  /** A day has one date. */
  lemma DateIsUnique(y: int, m: nat, d: int, y': int, m': nat, d': int)
    requires IsDate(y, m, d) && IsDate(y', m', d') && DayNumber(y, m, d) == DayNumber(y', m', d')
    ensures y == y' && m == m' && d == d'
  {
    if y < y' || (y == y' && m < m') { DatesGrow(y, m, d, y', m', d'); }
    if y' < y || (y == y' && m' < m) { DatesGrow(y', m', d', y, m, d); }
  }

  /** The first day of some month. */
  ghost predicate FirstOfMonth(day: int) {
    exists y: int, m: nat :: StartsAt(y, m, day)
  }

  predicate StartsAt(y: int, m: nat, day: int) {
    m < 12 && DayNumber(y, m, 1) == day
  }

  /** The day after the last day of a month is the first day of one. */
  lemma DayAfterMonth(y: int, m: nat)
    requires m < 12
    ensures FirstOfMonth(DayNumber(y, m, DaysPerMonth(m, y) + 1))
  {
    var day := DayNumber(y, m, DaysPerMonth(m, y) + 1);
    if m < 11 {
      assert StartsAt(y, m + 1, day);
    } else {
      NextYear(y);
      MonthStarts(y);
      assert StartsAt(y + 1, 0, day);
    }
  }

  // ----- The day of the week ---------------------------------------------

  const FIRST_DAY_OFFSET: seq<nat> := [0, 3, 2, 5, 0, 3, 5, 1, 4, 6, 2, 4]

  /** Division as C does it. */
  function CDiv(a: int, b: int): int
    requires b > 0
  {
    if a >= 0 then a / b else -((-a) / b)
  }

  function LeapCount(year: int): int {
    year + CDiv(year, 4) - CDiv(year, 100) + CDiv(year, 400)
  }

  /** The number Sakamoto's method reduces modulo 7, for day d of the month, counted from one. */
  function Sakamoto(year: int, month: nat, d: int): int
    requires month < 12
  {
    LeapCount(if month < 2 then year - 1 else year) + FIRST_DAY_OFFSET[month] + d
  }

  /** The count with divisions that round down, as the calendar has it. */
  function FloorCount(year: int): int {
    year + year / 4 - year / 100 + year / 400
  }

  /** How much truncating division adds for a negative year. */
  function Truncation(year: int): int {
    if year >= 0 then 0
    else (if year % 4 == 0 then 0 else 1) - (if year % 100 == 0 then 0 else 1) + (if year % 400 == 0 then 0 else 1)
  }

  /** The year whose leap days the method counts: March starts the year. */
  function CountedYear(year: int, month: nat): int {
    if month < 2 then year - 1 else year
  }

  lemma CDivRounds(a: int)
    requires a < 0
    ensures CDiv(a, 4) == a / 4 + (if a % 4 == 0 then 0 else 1)
    ensures CDiv(a, 100) == a / 100 + (if a % 100 == 0 then 0 else 1)
    ensures CDiv(a, 400) == a / 400 + (if a % 400 == 0 then 0 else 1)
  {
  }

  lemma CountsDiffer(year: int)
    ensures LeapCount(year) == FloorCount(year) + Truncation(year)
  {
    if year < 0 { CDivRounds(year); }
  }

  lemma QuotientStep(year: int)
    ensures year / 4 == (year - 1) / 4 + if year % 4 == 0 then 1 else 0
    ensures year / 100 == (year - 1) / 100 + if year % 100 == 0 then 1 else 0
    ensures year / 400 == (year - 1) / 400 + if year % 400 == 0 then 1 else 0
  {
  }

  lemma Divisible(year: int)
    ensures year % 400 == 0 ==> year % 100 == 0
    ensures year % 100 == 0 ==> year % 4 == 0
  {
  }

  lemma FloorCountStep(year: int)
    ensures FloorCount(year) == FloorCount(year - 1) + 1 + if IsLeapYear(year) then 1 else 0
  {
    QuotientStep(year);
    Divisible(year);
  }

  /** Year by year, the closed form and the count of days move together. */
  lemma {:induction false} NewYearsDay(year: int) returns (k: int)
    ensures FloorCount(year - 1) + 1 == 4 + YearStart(year) - 7 * k
    decreases if year >= 1970 then year - 1970 else 1970 - year
  {
    if year == 1970 {
      k := -349;
    } else if year > 1970 {
      var j := NewYearsDay(year - 1);
      FloorCountStep(year - 1);
      k := j + 52;
    } else {
      var j := NewYearsDay(year + 1);
      FloorCountStep(year);
      k := j - 52;
    }
  }

  /** Within a year, the table and the month lengths agree modulo 7. */
  lemma MonthOffset(year: int, month: nat) returns (k: int)
    requires month < 12
    ensures FIRST_DAY_OFFSET[month] + FloorCount(CountedYear(year, month))
            == FloorCount(year - 1) + MonthStart(month, year) - 7 * k
  {
    MonthStarts(year);
    FloorCountStep(year);
    k := (FloorCount(year - 1) + MonthStart(month, year) - FIRST_DAY_OFFSET[month] - FloorCount(CountedYear(year, month))) / 7;
  }

  /**
   For every date, the closed form gives the weekday that counting days from
   Thursday, 1 January 1970, gives, plus what truncation adds before year 1.
   */
  lemma WeekdayIsDayCount(year: int, month: nat, d: int)
    requires month < 12
    ensures Sakamoto(year, month, d) % 7 == (4 + DayNumber(year, month, d) + Truncation(CountedYear(year, month))) % 7
  {
    var j := NewYearsDay(year);
    var k := MonthOffset(year, month);
    var y := CountedYear(year, month);
    CountsDiffer(y);
    SameWeekday(Sakamoto(year, month, d), 4 + DayNumber(year, month, d) + Truncation(y), j + k);
  }

  lemma SameWeekday(x: int, y: int, k: int)
    requires x == y - 7 * k
    ensures x % 7 == y % 7
  {
  }
}
