/**
 localtime_r and mktime (src/lib/libc/mktime.c).

 time_t has 64 bits; long, int and unsigned have 32, which matters in two
 places: the day count of localtime_r is cast to unsigned, and mktime
 multiplies days by seconds per day in a long.
 */
module Mktime {
  import opened Arith
  import opened Calendar

  const WORD: int := 0x1_0000_0000
  const DAY: int := 86400

  /** Conversion to a 32-bit signed number. */
  function Wrap32(x: int): int {
    (x + WORD / 2) % WORD - WORD / 2
  }

  datatype Tm = Tm(sec: int, min: int, hour: int, mday: int, mon: int, year: int, wday: int, yday: int)

  predicate IsTime(t: int) {
    -0x8000_0000_0000_0000 + 60 < t < 0x8000_0000_0000_0000
  }

  /** The signed day count that localtime_r works with. */
  function DaysOf(t: int): int {
    if t >= 0 then (t / DAY) % WORD else -((-(t / DAY)) % WORD)
  }

  /** The position in the month that goes into the weekday: from the start going forward, from the end going backward. */
  function DaysLeft(t: int, tm: Tm): int
    requires 0 <= tm.mon < 12
  {
    if t >= 0 then tm.mday - 1 else DaysPerMonth(tm.mon, tm.year + 1900) - tm.mday + 1
  }

  predicate TimeOk(t: int, tm: Tm) {
    && 0 <= tm.sec < 60 && 0 <= tm.min < 60 && 0 <= tm.hour < 24
    && 3600 * tm.hour + 60 * tm.min + tm.sec == t % DAY
  }

  predicate DateOk(t: int, tm: Tm) {
    var year := tm.year + 1900;
    && 0 <= tm.mon < 12 && 1 <= tm.mday <= DaysPerMonth(tm.mon, year) + 1
    && DayNumber(year, tm.mon, tm.mday) == DaysOf(t)
    && tm.yday == MonthStart(tm.mon, year) + tm.mday - 1
    && (t >= 0 ==> year >= 1970 && (DaysOf(t) > 0 ==> tm.mday > 1))
    && (t < 0 && DaysOf(t) < 0 ==> tm.mday <= DaysPerMonth(tm.mon, year))
  }

  predicate WeekdayOk(t: int, tm: Tm)
    requires 0 <= tm.mon < 12
  {
    tm.wday == (Sakamoto(tm.year + 1900, tm.mon, DaysLeft(t, tm) + 1) % WORD) % 7
  }

  /** tm is what localtime_r makes of t. */
  predicate LocalTimeOf(t: int, tm: Tm) {
    TimeOk(t, tm) && DateOk(t, tm) && WeekdayOk(t, tm)
  }

  // ----- localtime_r -----------------------------------------------------

  /** One unit of the time of day: what is left over, and the whole units, rounded away from the epoch. */
  method SplitUnit(t: nat, unit: nat, forward: bool) returns (left: nat, whole: nat)
    requires unit > 0
    ensures left < unit
    ensures if forward then t == unit * whole + left else t == unit * whole - left
  {
    left, whole := 0, t;
    var part := t % unit;
    if part != 0 {
      if forward {
        left := part;
      } else {
        left := unit - part;
        whole := whole + unit;
      }
    }
    whole := whole / unit;
    DivFacts(t, unit);
  }

  lemma DivFacts(t: nat, unit: nat)
    requires unit > 0
    ensures t == unit * (t / unit) + t % unit
    ensures (t + unit) / unit == t / unit + 1
  {
    var q, r := t / unit, t % unit;
    assert unit * (q + 1) == unit * q + unit;
    DivUnique(t + unit, unit, q + 1, r);
  }

  /** Full years away from the epoch. */
  method FindYear(count: nat, forward: bool) returns (year: int, days: nat)
    ensures days <= DaysPerYear(year) && (count > 0 ==> days > 0)
    ensures if forward then year >= 1970 && YearStart(year) + days == count else YearStart(year + 1) - days == 0 - count
  {
    year, days := if forward then 1970 else 1969, count;
    while DaysPerYear(year) < days
      invariant count > 0 ==> days > 0
      invariant if forward then year >= 1970 && YearStart(year) + days == count
                else year <= 1969 && YearStart(year + 1) - days == 0 - count
      decreases days
    {
      NextYear(year);
      days := days - DaysPerYear(year);
      year := if forward then year + 1 else year - 1;
    }
  }

  /** Full months away from the end of the year where the count starts. */
  method FindMonth(count: nat, year: int, forward: bool) returns (month: nat, days: nat)
    requires count <= DaysPerYear(year)
    ensures month < 12 && days <= DaysPerMonth(month, year) && (count > 0 ==> days > 0)
    ensures if forward then MonthStart(month, year) + days == count
            else MonthStart(month + 1, year) - days == DaysPerYear(year) - count
  {
    MonthStarts(year);
    month, days := if forward then 0 else 11, count;
    while DaysPerMonth(month, year) < days
      invariant month < 12 && (count > 0 ==> days > 0)
      invariant if forward then MonthStart(month, year) + days == count
                else MonthStart(month + 1, year) - days == DaysPerYear(year) - count
      decreases days
    {
      days := days - DaysPerMonth(month, year);
      month := if forward then month + 1 else month - 1;
    }
  }

  method LocalTime(t: int) returns (tm: Tm)
    requires IsTime(t)
    ensures LocalTimeOf(t, tm)
  {
    var forward := t >= 0;
    var sec, minutes := SplitUnit(if forward then t else -t, 60, forward);
    var min, hours := SplitUnit(minutes, 60, forward);
    var hour, wholeDays := SplitUnit(hours, 24, forward);
    DayAndTime(t, sec, min, hour, if forward then wholeDays else -wholeDays);
    var count := wholeDays % WORD;
    var year, yearDays := FindYear(count, forward);
    var month, days := FindMonth(yearDays, year, forward);
    var yday := if forward then yearDays else DaysPerYear(year) - yearDays;
    var mday := if forward then days + 1 else DaysPerMonth(month, year) - days + 1;
    NextYear(year);
    var wday := (Sakamoto(year, month, days + 1) % WORD) % 7;
    tm := Tm(sec, min, hour, mday, month, year - 1900, wday, yday);
  }

  lemma DayAndTime(t: int, sec: nat, min: nat, hour: nat, days: int)
    requires sec < 60 && min < 60 && hour < 24
    requires t == 60 * (60 * (24 * days + hour) + min) + sec
    ensures t / DAY == days && t % DAY == 3600 * hour + 60 * min + sec
  {
    assert t == DAY * days + (3600 * hour + 60 * min + sec);
  }

  // ----- mktime ----------------------------------------------------------

  function TimeOfDay(tm: Tm): int {
    tm.sec + tm.min * 60 + tm.hour * 3600
  }

  /** Full months before a month; a negative month counts as the first. */
  function MonthsBefore(mon: int, year: int): int
    requires mon <= 12
  {
    if mon < 0 then 0 else MonthStart(mon, year)
  }

  /** What mktime computes from the fields. */
  function Seconds(tm: Tm): int
    requires tm.mon <= 12
  {
    var year := tm.year + 1900;
    Wrap32(DAY * (YearStart(year) + MonthsBefore(tm.mon, year) + tm.mday - 1)) + TimeOfDay(tm)
  }

  lemma WrapAdd(x: int, y: int)
    ensures Wrap32(Wrap32(x) + y) == Wrap32(x + y)
  {
    var q := (x + WORD / 2) / WORD;
    assert Wrap32(x) == x - WORD * q;
    WrapShift(x + y, -q);
  }

  lemma WrapShift(x: int, q: int)
    ensures Wrap32(x + WORD * q) == Wrap32(x)
  {
    ModShift(x + WORD / 2, q, WORD);
  }

  lemma WrapMul(x: int)
    ensures Wrap32(Wrap32(x) * DAY) == Wrap32(x * DAY)
  {
    var q := (x + WORD / 2) / WORD;
    assert Wrap32(x) == x - WORD * q;
    assert Wrap32(x) * DAY == x * DAY + WORD * (-q * DAY);
    WrapShift(x * DAY, -q * DAY);
  }

  /** Wrapping is the identity exactly on 32-bit numbers. */
  lemma WrapIdentity(x: int)
    ensures Wrap32(x) == x <==> -WORD / 2 <= x < WORD / 2
  {
  }

  /** Full days, added up in a 32-bit long. */
  method FullDays(tm: Tm) returns (days: int)
    requires tm.mon <= 12
    ensures days == Wrap32(YearStart(tm.year + 1900) + MonthsBefore(tm.mon, tm.year + 1900) + tm.mday - 1)
  {
    var year := tm.year + 1900;
    days := Wrap32(tm.mday - 1);
    var i := 0;
    while i < tm.mon
      invariant 0 <= i && (i <= tm.mon || (i == 0 && tm.mon < 0))
      invariant days == Wrap32(MonthStart(i, year) + tm.mday - 1)
    {
      WrapAdd(MonthStart(i, year) + tm.mday - 1, DaysPerMonth(i, year));
      days := Wrap32(days + DaysPerMonth(i, year));
      i := i + 1;
    }
    ghost var months := MonthsBefore(tm.mon, year) + tm.mday - 1;
    if year > 1970 {
      var y := 1970;
      while y < year
        invariant 1970 <= y <= year && days == Wrap32(YearStart(y) + months)
      {
        WrapAdd(YearStart(y) + months, DaysPerYear(y));
        NextYear(y);
        days := Wrap32(days + DaysPerYear(y));
        y := y + 1;
      }
    } else {
      var y := year;
      while y < 1970
        invariant year <= y <= 1970 && days == Wrap32(YearStart(year) - YearStart(y) + months)
      {
        WrapAdd(YearStart(year) - YearStart(y) + months, 0 - DaysPerYear(y));
        NextYear(y);
        days := Wrap32(days - DaysPerYear(y));
        y := y + 1;
      }
    }
  }

  /** The seconds, and the normalised fields that mktime writes back. */
  method MkTime(tm: Tm) returns (seconds: int, normalized: Tm)
    requires tm.mon <= 12 && -WORD / 2 <= TimeOfDay(tm) < WORD / 2
    ensures seconds == Seconds(tm)
    ensures LocalTimeOf(seconds, normalized)
  {
    var days := FullDays(tm);
    WrapMul(YearStart(tm.year + 1900) + MonthsBefore(tm.mon, tm.year + 1900) + tm.mday - 1);
    seconds := Wrap32(days * DAY) + TimeOfDay(tm);
    normalized := LocalTime(seconds);
  }

  // ----- Round trip ------------------------------------------------------

  /** The 32-bit product is the only obstacle: mktime undoes localtime_r exactly while the days fit in it. */
  lemma RoundTripIff(t: int, tm: Tm)
    requires IsTime(t) && LocalTimeOf(t, tm)
    ensures Seconds(tm) == t <==> -WORD / 2 <= DAY * (t / DAY) < WORD / 2
  {
    assert TimeOk(t, tm) && DateOk(t, tm);
    RoundTripNumbers(t);
  }

  lemma RoundTripNumbers(t: int)
    ensures Wrap32(DAY * DaysOf(t)) + t % DAY == t <==> -WORD / 2 <= DAY * (t / DAY) < WORD / 2
  {
    var days := t / DAY;
    assert t == DAY * days + t % DAY;
    WrapIdentity(DAY * DaysOf(t));
    if -WORD / 2 <= DAY * days < WORD / 2 {
      assert -WORD < days < WORD;
      DaysAreExact(t);
    }
  }

  /** In seconds: from 14 December 1901 up to, and not including, 20 January 2038, both at midnight. */
  lemma RoundTripRange(t: int, tm: Tm)
    requires IsTime(t) && LocalTimeOf(t, tm)
    ensures Seconds(tm) == t <==> -2147472000 <= t < 2147558400
  {
    RoundTripIff(t, tm);
    DaysInRange(t);
  }

  lemma DaysInRange(t: int)
    ensures -WORD / 2 <= DAY * (t / DAY) < WORD / 2 <==> -2147472000 <= t < 2147558400
  {
    var d := t / DAY;
    assert t == DAY * d + t % DAY;
    assert -WORD / 2 <= DAY * d < WORD / 2 <==> -24855 <= d < 24856;
  }

  /** The first time from the epoch on that does not come back, and the last one before it. */
  lemma RoundTripFails(tm: Tm, tm': Tm)
    requires LocalTimeOf(2147558400, tm) && LocalTimeOf(-2147472001, tm')
    ensures Seconds(tm) != 2147558400 && Seconds(tm') != -2147472001
    ensures forall t: int, x: Tm :: -2147472001 < t < 2147558400 && LocalTimeOf(t, x) ==> Seconds(x) == t
  {
    RoundTripRange(2147558400, tm);
    RoundTripRange(-2147472001, tm');
    forall t: int, x: Tm | -2147472001 < t < 2147558400 && LocalTimeOf(t, x) ensures Seconds(x) == t {
      RoundTripRange(t, x);
    }
  }

  /**
   mktime accepts fields outside their ranges: as long as the days fit, the
   fields that it writes back are in range and denote the same instant.
   */
  lemma Normalizes(tm: Tm, normal: Tm)
    requires 0 <= tm.mon <= 12 && -WORD / 2 <= TimeOfDay(tm) < WORD / 2
    requires -WORD / 2 <= DAY * DayNumber(tm.year + 1900, tm.mon, tm.mday) < WORD / 2
    requires LocalTimeOf(Seconds(tm), normal)
    ensures 0 <= normal.sec < 60 && 0 <= normal.min < 60 && 0 <= normal.hour < 24 && 0 <= normal.mon < 12
    ensures DAY * DayNumber(normal.year + 1900, normal.mon, normal.mday) + 3600 * normal.hour + 60 * normal.min + normal.sec ==
            DAY * DayNumber(tm.year + 1900, tm.mon, tm.mday) + 3600 * tm.hour + 60 * tm.min + tm.sec
  {
    var days, t := DayNumber(tm.year + 1900, tm.mon, tm.mday), Seconds(tm);
    WrapIdentity(DAY * days);
    assert t == DAY * days + TimeOfDay(tm);
    assert -WORD <= t < WORD;
    DaysAreExact(t);
    assert t == DAY * (t / DAY) + t % DAY;
  }

  // ----- Normal form -----------------------------------------------------

  /** The day count fits in an unsigned. */
  predicate DaysFit(t: int) {
    -WORD < t / DAY < WORD
  }

  lemma DaysAreExact(t: int)
    requires DaysFit(t)
    ensures DaysOf(t) == t / DAY
  {
  }

  /** localtime_r writes a proper date, except that it never names the first day of a month after the epoch. */
  lemma NormalIff(t: int, tm: Tm)
    requires IsTime(t) && DaysFit(t) && LocalTimeOf(t, tm)
    ensures IsDate(tm.year + 1900, tm.mon, tm.mday) <==> t < DAY || !FirstOfMonth(t / DAY)
  {
    DaysAreExact(t);
    var year := tm.year + 1900;
    if t >= DAY {
      if tm.mday == DaysPerMonth(tm.mon, year) + 1 {
        DayAfterMonth(year, tm.mon);
      } else if FirstOfMonth(t / DAY) {
        var y: int, m: nat :| StartsAt(y, m, t / DAY);
        DateIsUnique(year, tm.mon, tm.mday, y, m, 1);
      }
    } else if t >= 0 {
      EpochDay(tm);
    }
  }

  /** The epoch itself is a proper date. */
  lemma EpochDay(tm: Tm)
    requires 0 <= tm.mon < 12 && tm.year + 1900 >= 1970 && 1 <= tm.mday
    requires DayNumber(tm.year + 1900, tm.mon, tm.mday) == 0
    ensures tm.year == 70 && tm.mon == 0 && tm.mday == 1
  {
    var year := tm.year + 1900;
    if year > 1970 { YearsGrow(1970, year); }
    if tm.mon > 0 { MonthsGrow(0, tm.mon, year); }
  }

  /** 1 February 1970 comes out as 32 January. */
  lemma FirstOfFebruary(tm: Tm)
    requires LocalTimeOf(31 * DAY, tm)
    ensures tm.year == 70 && tm.mon == 0 && tm.mday == 32
  {
    var t := 31 * DAY;
    assert t / DAY == 31;
    MonthStarts(1970);
    assert StartsAt(1970, 1, 31);
    NormalIff(t, tm);
    var year := tm.year + 1900;
    MonthStarts(year);
    NextYear(year);
    if tm.mon < 11 {
      DateIsUnique(year, tm.mon + 1, 1, 1970, 1, 1);
    } else {
      DateIsUnique(year + 1, 0, 1, 1970, 1, 1);
    }
  }

  // ----- Weekdays --------------------------------------------------------

  lemma {:induction false} YearsAreLong(year: int)
    requires year >= 1970
    ensures YearStart(year) >= 365 * (year - 1970)
  {
    if year > 1970 { YearsAreLong(year - 1); }
  }

  lemma SumIsSmall(year: int, month: nat, d: int)
    requires 1970 <= year && 365 * (year - 1970) < WORD && month < 12 && 1 <= d <= 33
    ensures 0 <= Sakamoto(year, month, d) < WORD
  {
  }

  lemma SmallWord(x: int, day: int)
    requires 0 <= x < WORD && x % 7 == (4 + day) % 7
    ensures (x % WORD) % 7 == (4 + day) % 7
  {
    assert x % WORD == x;
  }

  lemma FedForwards(year: int, month: nat, mday: int)
    requires 1970 <= year && 365 * (year - 1970) < WORD && month < 12 && 1 <= mday <= 32
    ensures (Sakamoto(year, month, mday) % WORD) % 7 == (4 + DayNumber(year, month, mday)) % 7
  {
    SmallWord(Sakamoto(year, month, mday), DayNumber(year, month, mday)) by {
      SumIsSmall(year, month, mday);
      WeekdayIsDayCount(year, month, mday);
    }
  }

  /** From the epoch on the weekday is right. */
  lemma WeekdayIsRight(t: int, tm: Tm)
    requires 0 <= t && DaysFit(t) && LocalTimeOf(t, tm)
    ensures tm.wday == (4 + t / DAY) % 7
  {
    assert DateOk(t, tm) && WeekdayOk(t, tm);
    DaysAreExact(t);
    YearsAreLong(tm.year + 1900);
    FedForwards(tm.year + 1900, tm.mon, tm.mday);
  }

  /** What localtime_r feeds to the weekday method before the epoch: the days to the end of the month. */
  function FedBackwards(y: int, m: nat, d: int): int
    requires m < 12
  {
    Sakamoto(y, m, DaysPerMonth(m, y) - d + 2)
  }

  /**
   How far off the weekday of a date before the epoch is: the wrong end of the
   month, truncating division, and the wrap-around of a negative sum, which
   adds 2^32, that is 4 modulo 7.
   */
  function WeekdayError(y: int, m: nat, d: int): int
    requires m < 12
  {
    DaysPerMonth(m, y) + 2 - 2 * d + Truncation(CountedYear(y, m)) + if FedBackwards(y, m, d) < 0 then 4 else 0
  }

  lemma {:induction false} YearsAreLongBefore(year: int)
    requires year <= 1970
    ensures YearStart(year) <= 365 * (year - 1970)
    decreases 1970 - year
  {
    if year < 1970 { YearsAreLongBefore(year + 1); }
  }

  lemma FedIsSmall(y: int, m: nat, d: int)
    requires y < 1970 && 365 * (y - 1970) >= -2 * WORD && IsDate(y, m, d)
    ensures -WORD < FedBackwards(y, m, d) < WORD
  {
    CountsDiffer(CountedYear(y, m));
  }

  lemma WrapsToSeven(x: int)
    requires -WORD < x < WORD
    ensures (x % WORD) % 7 == (x + if x < 0 then 4 else 0) % 7
  {
    if x < 0 {
      assert x % WORD == x + WORD;
      SameWeekday(x + WORD, x + 4, -613566756);
    } else {
      assert x % WORD == x;
    }
  }

  lemma SakamotoDiffers(year: int, month: nat, d: int, d': int)
    requires month < 12
    ensures Sakamoto(year, month, d) - Sakamoto(year, month, d') == d - d'
  {
  }

  lemma SumModSeven(x: int, y: int, z: int)
    requires x % 7 == y % 7
    ensures (x + z) % 7 == (y + z) % 7
  {
    SameWeekday(x + z, y + z, (y / 7) - (x / 7));
  }

  lemma FedWeekday(y: int, m: nat, d: int)
    requires y < 1970 && 365 * (y - 1970) >= -2 * WORD && IsDate(y, m, d)
    ensures (FedBackwards(y, m, d) % WORD) % 7 == (4 + DayNumber(y, m, d) + WeekdayError(y, m, d)) % 7
  {
    var used, right := FedBackwards(y, m, d), Sakamoto(y, m, d);
    FedIsSmall(y, m, d);
    WrapsToSeven(used);
    WeekdayIsDayCount(y, m, d);
    SakamotoDiffers(y, m, DaysPerMonth(m, y) - d + 2, d);
    var off := DaysPerMonth(m, y) + 2 - 2 * d + if used < 0 then 4 else 0;
    SumModSeven(right, 4 + DayNumber(y, m, d) + Truncation(CountedYear(y, m)), off);
  }

  /**
   Before the epoch, whatever date y, m, d the day of t is, the weekday is off
   by exactly WeekdayError, and so right if and only if 7 divides that.
   */
  lemma WeekdayBeforeEpoch(t: int, tm: Tm, y: int, m: nat, d: int)
    requires t < 0 && DaysFit(t) && LocalTimeOf(t, tm) && IsDate(y, m, d) && DayNumber(y, m, d) == t / DAY
    ensures tm.wday == (4 + t / DAY + WeekdayError(y, m, d)) % 7
    ensures tm.wday == (4 + t / DAY) % 7 <==> WeekdayError(y, m, d) % 7 == 0
  {
    assert DateOk(t, tm) && WeekdayOk(t, tm);
    DaysAreExact(t);
    DateIsUnique(tm.year + 1900, tm.mon, tm.mday, y, m, d);
    YearIsBefore(y, m, d);
    YearsAreLongBefore(y + 1);
    MonthStarts(y);
    FedWeekday(y, m, d);
    SameRemainder(4 + t / DAY + WeekdayError(y, m, d), 4 + t / DAY);
  }

  lemma YearIsBefore(y: int, m: nat, d: int)
    requires m < 12 && d >= 1 && -WORD < DayNumber(y, m, d) < 0 && d <= DaysPerMonth(m, y)
    ensures y < 1970 && 365 * (y - 1970) >= -2 * WORD
  {
    if y >= 1970 {
      YearsAreLong(y);
    } else {
      YearsAreLongBefore(y);
      MonthStarts(y);
    }
  }

  lemma SameRemainder(x: int, y: int)
    ensures x % 7 == y % 7 <==> (x - y) % 7 == 0
  {
  }

  /** 31 December 1969 was a Wednesday, but comes out as a Tuesday. */
  lemma LastDayBeforeEpoch(tm: Tm)
    requires LocalTimeOf(-1, tm)
    ensures tm.year == 69 && tm.mon == 11 && tm.mday == 31 && tm.wday == 2
  {
    DaysAreExact(-1);
    assert (-1) / DAY == -1;
    MonthStarts(1969);
    NextYear(1969);
    assert DayNumber(1969, 11, 31) == -1;
    DateIsUnique(tm.year + 1900, tm.mon, tm.mday, 1969, 11, 31);
  }
}
