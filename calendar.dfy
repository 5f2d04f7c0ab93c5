/** The proleptic Gregorian calendar in UTC: conversion between an instant (whole seconds
    since 1970-01-01T00:00:00Z) and its civil date and time of day. The date formatter of
    the date codec agrees with it from 1582-10-15 on; before that day Foundation's ISO 8601
    calendar follows Julian rules, which this module does not model. */
module Calendar {
  import opened Arith

  // An instant counts 86400 seconds a day, and day 719162 from 0001-01-01 is 1970-01-01.

  predicate IsLeapYear(y: int) {
    y % 4 == 0 && (y % 100 != 0 || y % 400 == 0)
  }

  function DaysInYear(y: int): int {
    if IsLeapYear(y) then 366 else 365
  }

  function DaysInMonth(y: int, m: int): int
    requires 1 <= m <= 12
  {
    if m == 2 then (if IsLeapYear(y) then 29 else 28)
    else if m == 4 || m == 6 || m == 9 || m == 11 then 30
    else 31
  }

  /** Days of year `y` before the first day of month `m`; month 13 stands for the end of
      the year. */
  function DaysBeforeMonth(y: int, m: int): int
    requires 1 <= m <= 13
  {
    [0, 31, 59, 90, 120, 151, 181, 212, 243, 273, 304, 334, 365][m - 1]
    + (if m > 2 && IsLeapYear(y) then 1 else 0)
  }

  /** Days from 0001-01-01 to the first of January of year `y` (negative before year 1). */
  function DaysBeforeYear(y: int): int {
    var a := y - 1;
    365 * a + a / 4 - a / 100 + a / 400
  }

  /** A day counted from 0001-01-01, as a year and a zero-based day of that year. */
  datatype YearDay = YearDay(year: int, dayOfYear: int)

  /** Years `1 + 400q + 100c + 4k + j` with c, k, j in their cycle ranges start
      146097q + 36524c + 1461k + 365j days after 0001-01-01, and are leap years exactly when
      they close a four-year cycle that is not a century, or close a four-century cycle. */
  lemma CycleYear(q: int, c: int, k: int, j: int)
    requires 0 <= c <= 3 && 0 <= k <= 24 && 0 <= j <= 3
    ensures DaysBeforeYear(1 + 400 * q + 100 * c + 4 * k + j) == 146097 * q + 36524 * c + 1461 * k + 365 * j
    ensures IsLeapYear(1 + 400 * q + 100 * c + 4 * k + j) <==> j == 3 && (k != 24 || c == 3)
  {
    var a := 400 * q + 100 * c + 4 * k + j;
    DivModUnique(a, 4, 100 * q + 25 * c + k, j);
    DivModUnique(a, 100, 4 * q + c, 4 * k + j);
    DivModUnique(a, 400, q, 100 * c + 4 * k + j);
    var y := a + 1;
    if j == 3 {
      DivModUnique(y, 4, 100 * q + 25 * c + k + 1, 0);
      if k == 24 {
        DivModUnique(y, 100, 4 * q + c + 1, 0);
        if c == 3 {
          DivModUnique(y, 400, q + 1, 0);
        } else {
          DivModUnique(y, 400, q, 100 * c + 100);
        }
      } else {
        DivModUnique(y, 100, 4 * q + c, 4 * k + 4);
      }
    } else {
      DivModUnique(y, 4, 100 * q + 25 * c + k, j + 1);
    }
  }

  /** Splits a day count into four-century, century, four-year and year cycles. */
  function SplitDays(d: int): (r: YearDay)
    ensures DaysBeforeYear(r.year) + r.dayOfYear == d
    ensures 0 <= r.dayOfYear < DaysInYear(r.year)
  {
    var q := d / 146097;
    var r0 := d % 146097;
    var c := if r0 / 36524 < 3 then r0 / 36524 else 3;
    var r1 := r0 - 36524 * c;
    var k := r1 / 1461;
    var r2 := r1 % 1461;
    var j := if r2 / 365 < 3 then r2 / 365 else 3;
    var doy := r2 - 365 * j;
    assert 0 <= r1 <= 36524 && (c < 3 ==> r1 < 36524);
    assert 0 <= k <= 24;
    assert k == 24 && c < 3 ==> r2 < 1460;
    CycleYear(q, c, k, j);
    YearDay(1 + 400 * q + 100 * c + 4 * k + j, doy)
  }

  /** A day count given by its cycle digits splits back into those digits. */
  lemma SplitDaysOfCycles(q: int, c: int, k: int, j: int, doy: int)
    requires 0 <= c <= 3 && 0 <= k <= 24 && 0 <= j <= 3
    requires 0 <= doy < (if j == 3 && (k != 24 || c == 3) then 366 else 365)
    ensures SplitDays(146097 * q + 36524 * c + 1461 * k + 365 * j + doy) == YearDay(1 + 400 * q + 100 * c + 4 * k + j, doy)
  {
    CycleDigits(q, c, k, j, doy);
  }

  /** The divisions `SplitDays` performs, on a day count given by its cycle digits. */
  lemma CycleDigits(q: int, c: int, k: int, j: int, doy: int)
    requires 0 <= c <= 3 && 0 <= k <= 24 && 0 <= j <= 3
    requires 0 <= doy < (if j == 3 && (k != 24 || c == 3) then 366 else 365)
    ensures var r0 := 36524 * c + 1461 * k + 365 * j + doy;
      && (146097 * q + r0) / 146097 == q && (146097 * q + r0) % 146097 == r0
      && (if r0 / 36524 < 3 then r0 / 36524 else 3) == c
      && (r0 - 36524 * c) / 1461 == k && (r0 - 36524 * c) % 1461 == 365 * j + doy
      && (if (365 * j + doy) / 365 < 3 then (365 * j + doy) / 365 else 3) == j
  {
    var r2 := 365 * j + doy;
    var r1 := 1461 * k + r2;
    var r0 := 36524 * c + r1;
    assert r1 <= 36524 && (c < 3 ==> r1 < 36524) by {
      if k < 24 {
        assert r1 <= 1461 * 23 + 1460;
      }
    }
    DivModUnique(146097 * q + r0, 146097, q, r0);
    if c < 3 {
      DivModUnique(r0, 36524, c, r1);
    } else {
      DivModUnique(r0, 36524, 3 + r1 / 36524, r1 % 36524);
    }
    DivModUnique(r1, 1461, k, r2);
    if j < 3 {
      DivModUnique(r2, 365, j, doy);
    } else {
      DivModUnique(r2, 365, 3 + doy / 365, doy % 365);
    }
  }

  /** A day of a year is recovered from its day count: `SplitDays` is the inverse of
      counting days. */
  lemma SplitDaysOfYearDay(y: int, doy: int)
    requires 0 <= doy < DaysInYear(y)
    ensures SplitDays(DaysBeforeYear(y) + doy) == YearDay(y, doy)
  {
    var a := y - 1;
    var q, r400 := a / 400, a % 400;
    var c, r100 := r400 / 100, r400 % 100;
    var k, j := r100 / 4, r100 % 4;
    assert a == 400 * q + 100 * c + 4 * k + j;
    assert 0 <= c <= 3 && 0 <= k <= 24 && 0 <= j <= 3;
    CycleYear(q, c, k, j);
    SplitDaysOfCycles(q, c, k, j, doy);
  }

  /** The month of year `y` that contains zero-based day `doy`, searching down from `m`. */
  function MonthOf(y: int, doy: int, m: int): (r: int)
    requires 1 <= m <= 12
    requires 0 <= doy < DaysBeforeMonth(y, m + 1)
    ensures 1 <= r <= m
    ensures DaysBeforeMonth(y, r) <= doy < DaysBeforeMonth(y, r + 1)
    decreases m
  {
    if m == 1 || doy >= DaysBeforeMonth(y, m) then m else MonthOf(y, doy, m - 1)
  }

  lemma DaysBeforeMonthStep(y: int, m: int)
    requires 1 <= m <= 12
    ensures DaysBeforeMonth(y, m + 1) == DaysBeforeMonth(y, m) + DaysInMonth(y, m)
    ensures DaysBeforeMonth(y, 1) == 0 && DaysBeforeMonth(y, 13) == DaysInYear(y)
  {
  }

  lemma {:induction false} DaysBeforeMonthMonotonic(y: int, m: int, n: int)
    requires 1 <= m < n <= 13
    ensures DaysBeforeMonth(y, m) < DaysBeforeMonth(y, n)
    decreases n - m
  {
    if m + 1 < n {
      DaysBeforeMonthMonotonic(y, m + 1, n);
    }
  }

  /** A civil date and time of day. */
  datatype DateTime = DateTime(year: int, month: int, day: int, hour: int, minute: int, second: int)

  predicate Valid(dt: DateTime) {
    && 1 <= dt.month <= 12
    && 1 <= dt.day <= DaysInMonth(dt.year, dt.month)
    && 0 <= dt.hour < 24 && 0 <= dt.minute < 60 && 0 <= dt.second < 60
  }

  /** The instant a valid date and time denote, in seconds since 1970-01-01T00:00:00Z. */
  function ToSeconds(dt: DateTime): int
    requires Valid(dt)
  {
    var days := DaysBeforeYear(dt.year) + DaysBeforeMonth(dt.year, dt.month) + dt.day - 1 - 719162;
    days * 86400 + dt.hour * 3600 + dt.minute * 60 + dt.second
  }

  /** A second of a day as hours, minutes and seconds. */
  function ClockOf(secs: int): (r: (int, int, int))
    requires 0 <= secs < 86400
    ensures 0 <= r.0 < 24 && 0 <= r.1 < 60 && 0 <= r.2 < 60
    ensures r.0 * 3600 + r.1 * 60 + r.2 == secs
  {
    var rest := secs % 3600;
    (secs / 3600, rest / 60, rest % 60)
  }

  /** A time of day is recovered from its second of the day. */
  lemma ClockOfTime(h: int, m: int, s: int)
    requires 0 <= h < 24 && 0 <= m < 60 && 0 <= s < 60
    ensures ClockOf(h * 3600 + m * 60 + s) == (h, m, s)
  {
    DivModUnique(h * 3600 + m * 60 + s, 3600, h, m * 60 + s);
    DivModUnique(m * 60 + s, 60, m, s);
  }

  /** A day counted from 0001-01-01 as a year, a month and a day of that month. */
  function CivilDay(d: int): (r: (int, int, int))
    ensures 1 <= r.1 <= 12 && 1 <= r.2 <= DaysInMonth(r.0, r.1)
    ensures DaysBeforeYear(r.0) + DaysBeforeMonth(r.0, r.1) + r.2 - 1 == d
  {
    var yd := SplitDays(d);
    DaysBeforeMonthStep(yd.year, 12);
    var m := MonthOf(yd.year, yd.dayOfYear, 12);
    DaysBeforeMonthStep(yd.year, m);
    (yd.year, m, yd.dayOfYear - DaysBeforeMonth(yd.year, m) + 1)
  }

  /** A date is recovered from its day count. */
  lemma CivilDayOfDate(y: int, m: int, day: int)
    requires 1 <= m <= 12 && 1 <= day <= DaysInMonth(y, m)
    ensures CivilDay(DaysBeforeYear(y) + DaysBeforeMonth(y, m) + day - 1) == (y, m, day)
  {
    var doy := DaysBeforeMonth(y, m) + day - 1;
    MonthOfDayInMonth(y, m, day);
    CivilDayOfYearDay(y, doy, m);
  }

  lemma CivilDayOfYearDay(y: int, doy: int, m: int)
    requires 1 <= m <= 12 && 0 <= doy < DaysInYear(y) && MonthOf(y, doy, 12) == m
    ensures CivilDay(DaysBeforeYear(y) + doy) == (y, m, doy - DaysBeforeMonth(y, m) + 1)
  {
    SplitDaysOfYearDay(y, doy);
    CivilDayOfSplit(DaysBeforeYear(y) + doy, y, doy, m);
  }

  lemma CivilDayOfSplit(d: int, y: int, doy: int, m: int)
    requires SplitDays(d) == YearDay(y, doy)
    requires 1 <= m <= 12 && 0 <= doy < DaysInYear(y) && MonthOf(y, doy, 12) == m
    ensures CivilDay(d) == (y, m, doy - DaysBeforeMonth(y, m) + 1)
  {
    DaysBeforeMonthStep(y, 12);
  }

  /** The civil date and time of a second of a day counted from 1970-01-01. */
  function FromDaySecond(days: int, secs: int): (dt: DateTime)
    requires 0 <= secs < 86400
    ensures Valid(dt) && ToSeconds(dt) == days * 86400 + secs
  {
    var date := CivilDay(days + 719162);
    var clock := ClockOf(secs);
    DateTime(date.0, date.1, date.2, clock.0, clock.1, clock.2)
  }

  /** The civil date and time of an instant. */
  function FromSeconds(t: int): (dt: DateTime)
    ensures Valid(dt) && ToSeconds(dt) == t
  {
    FromDaySecond(t / 86400, t % 86400)
  }

  /** The month search finds the month a day of that month lies in. */
  lemma MonthOfDayInMonth(y: int, m: int, day: int)
    requires 1 <= m <= 12 && 1 <= day <= DaysInMonth(y, m)
    ensures 0 <= DaysBeforeMonth(y, m) + day - 1 < DaysInYear(y)
    ensures MonthOf(y, DaysBeforeMonth(y, m) + day - 1, 12) == m
  {
    var doy := DaysBeforeMonth(y, m) + day - 1;
    DaysBeforeMonthStep(y, m);
    if m < 12 {
      DaysBeforeMonthMonotonic(y, m + 1, 13);
    }
    MonthUnique(y, doy, MonthOf(y, doy, 12), m);
  }

  /** Months do not overlap: a day lies in at most one of them. */
  lemma MonthUnique(y: int, doy: int, r: int, m: int)
    requires 1 <= r <= 12 && 1 <= m <= 12
    requires DaysBeforeMonth(y, r) <= doy < DaysBeforeMonth(y, r + 1)
    requires DaysBeforeMonth(y, m) <= doy < DaysBeforeMonth(y, m + 1)
    ensures r == m
  {
    if r + 1 < m {
      DaysBeforeMonthMonotonic(y, r + 1, m);
    } else if m + 1 < r {
      DaysBeforeMonthMonotonic(y, m + 1, r);
    }
  }

  /** An instant whose whole days and second of the day are known is the civil form of
      those parts. */
  lemma FromSecondsOfParts(t: int, days: int, secs: int)
    requires 0 <= secs < 86400 && t == days * 86400 + secs
    ensures FromSeconds(t) == FromDaySecond(days, secs)
  {
    SplitSeconds(t, days, secs);
  }

  lemma SplitSeconds(t: int, days: int, secs: int)
    requires 0 <= secs < 86400 && t == days * 86400 + secs
    ensures t / 86400 == days && t % 86400 == secs
  {
    DivModUnique(t, 86400, days, secs);
  }

  /** Every valid date and time is the civil form of exactly one instant. */
  lemma FromSecondsToSeconds(dt: DateTime)
    requires Valid(dt)
    ensures FromSeconds(ToSeconds(dt)) == dt
  {
    var days := DaysBeforeYear(dt.year) + DaysBeforeMonth(dt.year, dt.month) + dt.day - 1;
    var secs := dt.hour * 3600 + dt.minute * 60 + dt.second;
    FromSecondsOfParts(ToSeconds(dt), days - 719162, secs);
    CivilDayOfDate(dt.year, dt.month, dt.day);
    ClockOfTime(dt.hour, dt.minute, dt.second);
  }
}
