/** Proleptic Gregorian calendar arithmetic in UTC, as Go's `time` package
    does it when it turns a parsed date and time of day into a Unix time.
    `UnixSeconds` is given in closed form; the lemmas below tie it to the
    day-by-day definition of the calendar (each year and each month adds
    its length) and show that it is one-to-one on valid dates. */
module Calendar {

  datatype DateTime = DateTime(year: int, month: int, day: int, hour: int, minute: int, second: int)

  predicate IsLeap(y: int) { y % 4 == 0 && (y % 100 != 0 || y % 400 == 0) }

  function YearLength(y: int): int { if IsLeap(y) then 366 else 365 }

  function DaysIn(m: int, y: int): int
    requires 1 <= m <= 12
  {
    if m == 2 then (if IsLeap(y) then 29 else 28)
    else if m == 4 || m == 6 || m == 9 || m == 11 then 30
    else 31
  }

  /** The ranges Go's `time.Parse` accepts for each field. */
  predicate Valid(dt: DateTime)
  {
    && 1 <= dt.month <= 12
    && 1 <= dt.day <= DaysIn(dt.month, dt.year)
    && 0 <= dt.hour < 24
    && 0 <= dt.minute < 60
    && 0 <= dt.second < 60
  }

  /** The number of leap years in 1..y (extended to y <= 0 by floor division). */
  function LeapsThrough(y: int): int { y / 4 - y / 100 + y / 400 }

  /** Days from 1970-01-01 to January 1st of year y. */
  function DaysBeforeYear(y: int): int
  {
    365 * (y - 1970) + LeapsThrough(y - 1) - LeapsThrough(1969)
  }

  /** Days from January 1st to the first day of month m of year y. */
  function DaysBeforeMonth(m: int, y: int): int
    requires 1 <= m <= 12
  {
    var before :=
      if m == 1 then 0 else if m == 2 then 31 else if m == 3 then 59
      else if m == 4 then 90 else if m == 5 then 120 else if m == 6 then 151
      else if m == 7 then 181 else if m == 8 then 212 else if m == 9 then 243
      else if m == 10 then 273 else if m == 11 then 304 else 334;
    before + if m > 2 && IsLeap(y) then 1 else 0
  }

  /** Days from 1970-01-01 to the date of dt. */
  function DayNumber(dt: DateTime): int
    requires 1 <= dt.month <= 12
  {
    DaysBeforeYear(dt.year) + DaysBeforeMonth(dt.month, dt.year) + dt.day - 1
  }

  function SecondOfDay(dt: DateTime): int
  {
    dt.hour * 3600 + dt.minute * 60 + dt.second
  }

  /** `time.Time.Unix()` of the UTC instant dt. */
  function UnixSeconds(dt: DateTime): int
    requires 1 <= dt.month <= 12
  {
    DayNumber(dt) * 86400 + SecondOfDay(dt)
  }

  /** The Unix epoch is 1970-01-01 00:00:00 UTC. */
  lemma Epoch(dt: DateTime)
    requires dt == DateTime(1970, 1, 1, 0, 0, 0)
    ensures UnixSeconds(dt) == 0
  {
    assert DayNumber(dt) == 0;
  }

  lemma DivStep(x: int, k: int)
    requires k == 4 || k == 100 || k == 400
    ensures x / k - (x - 1) / k == if x % k == 0 then 1 else 0
  {
    if k == 4 {
      assert x / 4 - (x - 1) / 4 == if x % 4 == 0 then 1 else 0;
    } else if k == 100 {
      assert x / 100 - (x - 1) / 100 == if x % 100 == 0 then 1 else 0;
    } else {
      assert x / 400 - (x - 1) / 400 == if x % 400 == 0 then 1 else 0;
    }
  }

  lemma Div400(y: int)
    requires y % 400 == 0
    ensures y % 100 == 0
  {
    assert y == 400 * (y / 400);
    assert y / 100 == 4 * (y / 400);
  }

  lemma Div100(y: int)
    requires y % 100 == 0
    ensures y % 4 == 0
  {
    assert y == 100 * (y / 100);
    assert y / 4 == 25 * (y / 100);
  }

  /** Year y contributes one leap day exactly when it is a leap year. */
  lemma LeapStep(y: int)
    ensures LeapsThrough(y) - LeapsThrough(y - 1) == if IsLeap(y) then 1 else 0
  {
    DivStep(y, 4);
    DivStep(y, 100);
    DivStep(y, 400);
    if y % 400 == 0 {
      Div400(y);
      Div100(y);
    } else if y % 100 == 0 {
      Div100(y);
    }
  }

  /** The closed form advances by exactly the length of each year. */
  lemma YearStep(y: int)
    ensures DaysBeforeYear(y + 1) == DaysBeforeYear(y) + YearLength(y)
  {
    LeapStep(y);
  }

  /** Within a year, each month advances the count by its own length, and
      the twelve months make up the year. */
  lemma MonthStep(m: int, y: int)
    requires 1 <= m <= 12
    ensures m < 12 ==> DaysBeforeMonth(m + 1, y) == DaysBeforeMonth(m, y) + DaysIn(m, y)
    ensures m == 12 ==> DaysBeforeMonth(m, y) + DaysIn(m, y) == YearLength(y)
  {
  }

  lemma {:induction false} YearsApart(y1: int, y2: int)
    requires y1 < y2
    ensures DaysBeforeYear(y2) >= DaysBeforeYear(y1) + YearLength(y1)
    decreases y2 - y1
  {
    YearStep(y1);
    if y1 + 1 < y2 {
      YearsApart(y1 + 1, y2);
    }
  }

  lemma {:induction false} MonthsApart(m1: int, m2: int, y: int)
    requires 1 <= m1 < m2 <= 12
    ensures DaysBeforeMonth(m2, y) >= DaysBeforeMonth(m1, y) + DaysIn(m1, y)
    decreases m2 - m1
  {
    MonthStep(m1, y);
    if m1 + 1 < m2 {
      MonthsApart(m1 + 1, m2, y);
    }
  }

  lemma DayOfYearBounds(dt: DateTime)
    requires Valid(dt)
    ensures 0 <= DaysBeforeMonth(dt.month, dt.year) + dt.day - 1 < YearLength(dt.year)
  {
    MonthStep(dt.month, dt.year);
    if dt.month < 12 {
      MonthsApart(dt.month, 12, dt.year);
      MonthStep(12, dt.year);
    }
  }

  lemma SameDayNumber(a: DateTime, b: DateTime)
    requires Valid(a) && Valid(b) && DayNumber(a) == DayNumber(b)
    ensures a.year == b.year && a.month == b.month && a.day == b.day
  {
    DayOfYearBounds(a);
    DayOfYearBounds(b);
    if a.year < b.year {
      YearsApart(a.year, b.year);
    } else if b.year < a.year {
      YearsApart(b.year, a.year);
    }
    assert a.year == b.year;
    if a.month < b.month {
      MonthsApart(a.month, b.month, a.year);
    } else if b.month < a.month {
      MonthsApart(b.month, a.month, a.year);
    }
  }

  /** A count of seconds splits in one way only into whole days and a
      second of the day. */
  lemma SameDay(d1: int, s1: int, d2: int, s2: int)
    requires 0 <= s1 < 86400 && 0 <= s2 < 86400 && d1 * 86400 + s1 == d2 * 86400 + s2
    ensures d1 == d2 && s1 == s2
  {
  }

  /** Distinct valid date-times denote distinct instants. */
  lemma UnixSecondsInjective(a: DateTime, b: DateTime)
    requires Valid(a) && Valid(b) && UnixSeconds(a) == UnixSeconds(b)
    ensures a == b
  {
    SameDay(DayNumber(a), SecondOfDay(a), DayNumber(b), SecondOfDay(b));
    SameDayNumber(a, b);
  }

  // The dates of the package's test data.

  lemma NewYear2011(dt: DateTime)
    requires dt.year == 2011 && dt.month == 1 && dt.day == 1
    ensures DayNumber(dt) == 14975
  {
  }

  lemma NewYear2004(dt: DateTime)
    requires dt.year == 2004 && dt.month == 1 && dt.day == 1
    ensures DayNumber(dt) == 12418
  {
  }

  lemma September11th2011(dt: DateTime)
    requires dt.year == 2011 && dt.month == 9 && dt.day == 11
    ensures DayNumber(dt) == 15228
  {
  }

  lemma June12th2012(dt: DateTime)
    requires dt.year == 2012 && dt.month == 6 && dt.day == 12
    ensures DayNumber(dt) == 15503
  {
  }

  lemma October18th2009(dt: DateTime)
    requires dt.year == 2009 && dt.month == 10 && dt.day == 18
    ensures DayNumber(dt) == 14535
  {
  }

  lemma November18th2009(dt: DateTime)
    requires dt.year == 2009 && dt.month == 11 && dt.day == 18
    ensures DayNumber(dt) == 14566
  {
  }
}
