/**
 A model of the part of System.DateTime that the car's telemetry guard relies on.

 An instant is its tick count: the number of 100-nanosecond intervals since
 0001-01-01 00:00:00 in the proleptic Gregorian calendar, and two instants
 compare by comparing their tick counts. `Make` is the
 DateTime(year, month, day, hour, minute, second) constructor, which the car
 uses for its manufacture date and its callers use to build query bounds.
 */
module Clock {

  const TicksPerSecond: int := 10_000_000
  const SecondsPerDay: int := 86_400
  const TicksPerDay: int := 864_000_000_000

  /** Days from 0001-01-01 to 10000-01-01: one past the last representable day. */
  const DaysTo10000: int := 3_652_059

  /** The tick count of DateTime.MaxValue, 9999-12-31 23:59:59.9999999. */
  const MaxTicks: int := 3_155_378_975_999_999_999

  /** A DateTime value, represented by its tick count. */
  type DateTime = t: int | 0 <= t <= MaxTicks

  /** The arguments of the DateTime constructor. */
  datatype Calendar = Calendar(year: int, month: int, day: int, hour: int, minute: int, second: int)

  predicate IsLeapYear(year: int) {
    year % 4 == 0 && (year % 100 != 0 || year % 400 == 0)
  }

  /**
   Days in the year before the first day of `month`; month 13 stands for
   the end of the year. These are the cumulative month tables of the
   DateTime implementation, one day longer from March on in a leap year.
   */
  function DaysBeforeMonth(year: int, month: int): int
    requires 1 <= month <= 13
  {
    var common :=
      if month == 1 then 0 else if month == 2 then 31 else if month == 3 then 59
      else if month == 4 then 90 else if month == 5 then 120 else if month == 6 then 151
      else if month == 7 then 181 else if month == 8 then 212 else if month == 9 then 243
      else if month == 10 then 273 else if month == 11 then 304 else if month == 12 then 334
      else 365;
    if 3 <= month && IsLeapYear(year) then common + 1 else common
  }

  /** The cumulative tables grow strictly from month to month. */
  lemma DaysBeforeMonthIncreasing(year: int, m1: int, m2: int)
    requires 1 <= m1 < m2 <= 13
    ensures DaysBeforeMonth(year, m1) + DaysInMonth(year, m1) <= DaysBeforeMonth(year, m2)
    ensures 0 < DaysInMonth(year, m1)
  {
  }

  function DaysInMonth(year: int, month: int): int
    requires 1 <= month <= 12
  {
    DaysBeforeMonth(year, month + 1) - DaysBeforeMonth(year, month)
  }

  function DaysInYear(year: int): int {
    DaysBeforeMonth(year, 13)
  }

  /** Days from 0001-01-01 to the first day of `year`. */
  function DaysBeforeYear(year: int): int {
    var y := year - 1;
    y * 365 + y / 4 - y / 100 + y / 400
  }

  /** The argument checks the DateTime constructor performs. */
  predicate Valid(c: Calendar) {
    && 1 <= c.year <= 9999
    && 1 <= c.month <= 12
    && 1 <= c.day <= DaysInMonth(c.year, c.month)
    && 0 <= c.hour < 24
    && 0 <= c.minute < 60
    && 0 <= c.second < 60
  }

  /** Days from 0001-01-01 to the date of `c`. */
  function DayNumber(c: Calendar): int
    requires Valid(c)
  {
    DaysBeforeYear(c.year) + DaysBeforeMonth(c.year, c.month) + c.day - 1
  }

  function SecondOfDay(c: Calendar): int {
    c.hour * 3600 + c.minute * 60 + c.second
  }

  /** Lexicographic order on the constructor arguments: the calendar's own order. */
  predicate Precedes(a: Calendar, b: Calendar) {
    || a.year < b.year
    || (a.year == b.year && a.month < b.month)
    || (a.year == b.year && a.month == b.month && a.day < b.day)
    || (a.year == b.year && a.month == b.month && a.day == b.day && a.hour < b.hour)
    || (a.year == b.year && a.month == b.month && a.day == b.day && a.hour == b.hour && a.minute < b.minute)
    || (a.year == b.year && a.month == b.month && a.day == b.day && a.hour == b.hour && a.minute == b.minute
        && a.second < b.second)
  }

  /** The DateTime(year, month, day, hour, minute, second) constructor. */
  function Make(c: Calendar): DateTime
    requires Valid(c)
  {
    DayNumberBound(c);
    // Literal products keep proofs about literal dates cheap; MakeIsDateAndTime ties them to the named constants.
    DayNumber(c) * 864_000_000_000 + c.hour * 36_000_000_000 + c.minute * 600_000_000 + c.second * 10_000_000
  }

  /**
   A constructed DateTime is the ticks of its date (DateToTicks) plus the
   ticks of its time of day (TimeToTicks), and the latter stay below one day.
   */
  lemma MakeIsDateAndTime(c: Calendar)
    requires Valid(c)
    ensures Make(c) == DayNumber(c) * TicksPerDay + SecondOfDay(c) * TicksPerSecond
    ensures 0 <= SecondOfDay(c) * TicksPerSecond < TicksPerDay
  {
  }

  /**
   The tick count of a constructed DateTime splits back into the day number
   and the second of the day (the Date and TimeOfDay of the value), and it
   is a whole number of seconds.
   */
  lemma MakeSplits(c: Calendar)
    requires Valid(c)
    ensures Make(c) / TicksPerDay == DayNumber(c)
    ensures Make(c) % TicksPerDay == SecondOfDay(c) * TicksPerSecond
    ensures Make(c) % TicksPerSecond == 0
  {
    var d, s := DayNumber(c), SecondOfDay(c);
    MakeIsDateAndTime(c);
    DivideByDay(Make(c), d, s * TicksPerSecond);
    DivideBySecond(Make(c), d * SecondsPerDay + s);
  }

  /** Division by the ticks of a day, for a remainder known to lie inside one day. */
  lemma DivideByDay(n: int, q: int, r: int)
    requires n == q * TicksPerDay + r && 0 <= r < TicksPerDay
    ensures n / TicksPerDay == q && n % TicksPerDay == r
  {
  }

  /** A whole number of seconds leaves no ticks over. */
  lemma DivideBySecond(n: int, q: int)
    requires n == q * TicksPerSecond
    ensures n % TicksPerSecond == 0
  {
  }

  lemma DaysBeforeNextYear(year: int)
    requires 1 <= year
    ensures DaysBeforeYear(year + 1) == DaysBeforeYear(year) + DaysInYear(year)
  {
    DivStep(year, 4);
    DivStep(year, 100);
    DivStep(year, 400);
  }

  /** Stepping from `y - 1` to `y` raises `y / d` exactly when `d` divides `y`. */
  lemma DivStep(y: int, d: int)
    requires 1 <= y
    requires d == 4 || d == 100 || d == 400
    ensures y / d - (y - 1) / d == if y % d == 0 then 1 else 0
  {
    if d == 4 {
      assert y / 4 - (y - 1) / 4 == if y % 4 == 0 then 1 else 0;
    } else if d == 100 {
      assert y / 100 - (y - 1) / 100 == if y % 100 == 0 then 1 else 0;
    } else {
      assert y / 400 - (y - 1) / 400 == if y % 400 == 0 then 1 else 0;
    }
  }

  lemma {:induction false} DaysBeforeYearMonotone(y1: int, y2: int)
    requires 1 <= y1 < y2
    ensures DaysBeforeYear(y1) + DaysInYear(y1) <= DaysBeforeYear(y2)
    decreases y2 - y1
  {
    DaysBeforeNextYear(y1);
    if y1 + 1 < y2 {
      DaysBeforeYearMonotone(y1 + 1, y2);
    }
  }

  /** A valid date falls inside its own year. */
  lemma DayOfYearBound(c: Calendar)
    requires Valid(c)
    ensures DaysBeforeYear(c.year) <= DayNumber(c) < DaysBeforeYear(c.year) + DaysInYear(c.year)
  {
    if c.month < 12 {
      DaysBeforeMonthIncreasing(c.year, c.month, 13);
    }
  }

  lemma DayNumberBound(c: Calendar)
    requires Valid(c)
    ensures 0 <= DayNumber(c) < DaysTo10000
  {
    DayOfYearBound(c);
    if c.year < 9999 {
      DaysBeforeYearMonotone(c.year, 9999);
    }
  }

  /** Earlier dates get smaller day numbers. */
  lemma DayNumberOrder(a: Calendar, b: Calendar)
    requires Valid(a) && Valid(b)
    requires a.year < b.year || (a.year == b.year && a.month < b.month)
             || (a.year == b.year && a.month == b.month && a.day < b.day)
    ensures DayNumber(a) < DayNumber(b)
  {
    DayOfYearBound(a);
    DayOfYearBound(b);
    if a.year == b.year && a.month < b.month {
      DaysBeforeMonthIncreasing(a.year, a.month, b.month);
    }
    if a.year < b.year {
      DaysBeforeYearMonotone(a.year, b.year);
    }
  }

  /**
   Comparing two constructed DateTime values is comparing their calendar
   fields lexicographically, and two valid argument lists give the same
   instant only when they are equal.
   */
  lemma CalendarOrder(a: Calendar, b: Calendar)
    requires Valid(a) && Valid(b)
    ensures Make(a) < Make(b) <==> Precedes(a, b)
    ensures Make(a) == Make(b) <==> a == b
  {
    if Precedes(a, b) {
      MakeMonotone(a, b);
    } else if Precedes(b, a) {
      MakeMonotone(b, a);
    } else {
      assert a == b;
    }
  }

  lemma MakeMonotone(a: Calendar, b: Calendar)
    requires Valid(a) && Valid(b)
    requires Precedes(a, b)
    ensures Make(a) < Make(b)
  {
    if a.year < b.year || (a.year == b.year && a.month < b.month)
       || (a.year == b.year && a.month == b.month && a.day < b.day) {
      DayNumberOrder(a, b);
    }
  }
}
