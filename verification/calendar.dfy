/** Proleptic Gregorian calendar arithmetic: civil date-times are mapped to a
    count of seconds since 1970-01-01 00:00:00, and that count is shown to
    order date-times the same way as comparing them field by field does. */
module Calendar {


  /** A civil (zone-less) date-time, as the date-time library's naive type
      holds it. `second` may be 60: the library accepts a leap second. */
  datatype DateTime = DateTime(year: int, month: int, day: int, hour: int, minute: int, second: int)

  predicate IsLeapYear(y: int) {
    y % 4 == 0 && (y % 100 != 0 || y % 400 == 0)
  }

  function YearLength(y: int): int {
    if IsLeapYear(y) then 366 else 365
  }

  function MonthLength(y: int, m: int): int
    requires 1 <= m <= 12
  {
    if m == 2 then (if IsLeapYear(y) then 29 else 28)
    else if m == 4 || m == 6 || m == 9 || m == 11 then 30
    else 31
  }

  predicate ValidDate(y: int, m: int, d: int) {
    1 <= m <= 12 && 1 <= d <= MonthLength(y, m)
  }

  predicate ValidTime(h: int, mi: int, s: int) {
    0 <= h <= 23 && 0 <= mi <= 59 && 0 <= s <= 60
  }

  predicate Valid(dt: DateTime) {
    ValidDate(dt.year, dt.month, dt.day) && ValidTime(dt.hour, dt.minute, dt.second)
  }

  /** Reference count of the days from 1 January 1970 to 1 January of `y`,
      walking one year at a time. */
  function DaysBeforeYearByWalk(y: int): int
    decreases if y < 1970 then 1970 - y else y - 1970
  {
    if y == 1970 then 0
    else if y > 1970 then DaysBeforeYearByWalk(y - 1) + YearLength(y - 1)
    else DaysBeforeYearByWalk(y + 1) - YearLength(y)
  }

  /** Leap years among 1..n (for negative n, minus those among n+1..0). */
  function LeapYearsThrough(n: int): int {
    n / 4 - n / 100 + n / 400
  }

  /** Closed form of the day count from 1 January 1970 to 1 January of `y`. */
  function DaysBeforeYear(y: int): int {
    365 * (y - 1970) + LeapYearsThrough(y - 1) - LeapYearsThrough(1969)
  }

  /** Going back one year lowers a quotient by one exactly at a multiple. */
  lemma QuotientsStep(n: int)
    ensures (n - 1) / 4 == (if n % 4 == 0 then n / 4 - 1 else n / 4)
    ensures (n - 1) / 100 == (if n % 100 == 0 then n / 100 - 1 else n / 100)
    ensures (n - 1) / 400 == (if n % 400 == 0 then n / 400 - 1 else n / 400)
  {
  }

  /** Every multiple of 400 is a multiple of 100. */
  lemma MultipleOf400(n: int)
    requires n % 400 == 0
    ensures n % 100 == 0
  {
    assert n == 100 * (4 * (n / 400));
  }

  /** Every multiple of 100 is a multiple of 4. */
  lemma MultipleOf100(n: int)
    requires n % 100 == 0
    ensures n % 4 == 0
  {
    assert n == 4 * (25 * (n / 100));
  }

  lemma LeapYearsStep(n: int)
    ensures LeapYearsThrough(n) - LeapYearsThrough(n - 1) == (if IsLeapYear(n) then 1 else 0)
  {
    QuotientsStep(n);
    if n % 400 == 0 {
      MultipleOf400(n);
    }
    if n % 100 == 0 {
      MultipleOf100(n);
    }
  }

  lemma YearStep(y: int)
    ensures DaysBeforeYear(y + 1) == DaysBeforeYear(y) + YearLength(y)
  {
    LeapYearsStep(y);
  }

  /** The closed form agrees with the year-by-year walk for every year. */
  lemma {:induction false} DaysBeforeYearMatchesWalk(y: int)
    ensures DaysBeforeYear(y) == DaysBeforeYearByWalk(y)
    decreases if y < 1970 then 1970 - y else y - 1970
  {
    if y > 1970 {
      DaysBeforeYearMatchesWalk(y - 1);
      YearStep(y - 1);
    } else if y < 1970 {
      DaysBeforeYearMatchesWalk(y + 1);
      YearStep(y);
    }
  }

  /** Days from 1 January of `y` to the first day of month `m` (m = 13 is
      the next 1 January): the common-year table, plus the leap day once
      February is over. */
  function DaysBeforeMonth(y: int, m: int): int
    requires 1 <= m <= 13
  {
    [0, 31, 59, 90, 120, 151, 181, 212, 243, 273, 304, 334, 365][m - 1]
      + (if m > 2 && IsLeapYear(y) then 1 else 0)
  }

  /** Each month starts where the previous one ends. */
  lemma MonthStep(y: int, m: int)
    requires 1 <= m <= 12
    ensures DaysBeforeMonth(y, m + 1) == DaysBeforeMonth(y, m) + MonthLength(y, m)
  {
  }

  lemma MonthsFillYear(y: int)
    ensures DaysBeforeMonth(y, 13) == YearLength(y)
  {
  }

  lemma {:induction false} MonthsIncrease(y: int, m1: int, m2: int)
    requires 1 <= m1 < m2 <= 13
    ensures DaysBeforeMonth(y, m1) + MonthLength(y, m1) <= DaysBeforeMonth(y, m2)
    decreases m2 - m1
  {
    MonthStep(y, m1);
    if m1 + 1 < m2 {
      MonthStep(y, m1 + 1);
      MonthsIncrease(y, m1 + 1, m2);
    }
  }

  lemma {:induction false} YearsIncrease(y1: int, y2: int)
    requires y1 < y2
    ensures DaysBeforeYear(y1) + YearLength(y1) <= DaysBeforeYear(y2)
    decreases y2 - y1
  {
    YearStep(y1);
    if y1 + 1 < y2 {
      YearsIncrease(y1 + 1, y2);
    }
  }

  /** Days since 1 January 1970 of a civil date (negative before it). */
  function DayNumber(y: int, m: int, d: int): int
    requires 1 <= m <= 12
  {
    DaysBeforeYear(y) + DaysBeforeMonth(y, m) + d - 1
  }

  /** A valid date falls inside its own year's span of day numbers. */
  lemma DayInYear(y: int, m: int, d: int)
    requires ValidDate(y, m, d)
    ensures DaysBeforeYear(y) <= DayNumber(y, m, d) < DaysBeforeYear(y) + YearLength(y)
  {
    MonthsFillYear(y);
    MonthsIncrease(y, m, 13);
    if 1 < m {
      MonthsIncrease(y, 1, m);
    }
  }

  predicate DateBefore(y1: int, m1: int, d1: int, y2: int, m2: int, d2: int) {
    y1 < y2 || (y1 == y2 && (m1 < m2 || (m1 == m2 && d1 < d2)))
  }

  /** Day numbers order valid dates exactly as the calendar does. */
  lemma DayNumberOrder(y1: int, m1: int, d1: int, y2: int, m2: int, d2: int)
    requires ValidDate(y1, m1, d1) && ValidDate(y2, m2, d2)
    ensures DateBefore(y1, m1, d1, y2, m2, d2) <==> DayNumber(y1, m1, d1) < DayNumber(y2, m2, d2)
  {
    DayInYear(y1, m1, d1);
    DayInYear(y2, m2, d2);
    if y1 < y2 {
      YearsIncrease(y1, y2);
    } else if y2 < y1 {
      YearsIncrease(y2, y1);
    } else if m1 < m2 {
      MonthsIncrease(y1, m1, m2);
    } else if m2 < m1 {
      MonthsIncrease(y1, m2, m1);
    }
  }

  function SecondOfDay(h: int, mi: int, s: int): int {
    h * 3600 + mi * 60 + s
  }

  /** Seconds since 1970-01-01 00:00:00 of a civil date-time read in UTC.
      A leap second (:60) lands on the first second of the next minute. */
  function ToSeconds(dt: DateTime): (r: int)
    requires 1 <= dt.month <= 12
    ensures ValidTime(dt.hour, dt.minute, dt.second) && dt.second <= 59 ==>
      && r / 86400 == DayNumber(dt.year, dt.month, dt.day)
      && r % 86400 == SecondOfDay(dt.hour, dt.minute, dt.second)
  {
    DayNumber(dt.year, dt.month, dt.day) * 86400 + SecondOfDay(dt.hour, dt.minute, dt.second)
  }

  /** Field-by-field order of the naive date-time type: date, then hour,
      minute and second (a leap second :60 sorts after :59 and before the
      next minute). */
  predicate NotAfter(a: DateTime, b: DateTime) {
    if a.year != b.year then a.year < b.year
    else if a.month != b.month then a.month < b.month
    else if a.day != b.day then a.day < b.day
    else if a.hour != b.hour then a.hour < b.hour
    else if a.minute != b.minute then a.minute < b.minute
    else a.second <= b.second
  }

  lemma TimeOrder(a: DateTime, b: DateTime)
    requires ValidTime(a.hour, a.minute, a.second)
    requires ValidTime(b.hour, b.minute, b.second) && b.second <= 59
    ensures (a.hour, a.minute, a.second) == (b.hour, b.minute, b.second) || (
      (if a.hour != b.hour then a.hour < b.hour
       else if a.minute != b.minute then a.minute < b.minute
       else a.second <= b.second)
      <==> SecondOfDay(a.hour, a.minute, a.second) <= SecondOfDay(b.hour, b.minute, b.second))
  {
  }

  /** Comparing second counts decides the naive date-time order whenever the
      right-hand side is not a leap second (as a clock reading never is). */
  lemma {:induction false} SecondsOrder(a: DateTime, b: DateTime)
    requires Valid(a) && Valid(b) && b.second <= 59
    ensures NotAfter(a, b) <==> ToSeconds(a) <= ToSeconds(b)
  {
    DayNumberOrder(a.year, a.month, a.day, b.year, b.month, b.day);
    DayNumberOrder(b.year, b.month, b.day, a.year, a.month, a.day);
    TimeOrder(a, b);
    var da := DayNumber(a.year, a.month, a.day);
    var db := DayNumber(b.year, b.month, b.day);
    var ta := SecondOfDay(a.hour, a.minute, a.second);
    var tb := SecondOfDay(b.hour, b.minute, b.second);
    assert 0 <= ta <= 86400;
    assert 0 <= tb < 86400;
    if da < db {
      assert da * 86400 + ta <= (da + 1) * 86400 <= db * 86400;
    } else if db < da {
      assert db * 86400 + tb < (db + 1) * 86400 <= da * 86400;
    }
  }

  /** SecondsOrder for every clock reading `b` at once. */
  lemma SecondsOrderAll(a: DateTime)
    requires Valid(a)
    ensures forall b :: Valid(b) && b.second <= 59 ==> (NotAfter(a, b) <==> ToSeconds(a) <= ToSeconds(b))
  {
    forall b | Valid(b) && b.second <= 59
      ensures NotAfter(a, b) <==> ToSeconds(a) <= ToSeconds(b)
    {
      SecondsOrder(a, b);
    }
  }

  /** 1 January 2000 is day 10957 of the Unix epoch. */
  lemma DayOf2000()
    ensures DayNumber(2000, 1, 1) == 10957
  {
    assert 1999 / 4 == 499 && 1999 / 100 == 19 && 1999 / 400 == 4;
    assert 1969 / 4 == 492 && 1969 / 100 == 19 && 1969 / 400 == 4;
  }
}
