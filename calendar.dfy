/**
 * The proleptic Gregorian calendar that Spark's date functions use, on a
 * local wall clock. An instant is a number of seconds since 1970-01-01 00:00
 * of that clock; a day number counts days since the same date.
 */
module Calendar {

  type Instant = int

  const SecondsPerDay: int := 86400

  /** The day an instant falls on (Spark's cast of a timestamp to a date). */
  function DayNumber(t: Instant): int {
    t / SecondsPerDay
  }

  /** Midnight at the start of a day. */
  function StartOfDay(day: int): Instant {
    day * SecondsPerDay
  }

  /** `date_trunc("day", t)`: midnight of the day `t` falls on. */
  function DateTruncDay(t: Instant): (r: Instant)
    ensures r % SecondsPerDay == 0
    ensures r <= t < r + SecondsPerDay
    ensures DayNumber(r) == DayNumber(t)
  {
    StartOfDay(DayNumber(t))
  }

  /** `datediff(end, start)`: the number of day boundaries between the two days. */
  function DateDiff(end: Instant, start: Instant): (r: int)
    ensures DateTruncDay(start) + r * SecondsPerDay == DateTruncDay(end)
  {
    DayNumber(end) - DayNumber(start)
  }

  predicate IsLeapYear(y: int) {
    y % 4 == 0 && (y % 100 != 0 || y % 400 == 0)
  }

  function DaysInYear(y: int): int {
    if IsLeapYear(y) then 366 else 365
  }

  /** Day number of 1 January of year `y`: each year is as long as its
      calendar says, counted from 1 January 1970. */
  function Jan1(y: int): int
    decreases if y >= 1970 then y - 1970 else 1970 - y
  {
    if y == 1970 then 0
    else if y > 1970 then Jan1(y - 1) + DaysInYear(y - 1)
    else Jan1(y + 1) - DaysInYear(y)
  }

  /** Consecutive years are one calendar year apart. */
  lemma Jan1Next(y: int)
    ensures Jan1(y + 1) == Jan1(y) + DaysInYear(y)
  {
  }

  lemma {:induction false} Jan1Increasing(a: int, b: int)
    requires a < b
    ensures Jan1(a) + 365 <= Jan1(b)
    decreases b - a
  {
    Jan1Next(a);
    if a + 1 < b {
      Jan1Increasing(a + 1, b);
    }
  }

  function YearUp(day: int, y: int): (r: int)
    requires Jan1(y) <= day
    ensures Jan1(r) <= day < Jan1(r + 1)
    decreases day - Jan1(y)
  {
    Jan1Next(y);
    if day < Jan1(y + 1) then y else YearUp(day, y + 1)
  }

  function YearDown(day: int, y: int): (r: int)
    requires day < Jan1(y + 1)
    ensures Jan1(r) <= day < Jan1(r + 1)
    decreases Jan1(y + 1) - day
  {
    Jan1Next(y - 1);
    if Jan1(y) <= day then y else YearDown(day, y - 1)
  }

  /** The year a day falls in: the one whose 1 January is on or before it and
      whose successor's 1 January is after it. */
  function YearOf(day: int): (r: int)
    ensures Jan1(r) <= day < Jan1(r + 1)
  {
    if Jan1(1970) <= day then YearUp(day, 1970) else YearDown(day, 1969)
  }

  lemma YearOfUnique(day: int, y: int)
    requires Jan1(y) <= day < Jan1(y + 1)
    ensures YearOf(day) == y
  {
    var r := YearOf(day);
    if r < y {
      Jan1Increasing(r, y);
      if r + 1 < y { Jan1Increasing(r + 1, y); }
    } else if y < r {
      Jan1Increasing(y, r);
      if y + 1 < r { Jan1Increasing(y + 1, r); }
    }
  }

  /** `dayofyear`: 1 for 1 January, up to the length of the year. */
  function DayOfYear(day: int): (n: int)
    ensures 1 <= n <= DaysInYear(YearOf(day))
  {
    Jan1Next(YearOf(day));
    day - Jan1(YearOf(day)) + 1
  }

  /** `year(t)`. */
  function Year(t: Instant): (r: int)
    ensures Jan1(r) <= DayNumber(t) < Jan1(r + 1)
  {
    YearOf(DayNumber(t))
  }

  /** 1 January 00:00 of year `y`. */
  function YearStart(y: int): Instant {
    StartOfDay(Jan1(y))
  }

  /** An instant falls in year `y` exactly when it lies in [1 Jan y, 1 Jan y+1). */
  lemma YearBounds(t: Instant, y: int)
    ensures Year(t) == y <==> YearStart(y) <= t < YearStart(y + 1)
  {
    var d := DayNumber(t);
    assert StartOfDay(d) <= t < StartOfDay(d) + SecondsPerDay;
    if YearStart(y) <= t < YearStart(y + 1) {
      assert Jan1(y) <= d < Jan1(y + 1);
      YearOfUnique(d, y);
    }
  }

  /** Every instant lies between the start of its year and the start of the next. */
  lemma YearContains(t: Instant)
    ensures YearStart(Year(t)) <= t < YearStart(Year(t) + 1)
  {
    YearBounds(t, Year(t));
  }

  /** 1 January 00:00 of its own year. */
  predicate IsYearStart(t: Instant) {
    t == YearStart(Year(t))
  }

  /** A year start is midnight on day 1 of its year. */
  lemma YearStartIsMidnightOfDayOne(t: Instant)
    requires IsYearStart(t)
    ensures t % SecondsPerDay == 0 && DayOfYear(DayNumber(t)) == 1
  {
    YearStartFacts(Year(t));
  }

  lemma YearStartFacts(y: int)
    ensures Year(YearStart(y)) == y
    ensures DayNumber(YearStart(y)) == Jan1(y)
    ensures IsYearStart(YearStart(y))
  {
    Jan1Next(y);
    YearBounds(YearStart(y), y);
  }

  /** Years are ordered like the instants in them. */
  lemma YearMonotone(s: Instant, t: Instant)
    requires s <= t
    ensures Year(s) <= Year(t)
  {
    YearBounds(s, Year(s));
    YearBounds(t, Year(t));
    if Year(t) < Year(s) {
      Jan1Increasing(Year(t), Year(s));
      if Year(t) + 1 < Year(s) { Jan1Increasing(Year(t) + 1, Year(s)); }
    }
  }

  /** Later instants fall on the same day or a later one. */
  lemma DayNumberMonotone(s: Instant, t: Instant)
    requires s <= t
    ensures DayNumber(s) <= DayNumber(t)
  {
  }

  /** Later years start later. */
  lemma YearStartMonotone(a: int, b: int)
    requires a <= b
    ensures YearStart(a) <= YearStart(b)
  {
    if a < b {
      Jan1Increasing(a, b);
    }
  }

  /** The days from one 1 January to the next are the days of that year. */
  lemma YearLength(y: int)
    ensures DateDiff(YearStart(y + 1), YearStart(y)) == DaysInYear(y)
  {
    YearStartFacts(y);
    YearStartFacts(y + 1);
    Jan1Next(y);
  }
}
