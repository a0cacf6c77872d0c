/** UTC calendar arithmetic behind the coupon engine's time buckets.

    An instant is modelled by its UTC day: the number of whole days since
    1970-01-01 (a Thursday). From it this module derives the proleptic
    Gregorian calendar date, the `YYYY-MM-DD` string that
    `Date.prototype.toISOString` starts with (the day-bucket key), and the
    ISO 8601 week number that `getWeekNumber` computes (the week-bucket key).
 */
module Calendar {

  /** Whole days since 1970-01-01 UTC. */
  type Day = nat

  const EpochYear: int := 1970

  // ---------------------------------------------------------------------
  // Years

  predicate IsLeapYear(y: int) {
    y % 4 == 0 && (y % 100 != 0 || y % 400 == 0)
  }

  function YearLength(y: int): nat {
    if IsLeapYear(y) then 366 else 365
  }

  /** Number of days from 1 January of `lo` to 1 January of `hi`. */
  function DaysBetweenYears(lo: int, hi: int): nat
    requires lo <= hi
    decreases hi - lo
  {
    if lo == hi then 0 else YearLength(lo) + DaysBetweenYears(lo + 1, hi)
  }

  /** Leap years in 1..n (for n >= 0), by the Gregorian rule. */
  function LeapsUpTo(n: int): int {
    n / 4 - n / 100 + n / 400
  }

  /** Going from y - 1 to y adds one leap year exactly when y is one. */
  lemma LeapStep(y: int)
    ensures LeapsUpTo(y) - LeapsUpTo(y - 1) == if IsLeapYear(y) then 1 else 0
  {
    QuotientStep4(y);
    QuotientStep100(y);
    QuotientStep400(y);
    CenturyDivisibility(y);
  }

  lemma QuotientStep4(y: int)
    ensures y / 4 - (y - 1) / 4 == if y % 4 == 0 then 1 else 0
  {
  }

  lemma QuotientStep100(y: int)
    ensures y / 100 - (y - 1) / 100 == if y % 100 == 0 then 1 else 0
  {
  }

  lemma QuotientStep400(y: int)
    ensures y / 400 - (y - 1) / 400 == if y % 400 == 0 then 1 else 0
  {
  }

  lemma CenturyDivisibility(y: int)
    ensures y % 400 == 0 ==> y % 100 == 0
    ensures y % 100 == 0 ==> y % 4 == 0
  {
  }

  /** Closed form of the day count between two New Year's days. */
  lemma {:induction false} DaysBetweenYearsClosed(lo: int, hi: int)
    requires lo <= hi
    ensures DaysBetweenYears(lo, hi)
            == 365 * (hi - lo) + LeapsUpTo(hi - 1) - LeapsUpTo(lo - 1)
    decreases hi - lo
  {
    if lo < hi {
      DaysBetweenYearsClosed(lo + 1, hi);
      LeapStep(lo);
    }
  }

  lemma {:induction false} DaysBetweenYearsSplit(lo: int, hi: int)
    requires lo <= hi
    ensures DaysBetweenYears(lo, hi + 1) == DaysBetweenYears(lo, hi) + YearLength(hi)
    decreases hi - lo
  {
    if lo < hi {
      DaysBetweenYearsSplit(lo + 1, hi);
    }
  }

  /** The year that day `d` (counted from 1 January of `y`) falls in, and
      its zero-based ordinal within that year. */
  function YearAndOrdinal(d: nat, y: int): (r: (int, nat))
    ensures r.0 >= y && r.1 < YearLength(r.0)
    decreases d
  {
    if d < YearLength(y) then (y, d)
    else YearAndOrdinal(d - YearLength(y), y + 1)
  }

  /** `YearAndOrdinal` splits a day count exactly: the year start plus
      the ordinal gives the day back. */
  lemma {:induction false} YearAndOrdinalSound(d: nat, y: int)
    ensures y <= YearAndOrdinal(d, y).0
    ensures d == DaysBetweenYears(y, YearAndOrdinal(d, y).0) + YearAndOrdinal(d, y).1
    decreases d
  {
    if d >= YearLength(y) {
      YearAndOrdinalSound(d - YearLength(y), y + 1);
    }
  }

  /** Conversely, a year start plus an in-range ordinal is split back
      into that year and ordinal. */
  lemma {:induction false} YearAndOrdinalOf(y: int, target: int, k: nat)
    requires y <= target && k < YearLength(target)
    ensures YearAndOrdinal(DaysBetweenYears(y, target) + k, y) == (target, k)
    decreases target - y
  {
    if y < target {
      YearAndOrdinalOf(y + 1, target, k);
    }
  }

  // ---------------------------------------------------------------------
  // Months

  function MonthLength(y: int, m: int): nat
    requires 1 <= m <= 12
  {
    if m == 2 then (if IsLeapYear(y) then 29 else 28)
    else if m == 4 || m == 6 || m == 9 || m == 11 then 30
    else 31
  }

  /** Days in a common year before the first day of month m (index m - 1). */
  const CommonDaysBefore: seq<nat> := [0, 31, 59, 90, 120, 151, 181, 212, 243, 273, 304, 334, 365]

  /** Days of year y before the first of month m; m = 13 gives the year length. */
  function DaysBeforeMonth(y: int, m: int): nat
    requires 1 <= m <= 13
  {
    CommonDaysBefore[m - 1] + (if m > 2 && IsLeapYear(y) then 1 else 0)
  }

  /** The cumulative table agrees with the month lengths and the year length. */
  lemma DaysBeforeMonthStep(y: int, m: int)
    requires 1 <= m <= 12
    ensures DaysBeforeMonth(y, m + 1) == DaysBeforeMonth(y, m) + MonthLength(y, m)
    ensures DaysBeforeMonth(y, 1) == 0 && DaysBeforeMonth(y, 13) == YearLength(y)
  {
  }

  /** The month (searched downward from m) whose range holds ordinal k. */
  function MonthOfOrdinal(y: int, k: nat, m: int): (r: int)
    requires 1 <= m <= 12
    ensures 1 <= r <= m && DaysBeforeMonth(y, r) <= k
    ensures r < m ==> k < DaysBeforeMonth(y, r + 1)
    decreases m
  {
    if m == 1 || DaysBeforeMonth(y, m) <= k then m
    else MonthOfOrdinal(y, k, m - 1)
  }

  // ---------------------------------------------------------------------
  // Calendar dates

  datatype Date = Date(year: int, month: int, day: int)

  predicate ValidDate(c: Date) {
    c.year >= EpochYear && 1 <= c.month <= 12 && 1 <= c.day <= MonthLength(c.year, c.month)
  }

  /** The UTC calendar date of a day (what getUTCFullYear, getUTCMonth + 1
      and getUTCDate report). */
  function DateOf(d: Day): (c: Date)
    ensures ValidDate(c)
  {
    var (y, k) := YearAndOrdinal(d, EpochYear);
    var m := MonthOfOrdinal(y, k, 12);
    DaysBeforeMonthStep(y, m);
    Date(y, m, k - DaysBeforeMonth(y, m) + 1)
  }

  /** The day of a calendar date (what Date.UTC computes, in days). */
  function DayOfDate(c: Date): Day
    requires ValidDate(c)
  {
    DaysBeforeMonthStep(c.year, c.month);
    DaysBetweenYears(EpochYear, c.year) + DaysBeforeMonth(c.year, c.month) + c.day - 1
  }

  lemma DayOfDateOf(d: Day)
    ensures DayOfDate(DateOf(d)) == d
  {
    YearAndOrdinalSound(d, EpochYear);
  }

  lemma DateOfDayOf(c: Date)
    requires ValidDate(c)
    ensures DateOf(DayOfDate(c)) == c
  {
    var k := DaysBeforeMonth(c.year, c.month) + c.day - 1;
    DaysBeforeMonthStep(c.year, c.month);
    assert k < YearLength(c.year) by {
      if c.month < 12 { DaysBeforeMonthStep(c.year, c.month + 1); }
    }
    YearAndOrdinalOf(EpochYear, c.year, k);
    var m := MonthOfOrdinal(c.year, k, 12);
    if m < c.month {
      assert k < DaysBeforeMonth(c.year, m + 1);
      MonthTableMonotone(c.year, m + 1, c.month);
      assert false;
    } else if m > c.month {
      DaysBeforeMonthStep(c.year, c.month);
      MonthTableMonotone(c.year, c.month + 1, m);
      assert false;
    }
  }

  lemma MonthTableMonotone(y: int, i: int, j: int)
    requires 1 <= i <= j <= 13
    ensures DaysBeforeMonth(y, i) <= DaysBeforeMonth(y, j)
  {
  }

  /** Distinct days have distinct calendar dates. */
  lemma DateOfInjective(d1: Day, d2: Day)
    requires DateOf(d1) == DateOf(d2)
    ensures d1 == d2
  {
    DayOfDateOf(d1);
    DayOfDateOf(d2);
  }

  // ---------------------------------------------------------------------
  // Weekdays and the ISO 8601 week number

  /** getUTCDay: 0 = Sunday .. 6 = Saturday; day 0 was a Thursday. */
  function UtcWeekday(d: Day): (w: nat)
    ensures w < 7
    ensures w == 4 <==> d % 7 == 0
  {
    (d + 4) % 7
  }

  /** `getUTCDay() || 7`: ISO weekday, 1 = Monday .. 7 = Sunday. */
  function IsoWeekday(d: Day): (w: nat)
    ensures 1 <= w <= 7
    ensures w == 7 <==> UtcWeekday(d) == 0
    ensures w < 7 ==> w == UtcWeekday(d)
  {
    var w := UtcWeekday(d);
    if w == 0 then 7 else w
  }

  /** The Thursday of the Monday-to-Sunday week holding d. */
  function WeekThursday(d: Day): (t: Day)
    ensures IsoWeekday(t) == 4
    ensures d <= t + 3 && t <= d + 3
  {
    d + 4 - IsoWeekday(d)
  }

  /** Math.ceil on a real. */
  function Ceil(x: real): (n: int)
    ensures n as real >= x && (n - 1) as real < x
  {
    -((-x).Floor)
  }

  /** getWeekNumber: the week of the year in which the Thursday of d's
      week falls, counted as ceil((ordinal + 1) / 7). */
  function WeekNumber(d: Day): (n: int)
    ensures 1 <= n <= 53
  {
    var (_, k) := YearAndOrdinal(WeekThursday(d), EpochYear);
    CeilDivSeven(k);
    Ceil((k + 1) as real / 7.0)
  }

  /** For a non-negative ordinal k, ceil((k + 1) / 7) is k / 7 + 1 in
      integer division, so no fraction survives. */
  lemma CeilDivSeven(k: nat)
    ensures Ceil((k + 1) as real / 7.0) == k / 7 + 1
  {
    var q := k / 7;
    var x := (k + 1) as real / 7.0;
    assert (k + 1) as real == 7.0 * q as real + (k % 7 + 1) as real;
    assert q as real < x <= (q + 1) as real;
  }

  /** Every day of one Monday-to-Sunday week gets the same week number. */
  lemma SameWeekSameNumber(monday: Day, i: nat)
    requires IsoWeekday(monday) == 1 && i < 7
    ensures WeekThursday(monday + i) == monday + 3
    ensures WeekNumber(monday + i) == WeekNumber(monday)
  {
    assert WeekThursday(monday + i) == monday + 3 by {
      var q := (monday + 4) / 7;
      assert monday + i + 4 == 7 * q + 1 + i;
      assert IsoWeekday(monday + i) == 1 + i;
    }
    assert WeekThursday(monday) == monday + 3;
  }

  /** Moving n <= 365 days forward from ordinal k of year y either stays in
      year y or lands at the start of year y + 1. */
  lemma {:induction false} OrdinalAdvance(t: Day, n: nat)
    requires n <= 365
    ensures var (y, k) := YearAndOrdinal(t, EpochYear);
            YearAndOrdinal(t + n, EpochYear)
            == if k + n < YearLength(y) then (y, k + n) else (y + 1, k + n - YearLength(y))
  {
    var (y, k) := YearAndOrdinal(t, EpochYear);
    YearAndOrdinalSound(t, EpochYear);
    if k + n < YearLength(y) {
      YearAndOrdinalOf(EpochYear, y, k + n);
    } else {
      DaysBetweenYearsSplit(EpochYear, y);
      YearAndOrdinalOf(EpochYear, y + 1, k + n - YearLength(y));
    }
  }

  /** The week seven days later has the next number, or is week 1 of the
      next year after week 52 or 53: consecutive weeks never share a number. */
  lemma NextWeekNumber(d: Day)
    ensures WeekNumber(d + 7) == WeekNumber(d) + 1
            || (WeekNumber(d + 7) == 1 && WeekNumber(d) >= 52)
  {
    var t := WeekThursday(d);
    assert (d + 7 + 4) % 7 == (d + 4) % 7;
    assert WeekThursday(d + 7) == t + 7;
    var (y, k) := YearAndOrdinal(t, EpochYear);
    OrdinalAdvance(t, 7);
    CeilDivSeven(k);
    if k + 7 < YearLength(y) {
      CeilDivSeven(k + 7);
    } else {
      CeilDivSeven(k + 7 - YearLength(y));
    }
  }

  /** Days from 1970-01-01 to 1 January of a year from 1970 on. */
  lemma NewYearDay(y: int)
    requires y >= EpochYear
    ensures DayOfDate(Date(y, 1, 1)) == DaysBetweenYears(EpochYear, y)
    ensures DaysBetweenYears(EpochYear, y) == 365 * (y - EpochYear) + LeapsUpTo(y - 1) - LeapsUpTo(EpochYear - 1)
  {
    DaysBetweenYearsClosed(EpochYear, y);
  }

  /** Leap years up to the years the examples need. */
  lemma LeapCounts()
    ensures LeapsUpTo(EpochYear - 1) == 477
    ensures LeapsUpTo(2021) == 490 && LeapsUpTo(2022) == 490 && LeapsUpTo(2023) == 490
  {
  }

  /** 2022-01-01 is day 18993, 2023-01-01 day 19358 and 2024-01-01 day 19723. */
  lemma ExampleDays()
    ensures DayOfDate(Date(2022, 1, 1)) == 18993
    ensures DayOfDate(Date(2023, 1, 1)) == 19358
    ensures DayOfDate(Date(2024, 1, 1)) == 19723
  {
    LeapCounts();
    NewYearDay(2022);
    NewYearDay(2023);
    NewYearDay(2024);
  }

  /** Day 19358 is 2023-01-01. */
  lemma DateOfExample()
    ensures DateOf(19358) == Date(2023, 1, 1)
  {
    ExampleDays();
    DateOfDayOf(Date(2023, 1, 1));
  }

  /** The week number of a day whose week's Thursday is ordinal k of year y. */
  lemma WeekNumberFromThursday(d: Day, y: int, k: nat)
    requires y >= EpochYear && k < YearLength(y)
    requires WeekThursday(d) == DaysBetweenYears(EpochYear, y) + k
    ensures WeekNumber(d) == k / 7 + 1
  {
    YearAndOrdinalOf(EpochYear, y, k);
    CeilDivSeven(k);
  }

  /** Worked dates: 2023-01-01 is a Sunday in week 52 (of 2022), while
      2023-01-02 (Monday) to 2023-01-08 (Sunday) are week 1, and so is
      2024-01-01 (Monday) a year later. */
  lemma WeekNumberExamples()
    ensures IsoWeekday(19358) == 7 && WeekNumber(19358) == 52
    ensures IsoWeekday(19359) == 1 && WeekNumber(19359) == 1
    ensures IsoWeekday(19365) == 7 && WeekNumber(19365) == 1
    ensures IsoWeekday(19723) == 1 && WeekNumber(19723) == 1
  {
    ExampleDays();
    WeekNumberFromThursday(19358, 2022, 362);
    WeekNumberFromThursday(19359, 2023, 4);
    WeekNumberFromThursday(19365, 2023, 4);
    WeekNumberFromThursday(19723, 2024, 3);
  }
}
