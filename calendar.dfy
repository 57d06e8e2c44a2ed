/**
 * The date and time arithmetic the calendar relies on, from Python's `datetime` module:
 * dates as proleptic Gregorian day ordinals (0001-01-01 is day 1, as `date.toordinal`),
 * instants as whole minutes, and the construction of `date(year, month, day)`.
 */
module Calendar {

  import opened Wrappers

  /** A calendar date as a proleptic Gregorian ordinal; 0001-01-01 is day 1. */
  type Day = int

  /** A point in time in whole minutes; minute 0 is the midnight that starts day 0. */
  type Instant = int

  const MINUTES_PER_DAY: int := 1440

  /** A time of day in minutes after midnight. */
  type TimeOfDay = m: int | 0 <= m < MINUTES_PER_DAY

  const MAX_YEAR: int := 9999

  /** The ordinal of 9999-12-31, the last date Python can represent. */
  const MAX_ORDINAL: Day := 3652059

  predicate ValidDay(d: Day) {
    1 <= d <= MAX_ORDINAL
  }

  /** `instant.date()` */
  function DayOf(t: Instant): Day {
    t / MINUTES_PER_DAY
  }

  /** `instant.time()` */
  function TimeOf(t: Instant): TimeOfDay {
    t % MINUTES_PER_DAY
  }

  /** `datetime.combine(d, datetime.min.time())` */
  function StartOfDay(d: Day): Instant {
    d * MINUTES_PER_DAY
  }

  /** `datetime.combine(d, datetime.max.time())`, at minute resolution. */
  function EndOfDay(d: Day): Instant {
    d * MINUTES_PER_DAY + MINUTES_PER_DAY - 1
  }

  /** An instant lies on day d exactly when it lies between d's first and last minute. */
  lemma DayOfWithin(t: Instant, d: Day)
    ensures DayOf(t) == d <==> StartOfDay(d) <= t <= EndOfDay(d)
    ensures t == StartOfDay(DayOf(t)) + TimeOf(t)
  {
  }

  /** `date.weekday()`: Monday is 0 and Sunday is 6; day 1 (0001-01-01) was a Monday. */
  function Weekday(d: Day): int {
    (d + 6) % 7
  }

  predicate IsLeap(year: int) {
    year % 4 == 0 && (year % 100 != 0 || year % 400 == 0)
  }

  function DaysInYear(year: int): int {
    if IsLeap(year) then 366 else 365
  }

  function DaysInMonth(year: int, month: int): int
    requires 1 <= month <= 12
  {
    if month == 2 then (if IsLeap(year) then 29 else 28)
    else if month == 4 || month == 6 || month == 9 || month == 11 then 30
    else 31
  }

  /** Days in the years before `year`, counted from year 1. */
  function DaysBeforeYear(year: int): int {
    var y := year - 1;
    365 * y + y / 4 - y / 100 + y / 400
  }

  /** Days in the months of `year` before `month`. */
  function DaysBeforeMonth(year: int, month: int): int
    requires 1 <= month <= 12
  {
    [0, 31, 59, 90, 120, 151, 181, 212, 243, 273, 304, 334][month - 1]
      + (if month > 2 && IsLeap(year) then 1 else 0)
  }

  /** `date(year, month, day).toordinal()` */
  function Ordinal(year: int, month: int, day: int): Day
    requires 1 <= month <= 12
  {
    DaysBeforeYear(year) + DaysBeforeMonth(year, month) + day
  }

  /** The day after the last day of a month is the first day of the next month. */
  lemma MonthStep(year: int, month: int)
    requires 1 <= month < 12
    ensures Ordinal(year, month + 1, 1) == Ordinal(year, month, DaysInMonth(year, month)) + 1
  {
  }

  /** A year contributes exactly its own length to the running day count. */
  lemma YearStep(year: int)
    requires year >= 1
    ensures DaysBeforeYear(year + 1) == DaysBeforeYear(year) + DaysInYear(year)
  {
    var y := year - 1;
    assert year / 4 - y / 4 == (if year % 4 == 0 then 1 else 0);
    assert year / 100 - y / 100 == (if year % 100 == 0 then 1 else 0);
    assert year / 400 - y / 400 == (if year % 400 == 0 then 1 else 0);
  }

  /** The day after December 31 is January 1 of the next year. */
  lemma DecemberStep(year: int)
    requires year >= 1
    ensures Ordinal(year + 1, 1, 1) == Ordinal(year, 12, 31) + 1
  {
    YearStep(year);
  }

  /** Every year has at least 365 days, so later years start later. */
  lemma {:induction false} YearsAscend(a: int, b: int)
    requires 1 <= a <= b
    ensures DaysBeforeYear(a) + 365 * (b - a) <= DaysBeforeYear(b)
    decreases b - a
  {
    if a < b {
      YearsAscend(a, b - 1);
      YearStep(b - 1);
    }
  }

  /** Every date of the years 1 to 9999 has an ordinal from 1 to MAX_ORDINAL. */
  lemma OrdinalInRange(year: int, month: int, day: int)
    requires 1 <= year <= MAX_YEAR && 1 <= month <= 12 && 1 <= day <= DaysInMonth(year, month)
    ensures ValidDay(Ordinal(year, month, day))
    ensures year < MAX_YEAR ==> Ordinal(year, month, day) < Ordinal(MAX_YEAR, 1, 1)
  {
    YearsAscend(1, year);
    if year < MAX_YEAR {
      YearStep(year);
      YearsAscend(year + 1, MAX_YEAR);
    }
  }

  /**
   * The week of `target`, as get_week_data computes it: from the Monday on or before the
   * date (`target - timedelta(days=target.weekday())`) to six days later. Adding six days
   * past 9999-12-31 raises OverflowError in Python, modelled as None.
   */
  function WeekBounds(target: Day): (r: Option<(Day, Day)>)
    requires ValidDay(target)
  {
    var start := target - Weekday(target);
    var end := start + 6;
    if end > MAX_ORDINAL then None else Some((start, end))
  }

  /**
   * The week starts on a Monday at most six days before the target and spans seven days.
   * Only the dates of the last, unfinished week (9999-12-27 to 9999-12-31) have no week;
   * every week found ends before MAX_ORDINAL, so the loop that steps past its last day
   * never leaves the representable range.
   */
  lemma WeekBoundsSpec(target: Day)
    requires ValidDay(target)
    ensures WeekBounds(target).None? <==> target >= MAX_ORDINAL - 4
    ensures WeekBounds(target).Some? ==>
      var (start, end) := WeekBounds(target).value;
      && Weekday(start) == 0
      && start <= target < start + 7
      && end == start + 6
      && 1 <= start && end < MAX_ORDINAL
  {
  }

  /**
   * The first and last day of a month, as get_month_data computes them: `date(year, month, 1)`
   * and the day before the first of the next month, which for December is January 1 of the
   * next year. `date` raises ValueError for a year outside 1..9999 or a month outside 1..12,
   * and so does the December case of year 9999; both are modelled as None.
   */
  function MonthBounds(year: int, month: int): (r: Option<(Day, Day)>)
  {
    if !(1 <= year <= MAX_YEAR && 1 <= month <= 12) then None
    else
      var first := Ordinal(year, month, 1);
      if month == 12 then
        if year + 1 > MAX_YEAR then None else Some((first, Ordinal(year + 1, 1, 1) - 1))
      else
        Some((first, Ordinal(year, month + 1, 1) - 1))
  }

  /**
   * A month that has bounds runs from its first to its last calendar day, so it spans exactly
   * DaysInMonth days, all representable, the last one before MAX_ORDINAL.
   */
  lemma MonthBoundsSpec(year: int, month: int)
    ensures MonthBounds(year, month).Some? <==>
      1 <= year <= MAX_YEAR && 1 <= month <= 12 && !(year == MAX_YEAR && month == 12)
    ensures MonthBounds(year, month).Some? ==>
      var (first, last) := MonthBounds(year, month).value;
      && first == Ordinal(year, month, 1)
      && last == Ordinal(year, month, DaysInMonth(year, month))
      && last - first + 1 == DaysInMonth(year, month)
      && 1 <= first && last < MAX_ORDINAL
  {
    if 1 <= year <= MAX_YEAR && 1 <= month <= 12 && !(year == MAX_YEAR && month == 12) {
      if month == 12 {
        DecemberStep(year);
      } else {
        MonthStep(year, month);
      }
      OrdinalInRange(year, month, 1);
      OrdinalInRange(year, month, DaysInMonth(year, month));
      if year == MAX_YEAR {
        assert Ordinal(year, month, DaysInMonth(year, month)) <= Ordinal(MAX_YEAR, 12, 1);
      }
    }
  }
}
