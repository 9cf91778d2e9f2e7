/**
 * Naive calendar dates as Python's `datetime.date` sees them: the proleptic
 * Gregorian calendar for years 1 to 9999, day ordinals as `date.toordinal()`
 * computes them (0001-01-01 is day 1), `date.weekday()` (Monday is 0) and
 * `date.replace(year=...)`, which raises `ValueError` when the new date does
 * not exist.
 */
module Calendar {
  import opened Outcomes

  const MinYear := 1
  const MaxYear := 9999

  datatype Date = Date(year: int, month: int, day: int)

  predicate IsLeap(y: int) {
    y % 4 == 0 && (y % 100 != 0 || y % 400 == 0)
  }

  function DaysInMonth(y: int, m: int): (n: int)
    requires 1 <= m <= 12
    ensures 28 <= n <= 31
    ensures n == 29 <==> m == 2 && IsLeap(y)
  {
    if m == 2 then (if IsLeap(y) then 29 else 28)
    else if m == 4 || m == 6 || m == 9 || m == 11 then 30
    else 31
  }

  /** The values `datetime.date(year, month, day)` accepts. */
  predicate ValidDate(d: Date) {
    && MinYear <= d.year <= MaxYear
    && 1 <= d.month <= 12
    && 1 <= d.day <= DaysInMonth(d.year, d.month)
  }

  /** Why `date.replace` refused: the year, or the day for that month. */
  datatype DateError = YearOutOfRange | MonthOutOfRange | DayOutOfRange

  /**
   * `d.replace(year=y)`: the same month and day in year `y`, checked in the
   * order the date constructor checks them (year, then month, then day).
   */
  function ReplaceYear(d: Date, y: int): (r: Result<Date, DateError>)
    ensures r.Ok? <==> ValidDate(Date(y, d.month, d.day))
    ensures r.Ok? ==> r.value == Date(y, d.month, d.day)
    ensures r == Err(DayOutOfRange) <==>
              MinYear <= y <= MaxYear && 1 <= d.month <= 12 && !ValidDate(Date(y, d.month, d.day))
  {
    if !(MinYear <= y <= MaxYear) then Err(YearOutOfRange)
    else if !(1 <= d.month <= 12) then Err(MonthOutOfRange)
    else if !(1 <= d.day <= DaysInMonth(y, d.month)) then Err(DayOutOfRange)
    else Ok(Date(y, d.month, d.day))
  }

  function DaysInYear(y: int): int {
    if IsLeap(y) then 366 else 365
  }

  /** Days in the years before `y`. */
  function DaysBeforeYear(y: int): int
    requires y >= 1
  {
    var p := y - 1;
    p * 365 + p / 4 - p / 100 + p / 400
  }

  const DaysBeforeMonthInCommonYear: seq<int> := [0, 31, 59, 90, 120, 151, 181, 212, 243, 273, 304, 334]

  /** Days in year `y` before the first of month `m`. */
  function DaysBeforeMonth(y: int, m: int): int
    requires 1 <= m <= 12
  {
    DaysBeforeMonthInCommonYear[m - 1] + (if m > 2 && IsLeap(y) then 1 else 0)
  }

  /** `date.toordinal()`. */
  function Ordinal(d: Date): int
    requires ValidDate(d)
  {
    DaysBeforeYear(d.year) + DaysBeforeMonth(d.year, d.month) + d.day
  }

  /** `date.weekday()`: 0 is Monday, 6 is Sunday. */
  function Weekday(d: Date): (w: int)
    requires ValidDate(d)
    ensures 0 <= w < 7
  {
    (Ordinal(d) + 6) % 7
  }

  /** Each day moves the weekday on by one, modulo 7. */
  lemma WeekdayShift(a: Date, b: Date)
    requires ValidDate(a) && ValidDate(b)
    ensures Weekday(b) == (Weekday(a) + Ordinal(b) - Ordinal(a)) % 7
  {
    ModShift(Ordinal(a), Ordinal(b));
  }

  lemma ModShift(x: int, y: int)
    ensures (y + 6) % 7 == ((x + 6) % 7 + y - x) % 7
  {
    var q := (x + 6) / 7;
    assert (x + 6) % 7 + y - x == (y + 6) - 7 * q;
    ModMinusMultiple(y + 6, q);
  }

  lemma ModMinusMultiple(n: int, q: int)
    ensures (n - 7 * q) % 7 == n % 7
  {
  }

  /** 10 June 2024 was a Monday, weekday 0. */
  lemma KnownMonday()
    ensures Weekday(Date(2024, 6, 10)) == 0
  {
  }

  /** Calendar order: `a` comes strictly before `b`. */
  predicate Precedes(a: Date, b: Date) {
    || a.year < b.year
    || (a.year == b.year && a.month < b.month)
    || (a.year == b.year && a.month == b.month && a.day < b.day)
  }

  /** Adding one more year to the count adds that year's length. */
  lemma YearLength(y: int)
    requires y >= 1
    ensures DaysBeforeYear(y + 1) == DaysBeforeYear(y) + DaysInYear(y)
  {
    DivSteps(y - 1);
  }

  /** Going from `p` to `p + 1` raises `p / k` by one exactly when `k` divides `p + 1`. */
  lemma DivSteps(p: int)
    requires p >= 0
    ensures (p + 1) / 4 == p / 4 + (if (p + 1) % 4 == 0 then 1 else 0)
    ensures (p + 1) / 100 == p / 100 + (if (p + 1) % 100 == 0 then 1 else 0)
    ensures (p + 1) / 400 == p / 400 + (if (p + 1) % 400 == 0 then 1 else 0)
  {
  }

  lemma {:induction false} DaysBeforeYearMonotone(a: int, b: int)
    requires 1 <= a <= b
    ensures DaysBeforeYear(a) + DaysInYear(a) * (if a < b then 1 else 0) <= DaysBeforeYear(b)
    decreases b - a
  {
    if a < b {
      YearLength(a);
      if a + 1 < b {
        DaysBeforeYearMonotone(a + 1, b);
      }
    }
  }

  lemma MonthStep(y: int, m: int)
    requires 1 <= m < 12
    ensures DaysBeforeMonth(y, m + 1) == DaysBeforeMonth(y, m) + DaysInMonth(y, m)
  {
  }

  lemma {:induction false} MonthsMonotone(y: int, m1: int, m2: int)
    requires 1 <= m1 < m2 <= 12
    ensures DaysBeforeMonth(y, m1) + DaysInMonth(y, m1) <= DaysBeforeMonth(y, m2)
    decreases m2 - m1
  {
    MonthStep(y, m1);
    if m1 + 1 < m2 {
      MonthsMonotone(y, m1 + 1, m2);
    }
  }

  /** Every day of year `y` has an ordinal within that year's span. */
  lemma OrdinalWithinYear(d: Date)
    requires ValidDate(d)
    ensures DaysBeforeYear(d.year) < Ordinal(d) <= DaysBeforeYear(d.year) + DaysInYear(d.year)
  {
  }

  /** The day after `d`, as `d + timedelta(days=1)`; there is none after 9999-12-31. */
  function NextDay(d: Date): (r: Date)
    requires ValidDate(d) && d != Date(MaxYear, 12, 31)
    ensures ValidDate(r) && Precedes(d, r)
  {
    if d.day < DaysInMonth(d.year, d.month) then Date(d.year, d.month, d.day + 1)
    else if d.month < 12 then Date(d.year, d.month + 1, 1)
    else Date(d.year + 1, 1, 1)
  }

  /** Consecutive days have consecutive ordinals, across month and year ends. */
  lemma NextDayOrdinal(d: Date)
    requires ValidDate(d) && d != Date(MaxYear, 12, 31)
    ensures Ordinal(NextDay(d)) == Ordinal(d) + 1
  {
    if d.day < DaysInMonth(d.year, d.month) {
    } else if d.month < 12 {
      MonthStep(d.year, d.month);
    } else {
      YearLength(d.year);
    }
  }

  /** Ordinals follow calendar order exactly: `a` is earlier iff its ordinal is smaller. */
  lemma OrdinalOrder(a: Date, b: Date)
    requires ValidDate(a) && ValidDate(b)
    ensures Ordinal(a) < Ordinal(b) <==> Precedes(a, b)
    ensures Ordinal(a) == Ordinal(b) <==> a == b
  {
    if Precedes(a, b) {
      PrecedesOrdinal(a, b);
    } else if Precedes(b, a) {
      PrecedesOrdinal(b, a);
    }
  }

  lemma PrecedesOrdinal(a: Date, b: Date)
    requires ValidDate(a) && ValidDate(b) && Precedes(a, b)
    ensures Ordinal(a) < Ordinal(b)
  {
    if a.year < b.year {
      OrdinalWithinYear(a);
      OrdinalWithinYear(b);
      DaysBeforeYearMonotone(a.year, b.year);
    } else if a.month < b.month {
      MonthsMonotone(a.year, a.month, b.month);
    }
  }
}
