/**
  Proleptic Gregorian calendar arithmetic: month lengths, and a numbering of
  days that is a bijection between valid dates and the integers. Day 0 is
  0001-01-01, which is a Monday; day numbers before it are negative.
 */
module Calendar {

  datatype Date = Date(year: int, month: int, day: int)

  /** Divisible by 4, except centuries not divisible by 400. */
  predicate IsLeapYear(year: int) {
    year % 4 == 0 && (year % 100 != 0 || year % 400 == 0)
  }

  function YearLength(year: int): int {
    if IsLeapYear(year) then 366 else 365
  }

  /**
    Number of days in `month` of `year`. A month outside 1..12 is not an
    error: it falls back to 31.
   */
  function DaysInMonth(year: int, month: int): (n: int)
    ensures 28 <= n <= 31
    ensures n == 29 <==> month == 2 && IsLeapYear(year)
    ensures n == 28 <==> month == 2 && !IsLeapYear(year)
    ensures n == 30 <==> month in {4, 6, 9, 11}
  {
    if month == 2 then (if IsLeapYear(year) then 29 else 28)
    else if month == 4 || month == 6 || month == 9 || month == 11 then 30
    else 31
  }

  predicate ValidDate(d: Date) {
    1 <= d.month <= 12 && 1 <= d.day <= DaysInMonth(d.year, d.month)
  }

  /** Days from 0001-01-01 to the first of January of `year`. */
  function DaysBeforeYear(year: int): int {
    var y := year - 1;
    365 * y + y / 4 - y / 100 + y / 400
  }

  /** Days from the first of January to the first of `month`, from a table of common-year offsets. */
  function DaysBeforeMonth(year: int, month: int): (n: int)
    requires 1 <= month <= 13
    ensures 0 <= n <= YearLength(year)
  {
    var common := [0, 31, 59, 90, 120, 151, 181, 212, 243, 273, 304, 334, 365][month - 1];
    if month > 2 && IsLeapYear(year) then common + 1 else common
  }

  function DayNumber(d: Date): int
    requires 1 <= d.month <= 12
  {
    DaysBeforeYear(d.year) + DaysBeforeMonth(d.year, d.month) + d.day - 1
  }

  /** The Sunday-based weekday of a day number: 0 is Sunday, 6 is Saturday. */
  function DayOfWeek(n: int): (w: int)
    ensures 0 <= w < 7
  {
    (n + 1) % 7
  }

  /** The calendar date after `d`, rolling over month and year ends. */
  function NextDay(d: Date): (e: Date)
    requires ValidDate(d)
    ensures ValidDate(e)
    ensures DayNumber(e) == DayNumber(d) + 1
  {
    if d.day < DaysInMonth(d.year, d.month) then
      Date(d.year, d.month, d.day + 1)
    else if d.month < 12 then
      MonthTableStep(d.year, d.month);
      Date(d.year, d.month + 1, 1)
    else
      YearStep(d.year);
      MonthTableStep(d.year, 12);
      MonthsFillYear(d.year);
      Date(d.year + 1, 1, 1)
  }

  // ---------------------------------------------------------------------
  // The year and month tables are consistent with the month lengths.

  /** Each year contributes exactly its length to the day count. */
  lemma YearStep(year: int)
    ensures DaysBeforeYear(year + 1) == DaysBeforeYear(year) + YearLength(year)
  {
    DivStep(year, 4);
    DivStep(year, 100);
    DivStep(year, 400);
  }

  lemma DivStep(b: int, k: int)
    requires k == 4 || k == 100 || k == 400
    ensures b / k - (b - 1) / k == if b % k == 0 then 1 else 0
  {
  }

  /** Consecutive entries of the month table differ by the month's length. */
  lemma MonthTableStep(year: int, month: int)
    requires 1 <= month <= 12
    ensures DaysBeforeMonth(year, month + 1) == DaysBeforeMonth(year, month) + DaysInMonth(year, month)
  {
  }

  /** The month lengths of a year sum to the year's length. */
  lemma MonthsFillYear(year: int)
    ensures DaysBeforeMonth(year, 13) == YearLength(year)
    ensures DaysBeforeMonth(year, 1) == 0
  {
  }

  lemma {:induction false} DaysBeforeYearMonotone(y1: int, y2: int)
    requires y1 <= y2
    ensures DaysBeforeYear(y1) + 365 * (y2 - y1) <= DaysBeforeYear(y2)
    decreases y2 - y1
  {
    if y1 < y2 {
      DaysBeforeYearMonotone(y1, y2 - 1);
      YearStep(y2 - 1);
    }
  }

  lemma DaysBeforeMonthMonotone(year: int, m1: int, m2: int)
    requires 1 <= m1 <= m2 <= 13
    ensures DaysBeforeMonth(year, m1) + 28 * (m2 - m1) <= DaysBeforeMonth(year, m2)
  {
  }

  // ---------------------------------------------------------------------
  // From a day number back to a date.

  /** The year whose days contain day number `n`. */
  function YearOf(n: int): (year: int)
    ensures DaysBeforeYear(year) <= n < DaysBeforeYear(year + 1)
  {
    var guess := 1 + n / 366;
    if DaysBeforeYear(guess) <= n then YearAtOrAfter(n, guess) else YearBefore(n, guess - 1)
  }

  function YearAtOrAfter(n: int, year: int): (y: int)
    requires DaysBeforeYear(year) <= n
    ensures DaysBeforeYear(y) <= n < DaysBeforeYear(y + 1)
    decreases n - DaysBeforeYear(year)
  {
    YearStep(year);
    if n < DaysBeforeYear(year + 1) then year else YearAtOrAfter(n, year + 1)
  }

  function YearBefore(n: int, year: int): (y: int)
    requires n < DaysBeforeYear(year + 1)
    ensures DaysBeforeYear(y) <= n < DaysBeforeYear(y + 1)
    decreases DaysBeforeYear(year + 1) - n
  {
    YearStep(year);
    if DaysBeforeYear(year) <= n then year else YearBefore(n, year - 1)
  }

  /** The month of `year` whose days contain the `offset`-th day of the year, searching from `month`. */
  function MonthOf(year: int, offset: int, month: int): (m: int)
    requires 1 <= month <= 12
    requires DaysBeforeMonth(year, month) <= offset < YearLength(year)
    ensures month <= m <= 12
    ensures DaysBeforeMonth(year, m) <= offset < DaysBeforeMonth(year, m + 1)
    decreases 12 - month
  {
    MonthsFillYear(year);
    if offset < DaysBeforeMonth(year, month + 1) then month else MonthOf(year, offset, month + 1)
  }

  /** The date with day number `n`. */
  function FromDayNumber(n: int): (d: Date)
    ensures ValidDate(d)
    ensures DayNumber(d) == n
  {
    var year := YearOf(n);
    YearStep(year);
    MonthsFillYear(year);
    var offset := n - DaysBeforeYear(year);
    var month := MonthOf(year, offset, 1);
    MonthTableStep(year, month);
    Date(year, month, offset - DaysBeforeMonth(year, month) + 1)
  }

  // ---------------------------------------------------------------------
  // Day numbering is a bijection between valid dates and the integers.

  /** A valid date's day number lies within its own year and month. */
  lemma DayNumberBounds(d: Date)
    requires ValidDate(d)
    ensures DaysBeforeYear(d.year) <= DayNumber(d) < DaysBeforeYear(d.year + 1)
    ensures DaysBeforeMonth(d.year, d.month) <= DayNumber(d) - DaysBeforeYear(d.year) < DaysBeforeMonth(d.year, d.month + 1)
  {
    YearStep(d.year);
    MonthTableStep(d.year, d.month);
    DaysBeforeMonthMonotone(d.year, d.month + 1, 13);
    MonthsFillYear(d.year);
  }

  lemma YearUnique(n: int, y1: int, y2: int)
    requires DaysBeforeYear(y1) <= n < DaysBeforeYear(y1 + 1)
    requires DaysBeforeYear(y2) <= n < DaysBeforeYear(y2 + 1)
    ensures y1 == y2
  {
    if y1 < y2 {
      DaysBeforeYearMonotone(y1 + 1, y2);
    } else if y2 < y1 {
      DaysBeforeYearMonotone(y2 + 1, y1);
    }
  }

  lemma MonthUnique(year: int, offset: int, m1: int, m2: int)
    requires 1 <= m1 <= 12 && 1 <= m2 <= 12
    requires DaysBeforeMonth(year, m1) <= offset < DaysBeforeMonth(year, m1 + 1)
    requires DaysBeforeMonth(year, m2) <= offset < DaysBeforeMonth(year, m2 + 1)
    ensures m1 == m2
  {
    if m1 < m2 {
      DaysBeforeMonthMonotone(year, m1 + 1, m2);
    } else if m2 < m1 {
      DaysBeforeMonthMonotone(year, m2 + 1, m1);
    }
  }

  /** Numbering a valid date and converting back gives the date itself. */
  lemma FromDayNumberOfDayNumber(d: Date)
    requires ValidDate(d)
    ensures FromDayNumber(DayNumber(d)) == d
  {
    var n := DayNumber(d);
    DayNumberBounds(d);
    var e := FromDayNumber(n);
    YearUnique(n, d.year, YearOf(n));
    assert e.year == d.year;
    MonthUnique(d.year, n - DaysBeforeYear(d.year), d.month, e.month);
  }

  /** Distinct valid dates have distinct day numbers. */
  lemma DayNumberInjective(d1: Date, d2: Date)
    requires ValidDate(d1) && ValidDate(d2)
    ensures DayNumber(d1) == DayNumber(d2) <==> d1 == d2
  {
    if DayNumber(d1) == DayNumber(d2) {
      FromDayNumberOfDayNumber(d1);
      FromDayNumberOfDayNumber(d2);
    }
  }

  /** Calendar order: earlier year, then earlier month, then earlier day. */
  predicate DateBefore(a: Date, b: Date) {
    a.year < b.year
    || (a.year == b.year && a.month < b.month)
    || (a.year == b.year && a.month == b.month && a.day < b.day)
  }

  /** Day numbers increase exactly along calendar order. */
  lemma DayNumberOrder(a: Date, b: Date)
    requires ValidDate(a) && ValidDate(b)
    ensures DayNumber(a) < DayNumber(b) <==> DateBefore(a, b)
  {
    if a.year < b.year {
      EarlierYearFirst(a, b);
    } else if b.year < a.year {
      EarlierYearFirst(b, a);
    } else if a.month < b.month {
      EarlierMonthFirst(a, b);
    } else if b.month < a.month {
      EarlierMonthFirst(b, a);
    }
  }

  lemma EarlierYearFirst(a: Date, b: Date)
    requires ValidDate(a) && ValidDate(b) && a.year < b.year
    ensures DayNumber(a) < DayNumber(b)
  {
    DayNumberBounds(a);
    DayNumberBounds(b);
    DaysBeforeYearMonotone(a.year + 1, b.year);
  }

  lemma EarlierMonthFirst(a: Date, b: Date)
    requires ValidDate(a) && ValidDate(b) && a.year == b.year && a.month < b.month
    ensures DayNumber(a) < DayNumber(b)
  {
    MonthTableStep(a.year, a.month);
    DaysBeforeMonthMonotone(a.year, a.month + 1, b.month);
  }
}
