/**
  The calendar helpers: the Sunday-to-Saturday week containing a date, and
  inclusive date-range membership. Month lengths are `Calendar.DaysInMonth`.
 */
module DateUtils {
  import opened Calendar

  /** Day number of the Sunday on or before day number `n`. */
  function WeekStart(n: int): (s: int)
    ensures s <= n < s + 7
    ensures DayOfWeek(s) == 0
  {
    n - DayOfWeek(n)
  }

  /** The `count` dates whose day numbers run from `first` upwards. */
  function DaysFrom(first: int, count: nat): (days: seq<Date>)
    ensures |days| == count
    ensures forall i :: 0 <= i < count ==> ValidDate(days[i]) && DayNumber(days[i]) == first + i
  {
    var days := seq(count, i => FromDayNumber(first + i));
    forall i | 0 <= i < count
      ensures ValidDate(days[i]) && DayNumber(days[i]) == first + i
    {
      assert days[i] == FromDayNumber(first + i);
    }
    days
  }

  /**
    The seven dates of the week containing `d`, Sunday first. A date value
    always names an existing day, hence the precondition.
   */
  function WeekDates(d: Date): (week: seq<Date>)
    requires ValidDate(d)
    ensures |week| == 7
    ensures forall i :: 0 <= i < 7 ==> ValidDate(week[i])
    ensures ValidDate(week[0]) && DayOfWeek(DayNumber(week[0])) == 0
    ensures DayNumber(week[0]) <= DayNumber(d) < DayNumber(week[0]) + 7
    ensures forall i :: 0 <= i < 6 ==> week[i + 1] == NextDay(week[i])
    ensures d in week
  {
    var s := WeekStart(DayNumber(d));
    var week := DaysFrom(s, 7);
    forall i | 0 <= i < 6
      ensures week[i + 1] == NextDay(week[i])
    {
      DayNumberInjective(week[i + 1], NextDay(week[i]));
    }
    var k := DayNumber(d) - s;
    DayNumberInjective(week[k], d);
    week
  }

  /**
    Builds the week by stepping one day at a time from its Sunday, and agrees
    with `WeekDates`.
   */
  method GetWeekDates(d: Date) returns (week: seq<Date>)
    requires ValidDate(d)
    ensures week == WeekDates(d)
  {
    var n := DayNumber(d);
    var day := FromDayNumber(WeekStart(n));
    ghost var spec := WeekDates(d);
    FirstOfWeek(d);
    week := [];
    var i := 0;
    while i < 7
      invariant 0 <= i <= 7
      invariant ValidDate(day)
      invariant i < 7 ==> day == spec[i]
      invariant week == spec[..i]
    {
      assert spec[..i + 1] == spec[..i] + [day];
      week := week + [day];
      day := NextDay(day);
      i := i + 1;
    }
  }

  /** The week's first date is the date of its Sunday's day number. */
  lemma FirstOfWeek(d: Date)
    requires ValidDate(d)
    ensures FromDayNumber(WeekStart(DayNumber(d))) == WeekDates(d)[0]
  {
    var first := WeekDates(d)[0];
    WeekStartOfWeekDay(DayNumber(first), DayNumber(d) - DayNumber(first));
    DayNumberInjective(FromDayNumber(WeekStart(DayNumber(d))), first);
  }

  /** Two dates of one week produce the identical week. */
  lemma SameWeek(d: Date, e: Date)
    requires ValidDate(d) && e in WeekDates(d)
    ensures WeekDates(e) == WeekDates(d)
  {
    var w := WeekDates(d);
    var k :| 0 <= k < 7 && w[k] == e;
    var s := WeekStart(DayNumber(d));
    assert DayNumber(e) == s + k;
    WeekStartOfWeekDay(s, k);
  }

  lemma WeekStartOfWeekDay(s: int, k: int)
    requires DayOfWeek(s) == 0 && 0 <= k < 7
    ensures WeekStart(s + k) == s
  {
  }

  /**
    Whether `date` lies in the inclusive range from `start` to `end`. An
    inverted range (start after end) contains no date.
   */
  function IsDateInRange(date: Date, start: Date, end: Date): (r: bool)
    requires ValidDate(date) && ValidDate(start) && ValidDate(end)
    ensures r <==> !DateBefore(date, start) && !DateBefore(end, date)
    ensures DateBefore(end, start) ==> !r
  {
    DayNumberOrder(date, start);
    DayNumberOrder(end, date);
    DayNumberOrder(end, start);
    DayNumber(start) <= DayNumber(date) <= DayNumber(end)
  }

  /** Both ends of a range belong to it whenever it is not inverted. */
  lemma RangeIncludesEnds(start: Date, end: Date)
    requires ValidDate(start) && ValidDate(end) && !DateBefore(end, start)
    ensures IsDateInRange(start, start, end) && IsDateInRange(end, start, end)
  {
  }

  // ---------------------------------------------------------------------
  // The concrete expectations of the unit tests.

  /** The range 2024-07-01 to 2024-07-31 holds its middle and both ends, and not the days just outside. */
  lemma IsDateInRangeExamples()
    ensures IsDateInRange(Date(2024, 7, 10), Date(2024, 7, 1), Date(2024, 7, 31))
    ensures IsDateInRange(Date(2024, 7, 1), Date(2024, 7, 1), Date(2024, 7, 31))
    ensures IsDateInRange(Date(2024, 7, 31), Date(2024, 7, 1), Date(2024, 7, 31))
    ensures !IsDateInRange(Date(2024, 6, 30), Date(2024, 7, 1), Date(2024, 7, 31))
    ensures !IsDateInRange(Date(2024, 8, 1), Date(2024, 7, 1), Date(2024, 7, 31))
    ensures !IsDateInRange(Date(2024, 7, 10), Date(2024, 7, 31), Date(2024, 7, 1))
  {
  }

  lemma MonthLengthExamples()
    ensures DaysInMonth(2024, 1) == 31
    ensures DaysInMonth(2024, 4) == 30
    ensures DaysInMonth(2028, 2) == 29
    ensures DaysInMonth(2026, 2) == 28
    ensures DaysInMonth(2024, 0) == 31 && DaysInMonth(2024, 20) == 31
  {
  }

  /** The days from `Date(y, m, first)` through `Date(y, m, first + count - 1)`. */
  function Run(y: int, m: int, first: int, count: nat): seq<Date> {
    seq(count, i => Date(y, m, first + i))
  }

  /** A week that starts on `sunday` is the week of each of its days. */
  lemma WeekFromSunday(d: Date, sunday: Date, expected: seq<Date>)
    requires ValidDate(d) && ValidDate(sunday) && |expected| == 7
    requires DayOfWeek(DayNumber(sunday)) == 0
    requires DayNumber(sunday) <= DayNumber(d) < DayNumber(sunday) + 7
    requires forall i :: 0 <= i < 7 ==> ValidDate(expected[i]) && DayNumber(expected[i]) == DayNumber(sunday) + i
    ensures WeekDates(d) == expected
  {
    var w := WeekDates(d);
    var s := DayNumber(sunday);
    assert WeekStart(DayNumber(d)) == s by {
      WeekStartOfWeekDay(s, DayNumber(d) - s);
    }
    forall i | 0 <= i < 7
      ensures w[i] == expected[i]
    {
      assert DayNumber(w[i]) == s + i;
      DayNumberInjective(w[i], expected[i]);
    }
  }

  /** A Wednesday goes back three days to its Sunday. */
  lemma WeekOfWednesday()
    ensures WeekDates(Date(2024, 11, 6)) == Run(2024, 11, 3, 7)
  {
    WeekFromSunday(Date(2024, 11, 6), Date(2024, 11, 3), Run(2024, 11, 3, 7));
  }

  /** A Sunday is the first day of its own week. */
  lemma WeekOfSunday()
    ensures WeekDates(Date(2024, 11, 3)) == Run(2024, 11, 3, 7)
  {
    WeekFromSunday(Date(2024, 11, 3), Date(2024, 11, 3), Run(2024, 11, 3, 7));
  }

  /** A Saturday goes back six days, here across the end of October. */
  lemma WeekOfSaturday()
    ensures WeekDates(Date(2024, 11, 2)) == Run(2024, 10, 27, 5) + Run(2024, 11, 1, 2)
  {
    WeekFromSunday(Date(2024, 11, 2), Date(2024, 10, 27), Run(2024, 10, 27, 5) + Run(2024, 11, 1, 2));
  }

  /** The week spanning New Year, seen from either side of it. */
  lemma WeekAcrossNewYear()
    ensures WeekDates(Date(2024, 12, 29)) == Run(2024, 12, 29, 3) + Run(2025, 1, 1, 4)
    ensures WeekDates(Date(2025, 1, 2)) == Run(2024, 12, 29, 3) + Run(2025, 1, 1, 4)
  {
    WeekFromSunday(Date(2024, 12, 29), Date(2024, 12, 29), Run(2024, 12, 29, 3) + Run(2025, 1, 1, 4));
    assert (Run(2024, 12, 29, 3) + Run(2025, 1, 1, 4))[4] == Date(2025, 1, 2);
    SameWeek(Date(2024, 12, 29), Date(2025, 1, 2));
  }

  /** The week holding a leap day runs from February 25 to March 2. */
  lemma WeekOfLeapDay()
    ensures WeekDates(Date(2024, 2, 29)) == Run(2024, 2, 25, 5) + Run(2024, 3, 1, 2)
  {
    WeekFromSunday(Date(2024, 2, 29), Date(2024, 2, 25), Run(2024, 2, 25, 5) + Run(2024, 3, 1, 2));
  }

  /** The week ending on the last day of November. */
  lemma WeekOfMonthEnd()
    ensures WeekDates(Date(2024, 11, 30)) == Run(2024, 11, 24, 7)
  {
    WeekFromSunday(Date(2024, 11, 30), Date(2024, 11, 24), Run(2024, 11, 24, 7));
  }

  /** Stepping a day crosses month ends by their lengths, leap day included. */
  lemma NextDayExamples()
    ensures NextDay(Date(2024, 10, 31)) == Date(2024, 11, 1)
    ensures NextDay(Date(2024, 2, 28)) == Date(2024, 2, 29)
    ensures NextDay(Date(2024, 2, 29)) == Date(2024, 3, 1)
    ensures NextDay(Date(2026, 2, 28)) == Date(2026, 3, 1)
    ensures NextDay(Date(2024, 12, 31)) == Date(2025, 1, 1)
  {
  }
}
