/**
  Overlap detection between calendar events. An event's date and times are
  text; reading them gives an instant, or the `Invalid` sentinel when the
  text is malformed. Intervals are half open: one event ending exactly when
  another starts does not overlap it, and an interval with an `Invalid`
  endpoint overlaps nothing (every comparison with an invalid moment is
  false).
 */
module EventOverlap {
  import opened Wrappers
  import opened Decimal
  import opened Calendar
  import opened DateText

  /** Minutes since 0001-01-01 00:00, or the sentinel of a failed read. */
  datatype Instant = Valid(minutes: int) | Invalid

  /** The fields of a calendar event that overlap detection reads. */
  datatype Event = Event(id: string, date: string, startTime: string, endTime: string)

  datatype DateRange = DateRange(start: Instant, end: Instant)

  /** The instant at minute `time` of day `d`. */
  function InstantOf(d: Date, time: int): Instant
    requires 1 <= d.month <= 12
  {
    Valid(DayNumber(d) * MinutesPerDay + time)
  }

  /**
    Combines a `YYYY-MM-DD` date and an `HH:MM` time. The instant splits back
    into the day number of the date and the minute of the time.
   */
  function ParseDateTime(date: string, time: string): (r: Instant)
    ensures r.Valid? <==> ParseDate(date).Some? && ParseTime(time).Some?
    ensures r.Valid? ==> r.minutes / MinutesPerDay == DayNumber(ParseDate(date).value)
    ensures r.Valid? ==> r.minutes % MinutesPerDay == ParseTime(time).value
  {
    match (ParseDate(date), ParseTime(time))
    case (Some(d), Some(t)) =>
      DivModUnique(DayNumber(d) * MinutesPerDay + t, MinutesPerDay, DayNumber(d), t);
      InstantOf(d, t)
    case _ => Invalid
  }

  /** Rendering a date and a time and reading them back gives their instant. */
  lemma ParseDateTimeOfRendered(d: Date, time: int)
    requires ValidDate(d) && 0 <= d.year <= 9999 && 0 <= time < MinutesPerDay
    ensures ParseDateTime(RenderDate(d), RenderTime(time)) == InstantOf(d, time)
  {
    ParseRenderDate(d);
    ParseRenderTime(time);
  }

  /** Distinct date-time texts that both read successfully name distinct instants. */
  lemma ParseDateTimeInjective(date1: string, time1: string, date2: string, time2: string)
    requires ParseDateTime(date1, time1).Valid? && ParseDateTime(date2, time2).Valid?
    ensures ParseDateTime(date1, time1) == ParseDateTime(date2, time2) <==> date1 == date2 && time1 == time2
  {
    if ParseDateTime(date1, time1) == ParseDateTime(date2, time2) {
      DayNumberInjective(ParseDate(date1).value, ParseDate(date2).value);
      RenderParseDate(date1);
      RenderParseDate(date2);
      RenderParseTime(time1);
      RenderParseTime(time2);
    }
  }

  /** Instants are ordered by date first, then by time of day. */
  lemma InstantOrder(d1: Date, t1: int, d2: Date, t2: int)
    requires ValidDate(d1) && ValidDate(d2)
    requires 0 <= t1 < MinutesPerDay && 0 <= t2 < MinutesPerDay
    ensures InstantOf(d1, t1).minutes < InstantOf(d2, t2).minutes
        <==> DateBefore(d1, d2) || (d1 == d2 && t1 < t2)
  {
    DayNumberOrder(d1, d2);
    DayNumberOrder(d2, d1);
    DayNumberInjective(d1, d2);
  }

  /** Both ends of an event are read on the event's own date. */
  function ToDateRange(e: Event): (r: DateRange)
    ensures ParseDate(e.date).None? ==> r.start == Invalid && r.end == Invalid
    ensures r.start.Valid? <==> ParseDate(e.date).Some? && ParseTime(e.startTime).Some?
    ensures r.end.Valid? <==> ParseDate(e.date).Some? && ParseTime(e.endTime).Some?
    ensures r.start.Valid? ==>
      r.start.minutes / MinutesPerDay == DayNumber(ParseDate(e.date).value)
      && r.start.minutes % MinutesPerDay == ParseTime(e.startTime).value
    ensures r.end.Valid? ==>
      r.end.minutes / MinutesPerDay == DayNumber(ParseDate(e.date).value)
      && r.end.minutes % MinutesPerDay == ParseTime(e.endTime).value
    ensures r.start.Valid? && r.end.Valid? ==>
      r.start.minutes / MinutesPerDay == r.end.minutes / MinutesPerDay
  {
    DateRange(ParseDateTime(e.date, e.startTime), ParseDateTime(e.date, e.endTime))
  }

  /** An event written from a date and two times spans exactly those two instants of that date. */
  lemma ToDateRangeOfRendered(id: string, d: Date, startTime: int, endTime: int)
    requires ValidDate(d) && 0 <= d.year <= 9999
    requires 0 <= startTime < MinutesPerDay && 0 <= endTime < MinutesPerDay
    ensures ToDateRange(Event(id, RenderDate(d), RenderTime(startTime), RenderTime(endTime)))
         == DateRange(InstantOf(d, startTime), InstantOf(d, endTime))
  {
    ParseDateTimeOfRendered(d, startTime);
    ParseDateTimeOfRendered(d, endTime);
  }

  /** Minute `t` lies within the half-open range. */
  predicate Covers(r: DateRange, t: int) {
    r.start.Valid? && r.end.Valid? && r.start.minutes <= t < r.end.minutes
  }

  /** Both ends are valid and the start is strictly before the end. */
  predicate NonEmpty(r: DateRange) {
    r.start.Valid? && r.end.Valid? && r.start.minutes < r.end.minutes
  }

  /**
    Each range starts before the other ends. For non-empty ranges this is
    exactly sharing a minute; a range whose start is not before its end
    covers no minute, yet can still pass the test.
   */
  function Overlaps(a: DateRange, b: DateRange): (r: bool)
    ensures r ==> a.start.Valid? && a.end.Valid? && b.start.Valid? && b.end.Valid?
    ensures (exists t :: Covers(a, t) && Covers(b, t)) ==> r
    ensures NonEmpty(a) && NonEmpty(b) ==> (r <==> exists t :: Covers(a, t) && Covers(b, t))
  {
    if a.start.Valid? && a.end.Valid? && b.start.Valid? && b.end.Valid? then
      var first := if a.start.minutes < b.start.minutes then b.start.minutes else a.start.minutes;
      assert NonEmpty(a) && NonEmpty(b) && a.start.minutes < b.end.minutes && b.start.minutes < a.end.minutes
        ==> Covers(a, first) && Covers(b, first);
      a.start.minutes < b.end.minutes && b.start.minutes < a.end.minutes
    else
      false
  }

  /** An inverted range (start after end) shares no minute with anything, yet passes the test. */
  lemma InvertedRangeStillOverlaps()
    ensures !NonEmpty(DateRange(Valid(5), Valid(3)))
    ensures Overlaps(DateRange(Valid(5), Valid(3)), DateRange(Valid(0), Valid(10)))
  {
  }

  /**
    Whether two events overlap in time. For events whose start is before
    their end, this is sharing a minute.
   */
  function IsOverlapping(e1: Event, e2: Event): (r: bool)
    ensures r ==> ParseDate(e1.date).Some? && ParseDate(e2.date).Some?
    ensures NonEmpty(ToDateRange(e1)) && NonEmpty(ToDateRange(e2)) ==>
      (r <==> exists t :: Covers(ToDateRange(e1), t) && Covers(ToDateRange(e2), t))
  {
    Overlaps(ToDateRange(e1), ToDateRange(e2))
  }

  lemma OverlapSymmetric(e1: Event, e2: Event)
    ensures IsOverlapping(e1, e2) == IsOverlapping(e2, e1)
  {
  }

  /** Events on two different valid dates never overlap. */
  lemma DifferentDatesNeverOverlap(e1: Event, e2: Event)
    requires ParseDate(e1.date).Some? && ParseDate(e2.date).Some?
    requires ParseDate(e1.date) != ParseDate(e2.date)
    ensures !IsOverlapping(e1, e2)
  {
    DayNumberInjective(ParseDate(e1.date).value, ParseDate(e2.date).value);
  }

  /** On one valid date, two events overlap exactly when each starts before the other ends. */
  lemma SameDateOverlap(e1: Event, e2: Event)
    requires e1.date == e2.date && ParseDate(e1.date).Some?
    requires ParseTime(e1.startTime).Some? && ParseTime(e1.endTime).Some?
    requires ParseTime(e2.startTime).Some? && ParseTime(e2.endTime).Some?
    ensures IsOverlapping(e1, e2) <==>
      ParseTime(e1.startTime).value < ParseTime(e2.endTime).value
      && ParseTime(e2.startTime).value < ParseTime(e1.endTime).value
  {
  }

  // ---------------------------------------------------------------------
  // Filtering the existing events against a candidate.

  /** `sub` can be obtained from `s` by deleting elements, keeping order. */
  predicate IsSubsequence<T(==)>(sub: seq<T>, s: seq<T>)
    decreases |s|
  {
    if |sub| == 0 then true
    else if |s| == 0 then false
    else if sub[0] == s[0] then IsSubsequence(sub[1..], s[1..])
    else IsSubsequence(sub, s[1..])
  }

  /**
    The existing events that overlap `candidate`, in their original order:
    every occurrence of an overlapping event is kept and nothing else.
   */
  function FindOverlapping(candidate: Event, existing: seq<Event>): (r: seq<Event>)
    ensures IsSubsequence(r, existing)
    ensures forall e :: e in r ==> IsOverlapping(candidate, e)
    ensures forall e :: IsOverlapping(candidate, e) ==> multiset(r)[e] == multiset(existing)[e]
    decreases |existing|
  {
    if |existing| == 0 then []
    else
      var rest := FindOverlapping(candidate, existing[1..]);
      assert existing == [existing[0]] + existing[1..];
      if IsOverlapping(candidate, existing[0]) then [existing[0]] + rest else rest
  }

  /** Nothing overlapping gives an empty result. */
  lemma FindOverlappingEmpty(candidate: Event, existing: seq<Event>)
    requires forall i :: 0 <= i < |existing| ==> !IsOverlapping(candidate, existing[i])
    ensures FindOverlapping(candidate, existing) == []
  {
  }
}
