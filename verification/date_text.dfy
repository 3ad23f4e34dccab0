/**
  The two text formats events carry: calendar dates as `YYYY-MM-DD` and
  times of day as `HH:MM`, both with zero-padded fixed-width fields.
  Reading is strict: a wrong length, a wrong separator, a non-digit, a month
  or day that does not exist, an hour past 23 or a minute past 59 all read as
  nothing.
 */
module DateText {
  import opened Wrappers
  import opened Decimal
  import opened Calendar

  const MinutesPerDay := 1440

  /** Reads `YYYY-MM-DD`. */
  function ParseDate(s: string): (r: Option<Date>)
    ensures r.Some? ==> ValidDate(r.value) && 0 <= r.value.year <= 9999
    ensures r.Some? ==> |s| == 10 && s[4] == '-' && s[7] == '-'
  {
    if |s| == 10 && s[4] == '-' && s[7] == '-'
       && AllDigits(s[0..4]) && AllDigits(s[5..7]) && AllDigits(s[8..10]) then
      var d := Date(Value(s[0..4]), Value(s[5..7]), Value(s[8..10]));
      if ValidDate(d) then Some(d) else None
    else
      None
  }

  /** Writes a date as `YYYY-MM-DD`; four-digit years only. */
  function RenderDate(d: Date): (s: string)
    requires ValidDate(d) && 0 <= d.year <= 9999
    ensures |s| == 10
  {
    Pad(d.year, 4) + "-" + Pad(d.month, 2) + "-" + Pad(d.day, 2)
  }

  /** Reads `HH:MM` as minutes after midnight. */
  function ParseTime(s: string): (r: Option<int>)
    ensures r.Some? ==> 0 <= r.value < MinutesPerDay
    ensures r.Some? ==> |s| == 5 && s[2] == ':'
  {
    if |s| == 5 && s[2] == ':' && AllDigits(s[0..2]) && AllDigits(s[3..5]) then
      var hour, minute := Value(s[0..2]), Value(s[3..5]);
      if hour < 24 && minute < 60 then Some(hour * 60 + minute) else None
    else
      None
  }

  /** Writes minutes after midnight as `HH:MM`. */
  function RenderTime(t: int): (s: string)
    requires 0 <= t < MinutesPerDay
    ensures |s| == 5
  {
    Pad(t / 60, 2) + ":" + Pad(t % 60, 2)
  }

  lemma EmptyTextReadsAsNothing()
    ensures ParseDate("") == None
    ensures ParseTime("") == None
  {
  }

  /** Every valid date with a four-digit year reads back from its rendering. */
  lemma ParseRenderDate(d: Date)
    requires ValidDate(d) && 0 <= d.year <= 9999
    ensures ParseDate(RenderDate(d)) == Some(d)
  {
    var s := RenderDate(d);
    assert s[0..4] == Pad(d.year, 4);
    assert s[5..7] == Pad(d.month, 2);
    assert s[8..10] == Pad(d.day, 2);
    ValueOfPad(d.year, 4);
    ValueOfPad(d.month, 2);
    ValueOfPad(d.day, 2);
  }

  /** Every string that reads as a date is that date's rendering. */
  lemma RenderParseDate(s: string)
    requires ParseDate(s).Some?
    ensures RenderDate(ParseDate(s).value) == s
  {
    PadOfValue(s[0..4]);
    PadOfValue(s[5..7]);
    PadOfValue(s[8..10]);
    assert s == s[0..4] + "-" + s[5..7] + "-" + s[8..10];
  }

  /** Every time of day reads back from its rendering. */
  lemma ParseRenderTime(t: int)
    requires 0 <= t < MinutesPerDay
    ensures ParseTime(RenderTime(t)) == Some(t)
  {
    var s := RenderTime(t);
    assert s[0..2] == Pad(t / 60, 2);
    assert s[3..5] == Pad(t % 60, 2);
    ValueOfPad(t / 60, 2);
    ValueOfPad(t % 60, 2);
  }

  /** Every string that reads as a time is that time's rendering. */
  lemma RenderParseTime(s: string)
    requires ParseTime(s).Some?
    ensures RenderTime(ParseTime(s).value) == s
  {
    var hour, minute := Value(s[0..2]), Value(s[3..5]);
    DivModUnique(hour * 60 + minute, 60, hour, minute);
    PadOfValue(s[0..2]);
    PadOfValue(s[3..5]);
    assert s == s[0..2] + ":" + s[3..5];
  }

  /**
    For well-formed `HH:MM` strings, comparing the text compares the times:
    zero padding makes string order and clock order agree.
   */
  lemma TimeTextOrder(s: string, t: string)
    requires ParseTime(s).Some? && ParseTime(t).Some?
    ensures LexLess(s, t) <==> ParseTime(s).value < ParseTime(t).value
  {
    assert s == s[0..2] + s[2..5];
    assert t == t[0..2] + t[2..5];
    assert s[2..5] == [':'] + s[3..5];
    assert t[2..5] == [':'] + t[3..5];
    LexLessConcat(s[0..2], s[2..5], t[0..2], t[2..5]);
    LexLessConcat([':'], s[3..5], [':'], t[3..5]);
    LexLessIsValueLess(s[0..2], t[0..2]);
    LexLessIsValueLess(s[3..5], t[3..5]);
    ValueInjective(s[0..2], t[0..2]);
  }

  /** Reading `YYYY-MM-DD` digit by digit. */
  lemma ReadsCalendarDate(s: string, year: nat, month: nat, day: nat)
    requires year <= 9999 && ValidDate(Date(year, month, day))
    requires |s| == 10 && s[4] == '-' && s[7] == '-'
    requires s[0] == DigitChar(year / 1000) && s[1] == DigitChar(year / 100 % 10)
    requires s[2] == DigitChar(year / 10 % 10) && s[3] == DigitChar(year % 10)
    requires s[5] == DigitChar(month / 10) && s[6] == DigitChar(month % 10)
    requires s[8] == DigitChar(day / 10) && s[9] == DigitChar(day % 10)
    ensures ParseDate(s) == Some(Date(year, month, day))
  {
    var yyyy, mm, dd := s[0..4], s[5..7], s[8..10];
    ReadsFourDigits(yyyy, year);
    assert AllDigits(mm) && AllDigits(dd);
    ReadsTwoDigits(mm);
    ReadsTwoDigits(dd);
  }

  /** Reading `HH:MM` digit by digit. */
  lemma ReadsClock(s: string, hour: nat, minute: nat)
    requires hour < 24 && minute < 60 && |s| == 5 && s[2] == ':'
    requires s[0] == DigitChar(hour / 10) && s[1] == DigitChar(hour % 10)
    requires s[3] == DigitChar(minute / 10) && s[4] == DigitChar(minute % 10)
    ensures ParseTime(s) == Some(hour * 60 + minute)
  {
    var hh, mm := s[0..2], s[3..5];
    assert AllDigits(hh) && AllDigits(mm);
    ReadsTwoDigits(hh);
    ReadsTwoDigits(mm);
  }
}
