/**
  The concrete expectations of the event overlap unit tests, proved of the
  model.
 */
module EventOverlapExamples {
  import opened Wrappers
  import opened Decimal
  import opened Calendar
  import opened DateText
  import opened EventOverlap

  /** A well-formed date and time read as their instant; a bad separator, minute 70 or empty text read as `Invalid`. */
  lemma ParseDateTimeExamples()
    ensures ParseDateTime("2024-07-01", "14:30") == InstantOf(Date(2024, 7, 1), 14 * 60 + 30)
    ensures ParseDateTime("2024/07/01", "14:30") == Invalid
    ensures ParseDateTime("2024-07-01", "14:70") == Invalid
    ensures ParseDateTime("", "14:30") == Invalid
    ensures ParseDateTime("2024-07-01", "") == Invalid
  {
    ReadsCalendarDate("2024-07-01", 2024, 7, 1);
    ReadsClock("14:30", 14, 30);
    DateSeparatorNotDash("2024/07/01");
    MinutePastFiftyNine("14:70");
    EmptyTextReadsAsNothing();
  }

  /** Both ends are read on the event's date. */
  lemma ToDateRangeExample()
    ensures ToDateRange(Event("1", "2024-11-05", "14:30", "15:30"))
         == DateRange(InstantOf(Date(2024, 11, 5), 14 * 60 + 30), InstantOf(Date(2024, 11, 5), 15 * 60 + 30))
  {
    ReadsCalendarDate("2024-11-05", 2024, 11, 5);
    ReadsClock("14:30", 14, 30);
    ReadsClock("15:30", 15, 30);
  }

  /** A malformed date makes both ends `Invalid`. */
  lemma ToDateRangeBadDateExample()
    ensures ToDateRange(Event("1", "2024~11~05", "14:30", "15:30")) == DateRange(Invalid, Invalid)
  {
    DateSeparatorNotDash("2024~11~05");
  }

  /** Minute 70 makes both ends `Invalid`. */
  lemma ToDateRangeBadMinuteExample()
    ensures ToDateRange(Event("1", "2024-11-05", "14:70", "15:70")) == DateRange(Invalid, Invalid)
  {
    MinutePastFiftyNine("14:70");
    MinutePastFiftyNine("15:70");
  }

  /** A date whose fifth character is not a dash does not read. */
  lemma DateSeparatorNotDash(s: string)
    requires |s| == 10 && s[4] != '-'
    ensures ParseDate(s) == None
  {
  }

  /** A minute field starting with 6 or more does not read. */
  lemma MinutePastFiftyNine(s: string)
    requires |s| == 5 && IsDigit(s[3]) && s[3] >= '6'
    ensures ParseTime(s) == None
  {
    var mm := s[3..5];
    if AllDigits(mm) {
      assert mm[1..] == [s[4]] && mm[1..][1..] == [];
      assert Value(mm) >= DigitValue(s[3]) * 10;
    }
  }

  function OnNovemberFifth(id: string, startTime: string, endTime: string): Event {
    Event(id, "2024-11-05", startTime, endTime)
  }

  /** 12:00-18:00 contains 14:00-16:00; 12:00-14:00 and 15:00-16:00 are disjoint. */
  lemma IsOverlappingExamples()
    ensures IsOverlapping(OnNovemberFifth("1", "12:00", "18:00"), OnNovemberFifth("2", "14:00", "16:00"))
    ensures !IsOverlapping(OnNovemberFifth("1", "12:00", "14:00"), OnNovemberFifth("2", "15:00", "16:00"))
  {
    ReadsCalendarDate("2024-11-05", 2024, 11, 5);
    ReadsClock("12:00", 12, 0);
    ReadsClock("14:00", 14, 0);
    ReadsClock("15:00", 15, 0);
    ReadsClock("16:00", 16, 0);
    ReadsClock("18:00", 18, 0);
    SameDateOverlap(OnNovemberFifth("1", "12:00", "18:00"), OnNovemberFifth("2", "14:00", "16:00"));
    SameDateOverlap(OnNovemberFifth("1", "12:00", "14:00"), OnNovemberFifth("2", "15:00", "16:00"));
  }

  function ExistingEvents(): seq<Event> {
    [OnNovemberFifth("1", "12:00", "14:00"),
     OnNovemberFifth("2", "15:00", "17:00"),
     OnNovemberFifth("3", "18:00", "19:00")]
  }

  /** Overlap of two events on 2024-11-05 given as whole hours. */
  lemma OverlapOfHours(e1: Event, h1: nat, k1: nat, e2: Event, h2: nat, k2: nat)
    requires ParseDate(e1.date).Some? && e1.date == e2.date
    requires ParseTime(e1.startTime) == Some(h1 * 60) && ParseTime(e1.endTime) == Some(k1 * 60)
    requires ParseTime(e2.startTime) == Some(h2 * 60) && ParseTime(e2.endTime) == Some(k2 * 60)
    ensures IsOverlapping(e1, e2) <==> h1 < k2 && h2 < k1
  {
    SameDateOverlap(e1, e2);
  }

  /** The first existing event reads as 2024-11-05, 12:00-14:00. */
  lemma FirstExistingReads()
    ensures ParseDate("2024-11-05") == Some(Date(2024, 11, 5))
    ensures ParseTime("12:00") == Some(12 * 60) && ParseTime("14:00") == Some(14 * 60)
  {
    ReadsCalendarDate("2024-11-05", 2024, 11, 5);
    ReadsClock("12:00", 12, 0);
    ReadsClock("14:00", 14, 0);
  }

  /** The second existing event reads as 2024-11-05, 15:00-17:00. */
  lemma SecondExistingReads()
    ensures ParseDate("2024-11-05") == Some(Date(2024, 11, 5))
    ensures ParseTime("15:00") == Some(15 * 60) && ParseTime("17:00") == Some(17 * 60)
  {
    ReadsCalendarDate("2024-11-05", 2024, 11, 5);
    ReadsClock("15:00", 15, 0);
    ReadsClock("17:00", 17, 0);
  }

  /** The third existing event reads as 2024-11-05, 18:00-19:00. */
  lemma ThirdExistingReads()
    ensures ParseDate("2024-11-05") == Some(Date(2024, 11, 5))
    ensures ParseTime("18:00") == Some(18 * 60) && ParseTime("19:00") == Some(19 * 60)
  {
    ReadsCalendarDate("2024-11-05", 2024, 11, 5);
    ReadsClock("18:00", 18, 0);
    ReadsClock("19:00", 19, 0);
  }

  /** A candidate on 2024-11-05 against existing event "1", 12:00-14:00. */
  lemma AgainstFirstExisting(start: string, end: string, h: nat, k: nat)
    requires ParseTime(start) == Some(h * 60) && ParseTime(end) == Some(k * 60)
    ensures IsOverlapping(OnNovemberFifth("4", start, end), ExistingEvents()[0]) <==> h < 14 && 12 < k
  {
    FirstExistingReads();
    OverlapOfHours(OnNovemberFifth("4", start, end), h, k, ExistingEvents()[0], 12, 14);
  }

  /** A candidate on 2024-11-05 against existing event "2", 15:00-17:00. */
  lemma AgainstSecondExisting(start: string, end: string, h: nat, k: nat)
    requires ParseTime(start) == Some(h * 60) && ParseTime(end) == Some(k * 60)
    ensures IsOverlapping(OnNovemberFifth("4", start, end), ExistingEvents()[1]) <==> h < 17 && 15 < k
  {
    SecondExistingReads();
    OverlapOfHours(OnNovemberFifth("4", start, end), h, k, ExistingEvents()[1], 15, 17);
  }

  /** A candidate on 2024-11-05 against existing event "3", 18:00-19:00. */
  lemma AgainstThirdExisting(start: string, end: string, h: nat, k: nat)
    requires ParseTime(start) == Some(h * 60) && ParseTime(end) == Some(k * 60)
    ensures IsOverlapping(OnNovemberFifth("4", start, end), ExistingEvents()[2]) <==> h < 19 && 18 < k
  {
    ThirdExistingReads();
    OverlapOfHours(OnNovemberFifth("4", start, end), h, k, ExistingEvents()[2], 18, 19);
  }

  lemma MorningCandidateAgainstExisting()
    ensures IsOverlapping(OnNovemberFifth("4", "10:00", "16:00"), ExistingEvents()[0])
    ensures IsOverlapping(OnNovemberFifth("4", "10:00", "16:00"), ExistingEvents()[1])
    ensures !IsOverlapping(OnNovemberFifth("4", "10:00", "16:00"), ExistingEvents()[2])
  {
    ReadsClock("10:00", 10, 0);
    ReadsClock("16:00", 16, 0);
    AgainstFirstExisting("10:00", "16:00", 10, 16);
    AgainstSecondExisting("10:00", "16:00", 10, 16);
    AgainstThirdExisting("10:00", "16:00", 10, 16);
  }

  lemma EveningCandidateAgainstExisting()
    ensures !IsOverlapping(OnNovemberFifth("4", "20:00", "22:00"), ExistingEvents()[0])
    ensures !IsOverlapping(OnNovemberFifth("4", "20:00", "22:00"), ExistingEvents()[1])
    ensures !IsOverlapping(OnNovemberFifth("4", "20:00", "22:00"), ExistingEvents()[2])
  {
    ReadsClock("20:00", 20, 0);
    ReadsClock("22:00", 22, 0);
    AgainstFirstExisting("20:00", "22:00", 20, 22);
    AgainstSecondExisting("20:00", "22:00", 20, 22);
    AgainstThirdExisting("20:00", "22:00", 20, 22);
  }

  /** An overlapping head is kept in front of the filtered tail. */
  lemma KeepsHead(c: Event, head: Event, tail: seq<Event>)
    requires IsOverlapping(c, head)
    ensures FindOverlapping(c, [head] + tail) == [head] + FindOverlapping(c, tail)
  {
    assert ([head] + tail)[0] == head && ([head] + tail)[1..] == tail;
  }

  /** A head that does not overlap is dropped. */
  lemma DropsHead(c: Event, head: Event, tail: seq<Event>)
    requires !IsOverlapping(c, head)
    ensures FindOverlapping(c, [head] + tail) == FindOverlapping(c, tail)
  {
    assert ([head] + tail)[0] == head && ([head] + tail)[1..] == tail;
  }

  /** Three- and two-element sequences built one element at a time. */
  lemma ListOfThree<T>(a: T, b: T, x: T)
    ensures [a, b, x] == [a] + ([b] + ([x] + []))
    ensures [a] + ([b] + []) == [a, b]
  {
  }

  /** Filtering three events of which only the first two overlap. */
  lemma KeepsFirstTwoOfThree(c: Event, a: Event, b: Event, x: Event)
    requires IsOverlapping(c, a) && IsOverlapping(c, b) && !IsOverlapping(c, x)
    ensures FindOverlapping(c, [a, b, x]) == [a, b]
  {
    ListOfThree(a, b, x);
    KeepsHead(c, a, [b] + ([x] + []));
    KeepsHead(c, b, [x] + []);
    DropsHead(c, x, []);
    assert FindOverlapping(c, []) == [];
  }

  /** Filtering three events none of which overlaps. */
  lemma KeepsNoneOfThree(c: Event, a: Event, b: Event, x: Event)
    requires !IsOverlapping(c, a) && !IsOverlapping(c, b) && !IsOverlapping(c, x)
    ensures FindOverlapping(c, [a, b, x]) == []
  {
    ListOfThree(a, b, x);
    DropsHead(c, a, [b] + ([x] + []));
    DropsHead(c, b, [x] + []);
    DropsHead(c, x, []);
    assert FindOverlapping(c, []) == [];
  }

  /** 10:00-16:00 meets the first two existing events, in their order. */
  lemma FindOverlappingExample()
    ensures FindOverlapping(OnNovemberFifth("4", "10:00", "16:00"), ExistingEvents())
         == [ExistingEvents()[0], ExistingEvents()[1]]
  {
    var c, xs := OnNovemberFifth("4", "10:00", "16:00"), ExistingEvents();
    MorningCandidateAgainstExisting();
    KeepsFirstTwoOfThree(c, xs[0], xs[1], xs[2]);
  }

  /** 20:00-22:00 meets none of them. */
  lemma FindOverlappingNoneExample()
    ensures FindOverlapping(OnNovemberFifth("4", "20:00", "22:00"), ExistingEvents()) == []
  {
    var c, xs := OnNovemberFifth("4", "20:00", "22:00"), ExistingEvents();
    EveningCandidateAgainstExisting();
    KeepsNoneOfThree(c, xs[0], xs[1], xs[2]);
  }
}
