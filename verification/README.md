# Calendar and event-overlap helpers, modelled in Dafny

This project models the small pure helpers of a calendar/scheduling web
application and proves properties about them. There are three groups:

- **Date helpers** (`utils/dateUtils`): `getDaysInMonth` follows the
  Gregorian leap-year rule and falls back to 31 for a month outside 1..12.
  `getWeekDates` gives the Sunday-to-Saturday week containing a date.
  `isDateInRange` is an inclusive range test.
- **Event overlap** (`utils/eventOverlap`): `parseDateTime` reads a
  `YYYY-MM-DD` date and an `HH:MM` time into an instant, or into an
  `Invalid` sentinel when the text is malformed. `convertEventToDateRange`
  turns an event into a start/end pair. `isOverlapping` is the pairwise
  interval test. `findOverlappingEvents` filters the existing events against a
  candidate and keeps their order.
- **Time validation** (`utils/timeValidation`): `getTimeErrorMessage` gives a
  pair of fixed messages when the start time is not strictly before the end
  time. If either field is empty, it gives no error.

The implementation files are not part of this model. Its behaviour is taken
from the unit tests under `src/__tests__/unit/`, which state it as concrete
input/output pairs, either in `expect` calls or, for `isDateInRange`, only in
the test titles. Each pair for the modelled functions is proved below as a
lemma about the model, together with the general properties the pairs are
instances of. The functions whose tests are empty are listed under
"Left out".

Modules:

- `Wrappers` (`wrappers.dfy`): the `Option` result of a read that can fail.
- `Decimal` (`decimal.dfy`): fixed-width digit strings. It reads and
  zero-pads numbers, proves both round trips, and proves that text order
  agrees with numeric order.
- `Calendar` (`calendar.dfy`): dates, leap years and month lengths. Day
  numbers start at 0 for 0001-01-01 (proleptic Gregorian, a Monday). The
  module proves that day numbering is a bijection between valid dates and the
  integers, and defines the next-day step and the weekday.
- `DateText` (`date_text.dfy`): the `YYYY-MM-DD` and `HH:MM` formats, with
  parse/render round trips.
- `DateUtils` (`date_utils.dfy`): the week computation, given as a
  reference function and as a day-by-day loop, plus the range test and the
  tests' expectations.
- `EventOverlap` (`event_overlap.dfy`) and `EventOverlapExamples`
  (`event_overlap_examples.dfy`): instants, events, ranges, the overlap test
  and the filter.
- `TimeValidation` (`time_validation.dfy`): the error-message pair.

Behaviours the tests leave open, fixed here as assumptions:

- Touching endpoints do not overlap, because the test is strict:
  `a.start < b.end && b.start < a.end`.
- An `Invalid` endpoint overlaps nothing. In JavaScript every comparison with
  an invalid date is false, which gives the same result.
- Date reading is strict. The day must exist in its month, the hour must be
  0..23 and the minute 0..59.
- A non-empty time that does not read as `HH:MM` gives no validation error,
  again because comparisons with an invalid moment are false.
- `Event` keeps `id` although the overlap test never reads it. The filter
  returns whole events and the tests compare results event by event, so the
  id keeps two events with the same date and times distinct.
- The overlap test agrees with "the two events share a minute" only when each
  event starts before it ends. `EventOverlap.InvertedRangeStillOverlaps`
  shows an inverted range that shares no minute and still passes the test.
  The source treats `startTime < endTime` as the caller's concern, so the
  model keeps the plain test.

## Model

| member | source | states |
|---|---|---|
| Calendar.DaysInMonth | src/__tests__/unit/easy.dateUtils.spec.ts:14-35 | The result is between 28 and 31. It is 29 exactly for February of a leap year and 28 exactly for February of a common year. It is 30 exactly for April, June, September and November. Every other month, including out-of-range ones such as 0 and 20, has 31. |
| Calendar.MonthsFillYear | src/__tests__/unit/easy.dateUtils.spec.ts:14-35 | The twelve month lengths add up to the year's length: 366 in a leap year, 365 otherwise. |
| Calendar.MonthTableStep | src/__tests__/unit/easy.dateUtils.spec.ts:14-35 | Consecutive month starts within a year differ by exactly the month's length. |
| Calendar.YearStep | src/__tests__/unit/easy.dateUtils.spec.ts:78-100 | Each year adds exactly its length (365 or 366) to the day count, so weeks cross year ends correctly. |
| Calendar.NextDay | src/__tests__/unit/easy.dateUtils.spec.ts:65-76 | The next day of a valid date is a valid date whose day number is one greater. It rolls over month and year ends. |
| Calendar.FromDayNumber | src/__tests__/unit/easy.dateUtils.spec.ts:37-125 | Every integer is the day number of a valid date, which this function returns. |
| Calendar.FromDayNumberOfDayNumber | src/__tests__/unit/easy.dateUtils.spec.ts:37-125 | Converting a valid date to its day number and back gives the same date. |
| Calendar.DayNumberInjective | src/__tests__/unit/easy.dateUtils.spec.ts:37-125 | Two valid dates have the same day number if and only if they are the same date. |
| Calendar.DayNumberOrder | src/__tests__/unit/easy.dateUtils.spec.ts:155-170 | One day number is smaller than another exactly when its date comes first in year, month, day order. |
| DateUtils.WeekStart | src/__tests__/unit/easy.dateUtils.spec.ts:38-76 | The week start is a Sunday, on or at most six days before the given day. |
| DateUtils.WeekDates | src/__tests__/unit/easy.dateUtils.spec.ts:37-125 | The week has exactly 7 valid dates. The first is the Sunday on or before the input, each later date is the day after the one before it, and the input date is in the list. |
| DateUtils.GetWeekDates | src/__tests__/unit/easy.dateUtils.spec.ts:37-125 | Stepping one day at a time from the Sunday builds the same 7 dates as the reference `WeekDates`. |
| DateUtils.SameWeek | src/__tests__/unit/easy.dateUtils.spec.ts:78-100 | Any date inside a week produces the identical week. This covers a week spanning December 31 to January 1. |
| DateUtils.IsDateInRange | src/__tests__/unit/easy.dateUtils.spec.ts:155-170 | A date is in range if and only if it is neither before the start nor after the end in calendar order. When the start is after the end, no date is in range. |
| DateUtils.IsDateInRangeExamples | src/__tests__/unit/easy.dateUtils.spec.ts:155-168 | For the range 2024-07-01 to 2024-07-31: July 10, July 1 and July 31 are in it; June 30 and August 1 are not; with the ends swapped, July 10 is not in it. |
| DateUtils.RangeIncludesEnds | src/__tests__/unit/easy.dateUtils.spec.ts:159-163 | Both the start and the end of a range that is not inverted belong to it. |
| DateUtils.MonthLengthExamples | src/__tests__/unit/easy.dateUtils.spec.ts:15-34 | January 2024 has 31 days and April 30. February 2028 has 29 and February 2026 has 28. Months 0 and 20 give 31. |
| DateUtils.WeekOfWednesday | src/__tests__/unit/easy.dateUtils.spec.ts:38-50 | 2024-11-06 gives 2024-11-03 to 2024-11-09. |
| DateUtils.WeekOfSunday | src/__tests__/unit/easy.dateUtils.spec.ts:52-63 | 2024-11-03 is the first day of its own week. |
| DateUtils.WeekOfSaturday | src/__tests__/unit/easy.dateUtils.spec.ts:65-76 | 2024-11-02 gives 2024-10-27 to 2024-10-31, then 2024-11-01 and 2024-11-02. |
| DateUtils.WeekAcrossNewYear | src/__tests__/unit/easy.dateUtils.spec.ts:78-100 | 2024-12-29 and 2025-01-02 both give 2024-12-29 to 2025-01-04. |
| DateUtils.WeekOfLeapDay | src/__tests__/unit/easy.dateUtils.spec.ts:102-112 | 2024-02-29 gives 2024-02-25 to 2024-03-02, with February 29 included. |
| DateUtils.WeekOfMonthEnd | src/__tests__/unit/easy.dateUtils.spec.ts:114-124 | 2024-11-30 gives 2024-11-24 to 2024-11-30. |
| DateUtils.NextDayExamples | src/__tests__/unit/easy.dateUtils.spec.ts:102-112 | October 31 steps to November 1, February 29 of a leap year to March 1, February 28 of a common year to March 1, and December 31 to January 1. |
| DateText.ParseDate | src/__tests__/unit/easy.eventOverlap.spec.ts:15-18 | Text that reads as a date has the `YYYY-MM-DD` shape and names a valid date with a four-digit year. Any other separator reads as nothing. |
| DateText.ParseTime | src/__tests__/unit/easy.eventOverlap.spec.ts:20-23 | Text that reads as a time has the `HH:MM` shape and gives a minute of the day in 0..1439. |
| DateText.EmptyTextReadsAsNothing | src/__tests__/unit/easy.eventOverlap.spec.ts:25-33 | An empty date or an empty time reads as nothing. |
| DateText.ParseRenderDate | src/__tests__/unit/easy.eventOverlap.spec.ts:10-13 | Every valid date with a four-digit year reads back from its `YYYY-MM-DD` rendering. |
| DateText.RenderParseDate | src/__tests__/unit/easy.eventOverlap.spec.ts:15-18 | Every text that reads as a date is exactly that date's rendering, so no other text is accepted. |
| DateText.ParseRenderTime | src/__tests__/unit/easy.eventOverlap.spec.ts:10-13 | Every minute of the day reads back from its `HH:MM` rendering. |
| DateText.RenderParseTime | src/__tests__/unit/easy.eventOverlap.spec.ts:20-23 | Every text that reads as a time is exactly that time's rendering. |
| DateText.TimeTextOrder | src/__tests__/unit/easy.timeValidation.spec.ts:3-39 | For well-formed `HH:MM` texts, string order and clock order agree. |
| EventOverlap.ParseDateTime | src/__tests__/unit/easy.eventOverlap.spec.ts:9-34 | The instant is valid exactly when both the date and the time read. It then splits back, by division and remainder by 1440, into the date's day number and the time's minute. Otherwise it is `Invalid`. |
| EventOverlap.ParseDateTimeOfRendered | src/__tests__/unit/easy.eventOverlap.spec.ts:10-13 | A rendered date and time read back as the instant of that date at that minute. |
| EventOverlap.ParseDateTimeInjective | src/__tests__/unit/easy.eventOverlap.spec.ts:9-34 | Two successfully read date-time texts give the same instant exactly when both texts are the same. |
| EventOverlap.InstantOrder | src/__tests__/unit/easy.eventOverlap.spec.ts:92-147 | Instants are ordered by date first, then by time of day. |
| EventOverlap.ToDateRange | src/__tests__/unit/easy.eventOverlap.spec.ts:36-90 | A malformed date makes both ends `Invalid`. Each end is valid exactly when the date and that end's time read. A valid start lies on the event's date at its start time, and a valid end on that date at its end time. |
| EventOverlap.ToDateRangeOfRendered | src/__tests__/unit/easy.eventOverlap.spec.ts:37-53 | An event written from a date and two times spans exactly the instants of that date at those two times. |
| EventOverlap.Overlaps | src/__tests__/unit/easy.eventOverlap.spec.ts:92-148 | An overlap needs four valid ends. Sharing a minute implies an overlap. For ranges that start before they end, an overlap is exactly sharing a minute. |
| EventOverlap.InvertedRangeStillOverlaps | src/__tests__/unit/easy.eventOverlap.spec.ts:92-148 | An inverted range covers no minute, yet the strict test still reports it as overlapping a range around it. |
| EventOverlap.IsOverlapping | src/__tests__/unit/easy.eventOverlap.spec.ts:92-148 | Overlapping events both have valid dates. For events that start before they end, they overlap exactly when they share a minute. |
| EventOverlap.OverlapSymmetric | src/__tests__/unit/easy.eventOverlap.spec.ts:92-148 | The overlap test does not depend on argument order. |
| EventOverlap.DifferentDatesNeverOverlap | src/__tests__/unit/easy.eventOverlap.spec.ts:92-148 | Events on two different valid dates never overlap. |
| EventOverlap.SameDateOverlap | src/__tests__/unit/easy.eventOverlap.spec.ts:93-147 | On one date, two events overlap exactly when each starts strictly before the other ends. Touching endpoints do not overlap. |
| EventOverlap.FindOverlapping | src/__tests__/unit/easy.eventOverlap.spec.ts:150-223 | The result keeps the input order of the existing events. Every event in it overlaps the candidate. Every overlapping event appears as often as it does in the input. |
| EventOverlap.FindOverlappingEmpty | src/__tests__/unit/easy.eventOverlap.spec.ts:207-222 | If no existing event overlaps the candidate, the result is empty. |
| EventOverlapExamples.ParseDateTimeExamples | src/__tests__/unit/easy.eventOverlap.spec.ts:9-34 | `2024-07-01` with `14:30` is 14:30 on July 1 2024. `2024/07/01`, the minute `14:70`, an empty date and an empty time each give `Invalid`. |
| EventOverlapExamples.ToDateRangeExample | src/__tests__/unit/easy.eventOverlap.spec.ts:37-53 | The event on 2024-11-05 from 14:30 to 15:30 becomes those two instants. |
| EventOverlapExamples.ToDateRangeBadDateExample | src/__tests__/unit/easy.eventOverlap.spec.ts:55-71 | The date `2024~11~05` makes both ends `Invalid`. |
| EventOverlapExamples.ToDateRangeBadMinuteExample | src/__tests__/unit/easy.eventOverlap.spec.ts:73-89 | The times `14:70` and `15:70` make both ends `Invalid`. |
| EventOverlapExamples.IsOverlappingExamples | src/__tests__/unit/easy.eventOverlap.spec.ts:92-147 | 12:00-18:00 overlaps 14:00-16:00. 12:00-14:00 does not overlap 15:00-16:00. |
| EventOverlapExamples.FindOverlappingExample | src/__tests__/unit/easy.eventOverlap.spec.ts:190-205 | Against 12-14, 15-17 and 18-19, the candidate 10:00-16:00 yields the first two, in order. |
| EventOverlapExamples.FindOverlappingNoneExample | src/__tests__/unit/easy.eventOverlap.spec.ts:207-222 | The candidate 20:00-22:00 yields nothing. |
| TimeValidation.GetTimeErrorMessage | src/__tests__/unit/easy.timeValidation.spec.ts:3-39 | The two messages are always set together, never one alone, and always with the fixed texts. Either field empty gives no error. Errors are set exactly when both times read and the start is not strictly before the end. |
| TimeValidation.ErrorIffNotTextuallyBefore | src/__tests__/unit/easy.timeValidation.spec.ts:3-39 | For well-formed times, the error is set exactly when the start text does not sort before the end text. |
| TimeValidation.NotBeforeExamples | src/__tests__/unit/easy.timeValidation.spec.ts:4-14 | `20:00`/`10:00` and `20:00`/`20:00` both set both messages. |
| TimeValidation.NoErrorExamples | src/__tests__/unit/easy.timeValidation.spec.ts:16-38 | `10:00`/`20:00`, an empty start, an empty end, and both empty all give no error. |
| Decimal.ValueOfPad | src/__tests__/unit/easy.eventOverlap.spec.ts:10-13 | Zero-padding a number and reading it back gives the number. |
| Decimal.PadOfValue | src/__tests__/unit/easy.eventOverlap.spec.ts:15-18 | Reading a digit string and zero-padding it to its own width gives the string back. |
| Decimal.LexLessIsValueLess | src/__tests__/unit/easy.timeValidation.spec.ts:3-39 | For equal-width digit strings, text order is numeric order. |

## Left out

- `formatWeek` and `formatMonth`: their tests have empty bodies, and their
  output is Korean locale text.
- `getEventsForDay` and `formatDate`: their tests have empty bodies with no
  asserted values. `DateText.RenderDate` exists only as the inverse of the
  date reader and is not claimed to be `formatDate`.
- `fillZero`: its tests have empty bodies, and the fractional case depends on
  how JavaScript renders floating-point numbers. `Decimal.Pad` covers whole
  numbers only.
- `getWeeksAtMonth`: it is imported but never tested.
- JavaScript `Date` objects, time zones and `toISOString()`: days and minutes
  are plain integers. Instants are local minutes since 0001-01-01 00:00, with
  no time zone and no seconds.
- The event fields title, description, location, category, repeat and
  notificationTime: the overlap logic never reads them.
- Calendar.DaysInMonth: months outside 1..12 give 31, as the tests for 0 and
  20 require. An implementation built on JavaScript's month rollover would
  give other values for some out-of-range months, such as 14. The
  implementation is not part of this model.
- DateText.ParseDate: only four-digit years 0000..9999 are read.
  JavaScript's extended six-digit year form is not modelled.
- DateUtils.WeekDates: it takes a calendar date rather than a timestamp, so
  the time of day and the time zone of a JavaScript date play no part.
- The Jest harness (`describe`, `it`, `expect`).
