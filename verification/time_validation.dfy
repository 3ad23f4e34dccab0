/**
  Validation of a proposed start and end time of day. Validation waits until
  both fields are filled in; then a start that is not strictly before the end
  sets both fixed messages at once.
 */
module TimeValidation {
  import opened Wrappers
  import opened Decimal
  import opened DateText

  const StartTimeMessage := "시작 시간은 종료 시간보다 빨라야 합니다."
  const EndTimeMessage := "종료 시간은 시작 시간보다 늦어야 합니다."

  datatype TimeErrorMessage = TimeErrorMessage(startTimeError: Option<string>, endTimeError: Option<string>)

  const NoErrors := TimeErrorMessage(None, None)

  /**
    The error pair for `start` and `end`. Empty input is "not yet entered"
    and gives no error. A non-empty time that does not read as `HH:MM`
    compares false against anything, so it gives no error either.
   */
  function GetTimeErrorMessage(start: string, end: string): (r: TimeErrorMessage)
    ensures r.startTimeError.Some? <==> r.endTimeError.Some?
    ensures r.startTimeError.Some? ==>
      r.startTimeError.value == StartTimeMessage && r.endTimeError.value == EndTimeMessage
    ensures start == "" || end == "" ==> r == NoErrors
    ensures r.startTimeError.Some? <==>
      ParseTime(start).Some? && ParseTime(end).Some? && ParseTime(end).value <= ParseTime(start).value
  {
    EmptyTextReadsAsNothing();
    if start == "" || end == "" then
      NoErrors
    else
      match (ParseTime(start), ParseTime(end))
      case (Some(s), Some(e)) =>
        if s >= e then TimeErrorMessage(Some(StartTimeMessage), Some(EndTimeMessage)) else NoErrors
      case _ => NoErrors
  }

  /**
    For well-formed times, the error is set exactly when the start text does
    not sort before the end text: comparing zero-padded `HH:MM` strings is
    comparing the times.
   */
  lemma ErrorIffNotTextuallyBefore(start: string, end: string)
    requires ParseTime(start).Some? && ParseTime(end).Some?
    ensures GetTimeErrorMessage(start, end).startTimeError.Some? <==> !LexLess(start, end)
  {
    TimeTextOrder(start, end);
  }

  /** Start later than end, and start equal to end, both set both messages. */
  lemma NotBeforeExamples()
    ensures GetTimeErrorMessage("20:00", "10:00") == TimeErrorMessage(Some(StartTimeMessage), Some(EndTimeMessage))
    ensures GetTimeErrorMessage("20:00", "20:00") == TimeErrorMessage(Some(StartTimeMessage), Some(EndTimeMessage))
  {
    ReadsClock("20:00", 20, 0);
    ReadsClock("10:00", 10, 0);
  }

  /** Start before end, or any empty field, gives no error. */
  lemma NoErrorExamples()
    ensures GetTimeErrorMessage("10:00", "20:00") == NoErrors
    ensures GetTimeErrorMessage("", "20:00") == NoErrors
    ensures GetTimeErrorMessage("10:00", "") == NoErrors
    ensures GetTimeErrorMessage("", "") == NoErrors
  {
    ReadsClock("20:00", 20, 0);
    ReadsClock("10:00", 10, 0);
  }
}
