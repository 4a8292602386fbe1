/**
 * The retroactive ("adjustment") punch form: the check of the chosen time
 * against the current month and yesterday, and the submit handler that
 * guards the request with it.
 */
module Adjustment {
  import opened Wrappers
  import opened Calendar

  /** Message codes of the two ways a chosen time can be out of range. */
  const ErrBeforeMonthStart: string := "ERR_BEFORE_MONTH_START"
  const ErrAfterYesterday: string := "ERR_AFTER_YESTERDAY"

  /** The untranslated notice shown when no time has been chosen. */
  const NoDatetimeNotice: string := "請選擇補打卡日期時間"

  /** The punch labels the backend expects for clocking in and out. */
  const ClockIn: string := "上班"
  const ClockOut: string := "下班"

  /** The verdict of `validateAdjustTime`; a rejection carries the code it notifies. */
  datatype Verdict = Accepted | Rejected(code: string)

  /**
   * `validateAdjustTime` on the `Date` parsed from the form. `None` is an
   * Invalid Date: every comparison with it is false, so neither check fires.
   */
  function ValidateAdjustTime(selected: Option<CivilTime>, now: CivilTime): (v: Verdict)
    requires Valid(now)
    ensures selected.Some? ==>
              (v == Accepted <==>
                 AtMost(MonthStart(now), selected.value) && AtMost(selected.value, Yesterday(now)))
    ensures selected.Some? && Before(selected.value, MonthStart(now)) ==> v == Rejected(ErrBeforeMonthStart)
    ensures selected.Some? && !Before(selected.value, MonthStart(now)) ==>
              (Before(Yesterday(now), selected.value) ==> v == Rejected(ErrAfterYesterday))
    ensures selected.None? ==> v == Accepted
  {
    match selected
    case None => Accepted
    case Some(s) =>
      if Before(s, MonthStart(now)) then Rejected(ErrBeforeMonthStart)
      else if Before(Yesterday(now), s) then Rejected(ErrAfterYesterday)
      else Accepted
  }

  /**
   * What the check accepts, in calendar terms: a day earlier in the current
   * month, and on the day before today no later than the present clock time.
   */
  lemma AcceptedIsEarlierThisMonth(s: CivilTime, now: CivilTime)
    requires Valid(now) && Valid(s)
    ensures ValidateAdjustTime(Some(s), now) == Accepted <==>
              && SameMonth(s, now)
              && (s.day < now.day - 1 || (s.day == now.day - 1 && s.msOfDay <= now.msOfDay))
  {
    if now.day == 1 {
      assert Before(Yesterday(now), MonthStart(now));
    }
  }

  /** On the first day of a month no time is accepted. */
  lemma FirstOfMonthAcceptsNothing(s: CivilTime, now: CivilTime)
    requires Valid(now) && now.day == 1
    ensures ValidateAdjustTime(Some(s), now).Rejected?
  {
    var y := Yesterday(now);
    assert Before(y, MonthStart(now));
  }

  /** The label sent for the form button's `data-type`. */
  function PunchLabel(buttonType: string): (punch: string)
    ensures punch == ClockIn || punch == ClockOut
    ensures punch == ClockIn <==> buttonType == "in"
  {
    if buttonType == "in" then ClockIn else ClockOut
  }

  /** A notice shown to the user: literal text, or a message code passed through `t`. */
  datatype Notice = Literal(text: string) | Translated(code: string)

  /**
   * What one click on a submit button leads to. `Thrown` is the RangeError
   * of `toISOString` on an Invalid Date inside `callApiAdjustPunch`, raised
   * before the request is built, so nothing is sent and nothing is shown.
   */
  datatype Submission = Refused(notice: Notice) | Thrown | Sent(punch: string, datetime: string)

  /**
   * The submit handler. `datetime` is the input's value and `selected` the
   * `Date` it parses to; an empty value is refused before any validation,
   * and an Invalid Date passes the validation but throws when the request
   * is built.
   */
  function Submit(datetime: string, buttonType: string, selected: Option<CivilTime>, now: CivilTime): (r: Submission)
    requires Valid(now)
    ensures datetime == "" ==> r == Refused(Literal(NoDatetimeNotice))
    ensures r.Sent? <==> datetime != "" && selected.Some? && ValidateAdjustTime(selected, now) == Accepted
    ensures r.Sent? ==> r.punch == PunchLabel(buttonType) && r.datetime == datetime
    ensures datetime != "" && ValidateAdjustTime(selected, now).Rejected? ==>
              r == Refused(Translated(ValidateAdjustTime(selected, now).code))
    ensures r == Thrown <==> datetime != "" && selected.None?
  {
    if datetime == "" then Refused(Literal(NoDatetimeNotice))
    else match ValidateAdjustTime(selected, now)
      case Rejected(code) => Refused(Translated(code))
      case Accepted => if selected.None? then Thrown else Sent(PunchLabel(buttonType), datetime)
  }

  /**
   * A time before the month start is reported as such, also when it is
   * after yesterday as well (possible on the first of a month).
   */
  lemma MonthStartReportedFirst(datetime: string, buttonType: string, s: CivilTime, now: CivilTime)
    requires Valid(now) && datetime != ""
    requires Before(s, MonthStart(now))
    ensures Submit(datetime, buttonType, Some(s), now) == Refused(Translated(ErrBeforeMonthStart))
  {
  }
}
