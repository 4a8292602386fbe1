/**
 * Local civil time as a JavaScript `Date` presents it through `getFullYear`,
 * `getMonth`, `getDate` and the clock: a proleptic Gregorian date and the
 * milliseconds since local midnight. Away from daylight-saving changes two
 * dates compare as their instants do, which is the lexicographic order of
 * these four fields.
 */
module Calendar {
  const MsPerDay: int := 86_400_000

  datatype CivilTime = CivilTime(year: int, monthIndex: int, day: int, msOfDay: int)

  predicate IsLeapYear(year: int) {
    (year % 4 == 0 && year % 100 != 0) || year % 400 == 0
  }

  /** The number of days in a month; `monthIndex` counts from 0, as `getMonth` does. */
  function DaysInMonth(year: int, monthIndex: int): (n: int)
    requires 0 <= monthIndex < 12
    ensures 28 <= n <= 31
    ensures monthIndex == 1 ==> (n == 29 <==> IsLeapYear(year))
  {
    if monthIndex == 1 then (if IsLeapYear(year) then 29 else 28)
    else if monthIndex in {3, 5, 8, 10} then 30
    else 31
  }

  /** A time that some `Date` can stand for. */
  predicate Valid(t: CivilTime) {
    && 0 <= t.monthIndex < 12
    && 1 <= t.day <= DaysInMonth(t.year, t.monthIndex)
    && 0 <= t.msOfDay < MsPerDay
  }

  /** `a < b` on the instants the two times stand for. */
  predicate Before(a: CivilTime, b: CivilTime) {
    || a.year < b.year
    || (a.year == b.year && a.monthIndex < b.monthIndex)
    || (a.year == b.year && a.monthIndex == b.monthIndex && a.day < b.day)
    || (a.year == b.year && a.monthIndex == b.monthIndex && a.day == b.day && a.msOfDay < b.msOfDay)
  }

  /** `a <= b` on instants. */
  predicate AtMost(a: CivilTime, b: CivilTime) {
    !Before(b, a)
  }

  predicate SameMonth(a: CivilTime, b: CivilTime) {
    a.year == b.year && a.monthIndex == b.monthIndex
  }

  /**
   * `new Date(now.getFullYear(), now.getMonth(), 1)`: midnight at the start
   * of the first day of `now`'s month, the earliest time of that month.
   */
  function MonthStart(now: CivilTime): (s: CivilTime)
    requires Valid(now)
    ensures Valid(s) && SameMonth(s, now) && AtMost(s, now)
    ensures forall t :: Valid(t) && SameMonth(t, now) ==> AtMost(s, t)
  {
    CivilTime(now.year, now.monthIndex, 1, 0)
  }

  /**
   * A `Date` for `now` after `setDate(getDate() - 1)`: the same clock time
   * one calendar day earlier. On the first of a month day 0 rolls back to
   * the last day of the previous month, and in January to 31 December of
   * the previous year.
   */
  function Yesterday(now: CivilTime): (y: CivilTime)
    requires Valid(now)
    ensures Valid(y) && Before(y, now) && y.msOfDay == now.msOfDay
    ensures now.day > 1 <==> SameMonth(y, now)
  {
    if now.day > 1 then CivilTime(now.year, now.monthIndex, now.day - 1, now.msOfDay)
    else if now.monthIndex > 0 then
      CivilTime(now.year, now.monthIndex - 1, DaysInMonth(now.year, now.monthIndex - 1), now.msOfDay)
    else CivilTime(now.year - 1, 11, 31, now.msOfDay)
  }

  /** The same clock time one calendar day later; the inverse of `Yesterday`. */
  function Tomorrow(t: CivilTime): (n: CivilTime)
    requires Valid(t)
    ensures Valid(n) && Before(t, n) && n.msOfDay == t.msOfDay
  {
    if t.day < DaysInMonth(t.year, t.monthIndex) then CivilTime(t.year, t.monthIndex, t.day + 1, t.msOfDay)
    else if t.monthIndex < 11 then CivilTime(t.year, t.monthIndex + 1, 1, t.msOfDay)
    else CivilTime(t.year + 1, 0, 1, t.msOfDay)
  }

  lemma TomorrowOfYesterday(now: CivilTime)
    requires Valid(now)
    ensures Tomorrow(Yesterday(now)) == now
  {
  }

  lemma YesterdayOfTomorrow(t: CivilTime)
    requires Valid(t)
    ensures Yesterday(Tomorrow(t)) == t
  {
  }

  /**
   * No valid time with the same clock time lies strictly between
   * `Yesterday(now)` and `now`: it is the previous calendar day.
   */
  lemma YesterdayIsPreviousDay(now: CivilTime, t: CivilTime)
    requires Valid(now) && Valid(t) && t.msOfDay == now.msOfDay
    requires Before(Yesterday(now), t)
    ensures !Before(t, now)
  {
  }
}
