/**
 * UTC instants as integer milliseconds since the epoch, following the time-value
 * model of ECMAScript (ECMA-262, section 21.4.1 "Time Values and Time Range"):
 * every day is exactly 86 400 000 ms, Day(t) = floor(t / msPerDay) and
 * WeekDay(t) = (Day(t) + 4) modulo 7, where 0 is Sunday.  Dafny's `/` and `%`
 * agree with floor division and a non-negative remainder for a positive divisor.
 * Rebuilding "now's date at hh:mm:ss" as StartOfDay(now) plus a time of day
 * matches Date.UTC only for years outside 0..99, which Date.UTC reads as
 * 1900 + year.
 */
module UtcTime {

  const MsPerDay: int := 86_400_000

  /** Number of the UTC day holding instant `t`. */
  function Day(t: int): int {
    t / MsPerDay
  }

  /** Milliseconds elapsed since UTC midnight of `t`'s day. */
  function TimeWithinDay(t: int): (r: int)
    ensures 0 <= r < MsPerDay
  {
    t % MsPerDay
  }

  /** UTC day of the week of `t`, 0 = Sunday ... 6 = Saturday (Date.prototype.getUTCDay). */
  function WeekDay(t: int): (r: int)
    ensures 0 <= r < 7
  {
    (Day(t) + 4) % 7
  }

  /**
   * UTC midnight of `t`'s day: what Date.UTC(year, month, date) gives for `t`'s
   * own calendar date, when its year is not in 0..99.
   */
  function StartOfDay(t: int): int {
    Day(t) * MsPerDay
  }

  /** MakeTime(hours, minutes, seconds, 0) of ECMA-262: the offset Date.UTC adds to a day's midnight. */
  function TimeOfDayMs(hours: int, minutes: int, seconds: int): int {
    ((hours * 60 + minutes) * 60 + seconds) * 1000
  }

  /** An instant lies in its own day, at its time within that day. */
  lemma StartOfDayBounds(t: int)
    ensures StartOfDay(t) <= t < StartOfDay(t) + MsPerDay
    ensures t == StartOfDay(t) + TimeWithinDay(t)
  {
  }

  /** The instant `tod` ms into day `k` lies on day `k`, at time `tod`. */
  lemma DayOfInstant(k: int, tod: int)
    requires 0 <= tod < MsPerDay
    ensures Day(k * MsPerDay + tod) == k
    ensures TimeWithinDay(k * MsPerDay + tod) == tod
    ensures WeekDay(k * MsPerDay + tod) == (k + 4) % 7
  {
  }

  /** Later instants never lie on earlier days. */
  lemma DayMonotone(a: int, b: int)
    requires a <= b
    ensures Day(a) <= Day(b)
  {
  }
}
