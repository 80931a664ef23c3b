/**
 * Instants and clock times. An instant is a whole number of seconds since the
 * epoch, read in a single fixed time zone without daylight-saving shifts, so a
 * calendar day is exactly 86400 seconds and starts at a multiple of 86400.
 */
module Clock {

  const SecondsPerDay: int := 86400

  type Instant = int

  /** A clock reading within one day, in seconds after midnight. */
  type TimeOfDay = t: int | 0 <= t < 86400

  /**
   * `DateTime::modify($phrase)`: moves an instant by a relative or absolute
   * phrase such as '+1 day' or 'next monday'. The phrase grammar belongs to
   * the date library, so the model takes it as a parameter.
   */
  type Modifier = (string, Instant) -> Instant

  /** The calendar day an instant falls on (the `Y-m-d` part). */
  function Day(t: Instant): int {
    t / SecondsPerDay
  }

  /** The clock part of an instant (the `H:i:s` part). */
  function Tod(t: Instant): TimeOfDay {
    t % SecondsPerDay
  }

  /**
   * The instant on `t`'s calendar day whose clock reads `clock`: what
   * `modify('H:i:s')` does to a date, and what `modify('Y-m-d')` does to a
   * stored bound when it is re-anchored onto `t`'s date.
   */
  function AtClock(t: Instant, clock: TimeOfDay): (r: Instant)
    ensures Day(r) == Day(t) && Tod(r) == clock
    ensures r - t == clock - Tod(t)
  {
    Day(t) * SecondsPerDay + clock
  }

  /** `modify('next day 00:00:00')`: midnight at the start of the following day. */
  function NextMidnight(t: Instant): (r: Instant)
    ensures Day(r) == Day(t) + 1 && Tod(r) == 0
    ensures t < r <= t + SecondsPerDay
  {
    (Day(t) + 1) * SecondsPerDay
  }
}
