/**
 * Wall-clock time as the hooks see it. The source works with JavaScript `Date`
 * values and the date-fns helpers `isSameDay`, `startOfTomorrow` and
 * `differenceInSeconds`; here a point in time is a local calendar day number
 * together with the second within that day, every day being 86400 seconds long.
 */
module Clock {

  const DAY_SECONDS: int := 86400

  newtype SecondOfDay = s: int | 0 <= s < DAY_SECONDS

  /** A local instant: the calendar day and the second since that day's midnight. */
  datatype Instant = Instant(day: int, second: SecondOfDay)

  /** Seconds elapsed since the midnight that starts day 0. */
  function Timeline(t: Instant): int {
    t.day * DAY_SECONDS + t.second as int
  }

  /** `isSameDay`: both instants fall on the same local calendar day. */
  predicate SameDay(a: Instant, b: Instant) {
    a.day == b.day
  }

  /** The instant `k` seconds after `t`. */
  function Advance(t: Instant, k: nat): (r: Instant)
    ensures Timeline(r) == Timeline(t) + k
    ensures r.day >= t.day
  {
    var total := t.second as int + k;
    Instant(t.day + total / DAY_SECONDS, (total % DAY_SECONDS) as SecondOfDay)
  }

  /**
   * `differenceInSeconds(startOfTomorrow(), now)`: the number of whole seconds
   * from `now` to the next local midnight. It is the least number of seconds
   * after which the calendar day changes, and the change lands exactly on
   * midnight of the following day.
   */
  function SecondsUntilMidnight(now: Instant): (r: int)
    ensures 1 <= r <= DAY_SECONDS
    ensures Advance(now, r) == Instant(now.day + 1, 0)
    ensures forall k: nat :: k < r ==> SameDay(Advance(now, k), now)
  {
    DAY_SECONDS - now.second as int
  }
}
