/** Wall-clock readings, and what each storage format keeps of them. */
module Clock {

  /** Nanoseconds since the Unix epoch, the resolution of Go's clock. */
  type Time = int

  const MICROSECOND: int := 1_000
  const SECOND: int := 1_000_000_000
  const MINUTE: int := 60_000_000_000

  /** RFC 3339 text without fractions keeps whole seconds. */
  function ToSeconds(t: Time): (s: Time)
    ensures s <= t < s + SECOND && s % SECOND == 0
  {
    t - t % SECOND
  }

  /** A TIMESTAMPTZ column keeps whole microseconds. */
  function ToMicros(t: Time): (s: Time)
    ensures s <= t < s + MICROSECOND && s % MICROSECOND == 0
  {
    t - t % MICROSECOND
  }
}
