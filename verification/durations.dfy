/** Retention durations, modelled on `std::time::Duration` (whole seconds plus nanoseconds). */
module Durations {
  import opened Sizes

  /** The sub-second part of a duration. */
  type Nanos = n: nat | n < 1_000_000_000

  /** A non-negative span of time. */
  datatype Duration = Duration(secs: U64, nanos: Nanos)

  /** `Duration::from_secs`. */
  function FromSecs(secs: U64): Duration {
    Duration(secs, 0)
  }

  /** Seconds in one day, the retention of the default policy. */
  const SECS_PER_DAY: U64 := 60 * 60 * 24
}
