/** Points in time and the durations the polls app compares them with.

    The app works with timezone-aware datetimes. Two aware datetimes compare
    as absolute instants whatever their zones, so an instant is modelled as a
    whole number of microseconds since a fixed epoch (a datetime's finest
    resolution), and a duration (a timedelta) as a whole number of
    microseconds. */
module Instants {

  /** Microseconds since the epoch; negative values lie before it. */
  type Instant = int

  /** Durations in microseconds, as `datetime.timedelta` counts them. */
  const MICROSECOND: int := 1
  const SECOND: int := 1_000_000 * MICROSECOND
  const MINUTE: int := 60 * SECOND
  const HOUR: int := 60 * MINUTE
  const DAY: int := 24 * HOUR
}
