/**
 * Wall-clock time as the bot uses it. A `datetime` is modelled as a whole
 * number of seconds since 0001-01-01T00:00:00 (`datetime.min`); the largest
 * representable second is 9999-12-31T23:59:59. Adding a `timedelta` that
 * leaves this range raises `OverflowError` in Python; `Shift` returns `None`
 * in that case.
 */
module Time {
  import opened Wrappers

  const MaxStamp: int := 315537897599

  type Stamp = t: int | 0 <= t <= MaxStamp

  const Minute: nat := 60
  const Hour: nat := 3600
  const Day: nat := 86400
  const Week: nat := 7 * Day

  /** `t + timedelta(seconds=secs)`, or `None` where Python raises `OverflowError`. */
  function Shift(t: Stamp, secs: int): Option<Stamp>
  {
    if 0 <= t + secs <= MaxStamp then Some(t + secs) else None
  }
}
