/**
 Points in time and the arithmetic the repository does on them.

 An instant counts microseconds, the resolution of the timestamp columns.
 */
module Instants {
  type Instant = int

  const SECOND: int := 1_000_000
  const MINUTE: int := 60 * SECOND

  /** `int64(delta.Seconds())`: whole seconds, truncated toward zero. */
  function WholeSeconds(delta: int): int {
    if delta >= 0 then delta / SECOND else -((-delta) / SECOND)
  }

  /**
   How far a timeline shift by `delta` really moves a window: the sub-second
   part of `delta` is lost, whatever its sign.
   */
  function ShiftOf(delta: int): (d: int)
    ensures delta >= 0 ==> d == delta - delta % SECOND && 0 <= d <= delta
    ensures delta <= 0 ==> d == delta + (-delta) % SECOND && delta <= d <= 0
    ensures -SECOND < delta - d < SECOND
    ensures delta % SECOND == 0 <==> d == delta
    ensures d % SECOND == 0
  {
    WholeSeconds(delta) * SECOND
  }

  lemma ShiftMonotone(a: int, b: int)
    requires a <= b
    ensures ShiftOf(a) <= ShiftOf(b)
    ensures 0 <= b < SECOND ==> ShiftOf(b) == 0
  {
  }

  predicate OnSecond(t: Instant) {
    t % SECOND == 0
  }

  lemma OnSecondPlus(t: Instant, delta: int)
    requires OnSecond(t)
    ensures OnSecond(t + ShiftOf(delta))
  {
  }
}
