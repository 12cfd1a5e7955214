/** Instants as `datetime` keeps them: whole seconds, and the microseconds within the second. */
module Clock {
  const SECOND := 1_000_000
  const MINUTE := 60 * SECOND

  type Micros = x: int | 0 <= x < SECOND

  datatype Instant = Instant(second: int, micro: Micros)

  /** `replace(microsecond=0)` */
  function CutToSecond(t: Instant): Instant {
    Instant(t.second, 0)
  }

  /** `later - earlier`, in microseconds. */
  function Elapsed(later: Instant, earlier: Instant): int {
    (later.second - earlier.second) * SECOND + (later.micro - earlier.micro)
  }

  /** `int((later - earlier).total_seconds())` of a non-negative difference. */
  function WholeSeconds(later: Instant, earlier: Instant): (n: int)
    ensures Elapsed(later, earlier) - SECOND < n * SECOND <= Elapsed(later, earlier)
  {
    later.second - earlier.second - if later.micro < earlier.micro then 1 else 0
  }
}
