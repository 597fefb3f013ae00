/**
 * Instants and durations. A `LocalDateTime` has no time zone, so an instant is
 * modelled as a whole number of seconds on one local clock; the wall clock is
 * never read here: every operation that needs "now" takes it as a parameter.
 */
module Time {

  type Instant = int

  const SECONDS_PER_DAY: int := 86400

  /** `LocalDateTime.plusDays(days)`. */
  function PlusDays(t: Instant, days: int): Instant
  {
    t + days * SECONDS_PER_DAY
  }

  /** Java's `long` division `a / b` by a positive divisor, which truncates toward zero. */
  function TruncDiv(a: int, b: int): (q: int)
    requires b > 0
    ensures a >= 0 ==> q * b <= a < q * b + b
    ensures a < 0 ==> a <= q * b < a + b
  {
    if a >= 0 then
      DivFloor(a, b);
      a / b
    else
      DivFloor(-a, b);
      -((-a) / b)
  }

  lemma DivFloor(m: int, b: int)
    requires m >= 0 && b > 0
    ensures (m / b) * b <= m < (m / b) * b + b
  {
  }

  /** `Duration.between(from, to).toDays()`: whole days, truncated toward zero. */
  function DaysBetween(from: Instant, to: Instant): (d: int)
    ensures from <= to ==> 0 <= d && d * SECONDS_PER_DAY <= to - from < (d + 1) * SECONDS_PER_DAY
    ensures to < from ==> d <= 0 && (d - 1) * SECONDS_PER_DAY < to - from <= d * SECONDS_PER_DAY
  {
    TruncDiv(to - from, SECONDS_PER_DAY)
  }
}
