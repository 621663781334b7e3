/** Instants and the retry back-off shared by binds and joins. */
module Clocks {
  import opened Primitives

  /** Nanoseconds on the monotonic clock. */
  type Instant = nat

  const SECOND: nat := 1_000_000_000

  /** u32::saturating_add(1). */
  function Saturated(attempts: nat): nat { if attempts < U32_MAX then attempts + 1 else U32_MAX }

  /**
   How long to wait after `attempts` earlier failures, in steps of a u32 shift; from 32 on the shift
   has no value and the ceiling applies.
   */
  function RetryDelay(attempts: nat): (d: nat)
    ensures SECOND <= d <= 30 * SECOND
  {
    if attempts < 32 && Pow2(attempts) < 30 then Pow2Positive(attempts); Pow2(attempts) * SECOND else 30 * SECOND
  }

  /** Doubling from one second, capped at thirty: the shift's limit never shows. */
  lemma RetryDelayDoubles(attempts: nat)
    ensures RetryDelay(attempts) == (if Pow2(attempts) < 30 then Pow2(attempts) else 30) * SECOND
  {
    if attempts >= 5 {
      assert Pow2(5) == 32;
      Pow2Grows(5, attempts);
    }
  }
}
