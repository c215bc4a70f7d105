/** The retry window of a spool row (internal/spool/backoff.go), with Go's
    wrapping int64 arithmetic. */
module Backoff {
  import opened Clock

  const TWO_63: int := 0x8000_0000_0000_0000
  const TWO_64: int := 0x1_0000_0000_0000_0000

  /** time.Duration is an int64 count of nanoseconds. */
  type Duration = d: int | -TWO_63 <= d < TWO_63

  /** The int64 that a product wraps around to. */
  function Wrap(x: int): Duration {
    (x + TWO_63) % TWO_64 - TWO_63
  }

  function Pow2(n: nat): (p: int)
    ensures p >= 1
  {
    if n == 0 then 1 else 2 * Pow2(n - 1)
  }

  /** The documented window: min(2^attempts * base, max), over the integers. */
  function Window(attempts: int, base: int, max: int): int {
    Min(Pow2(Max(attempts, 0)) * base, max)
  }

  /** When the wrapping loop computes the documented window. */
  predicate Exact(attempts: int, base: int, max: int) {
    base > 0 || attempts <= 0 || max <= Pow2(attempts) * base
  }

  method Compute(attempts: int, base: Duration, max: Duration) returns (w: Duration)
    ensures w == Window(attempts, base, max) <==> Exact(attempts, base, max)
    ensures w <= max
    // where doubling does not overflow, a base that is not positive jumps to the cap
    ensures attempts > 0 && -TWO_63 / 2 <= base <= 0 ==> w == max
  {
    var n := if attempts < 0 then 0 else attempts;
    DoubledIsProduct(n, base);
    w := base;
    for i := 0 to n
      invariant base > 0 ==> w == Doubled(i, base)
      invariant i == 0 ==> w == base
      invariant i > 0 ==> 0 < w < max && (base > 0 || base < -TWO_63 / 2)
    {
      WrapOfDouble(w);
      w := Wrap(2 * w);
      if w >= max || w <= 0 {
        DoubledGrows(i + 1, n, base);
        return max;
      }
    }
    if w > max {
      return max;
    }
  }

  /** `base` doubled n times, the value the loop carries. */
  function Doubled(n: nat, base: int): (d: int)
    ensures base > 0 ==> d >= base
    ensures base <= 0 ==> d <= base
  {
    if n == 0 then base else 2 * Doubled(n - 1, base)
  }

  lemma {:induction false} DoubledIsProduct(n: nat, base: int)
    ensures Doubled(n, base) == Pow2(n) * base
  {
    if n > 0 {
      DoubledIsProduct(n - 1, base);
    }
  }

  lemma {:induction false} DoubledGrows(i: nat, n: nat, base: int)
    requires i <= n
    ensures base > 0 ==> Doubled(i, base) <= Doubled(n, base)
    decreases n
  {
    if i < n {
      DoubledGrows(i, n - 1, base);
    }
  }

  /** Doubling a positive int64 is exact, or wraps to a negative value; doubling
      another one is exact unless it is too low. */
  lemma WrapOfDouble(w: Duration)
    ensures 0 < w < TWO_63 / 2 ==> Wrap(2 * w) == 2 * w
    ensures w >= TWO_63 / 2 ==> Wrap(2 * w) < 0
    ensures -TWO_63 / 2 <= w <= 0 ==> Wrap(2 * w) == 2 * w
  {
  }

  /** More failures never shorten the window, and it is never above the cap. */
  lemma WindowMonotone(a: int, b: int, base: int, max: int)
    requires base > 0
    requires a <= b
    ensures Window(a, base, max) <= Window(b, base, max) <= max
  {
    DoubledIsProduct(Max(a, 0), base);
    DoubledIsProduct(Max(b, 0), base);
    DoubledGrows(Max(a, 0), Max(b, 0), base);
  }

  /** The documented window of a zero base is zero, which is not what the loop
      returns. */
  lemma ZeroBaseJumpsToCap(attempts: int, max: Duration)
    requires attempts > 0 && max > 0
    ensures Window(attempts, 0, max) == 0
    ensures !Exact(attempts, 0, max)
  {
  }
}
