/** Retry delays of internal/smtp/sender.go: base * 2^attempts in 64-bit nanoseconds. */
module Backoff {

  const INT64_MAX: int := 0x7fff_ffff_ffff_ffff
  const INT64_MIN: int := -0x8000_0000_0000_0000

  function Pow2(k: nat): (p: nat)
    ensures p >= 1
  {
    if k == 0 then 1 else 2 * Pow2(k - 1)
  }

  /** Two's complement wrap-around of a 64-bit signed integer. */
  function Wrap64(x: int): int {
    var m := x % 0x1_0000_0000_0000_0000;
    if m > INT64_MAX then m - 0x1_0000_0000_0000_0000 else m
  }

  /** `time.Duration(math.Pow(2, k))`; a float out of range converts to the least
      integer, as it does on amd64. */
  function PowDuration(k: nat): int {
    if Pow2(k) <= INT64_MAX then Pow2(k) else INT64_MIN
  }

  /** The delay the sender computes after failure number `attempts`. */
  function Delay(base: int, attempts: nat): int {
    Wrap64(base * PowDuration(attempts))
  }

  lemma {:induction false} Pow2Monotone(j: nat, k: nat)
    requires j <= k
    ensures Pow2(j) <= Pow2(k)
    decreases k
  {
    if j < k {
      Pow2Monotone(j, k - 1);
    }
  }

  lemma WrapRange(x: int)
    ensures INT64_MIN <= Wrap64(x) <= INT64_MAX
    ensures INT64_MIN <= x <= INT64_MAX ==> Wrap64(x) == x
  {
  }

  lemma MulAtLeast(a: int, b: int)
    requires 1 <= a && 1 <= b
    ensures a <= a * b && b <= a * b
  {
    assert (a - 1) * b >= 0 && a * (b - 1) >= 0;
  }

  /** The delay is the intended one exactly when that fits 64 bits. */
  lemma DelayExactIff(base: int, attempts: nat)
    requires 0 < base
    ensures Delay(base, attempts) == base * Pow2(attempts) <==> base * Pow2(attempts) <= INT64_MAX
  {
    MulAtLeast(base, Pow2(attempts));
    WrapRange(base * PowDuration(attempts));
  }

  /** One bound for the last retry rules out overflow for all of them. */
  lemma NoDelayOverflows(base: int, maxRetries: nat, attempts: nat)
    requires 0 < base && attempts < maxRetries
    requires base * Pow2(maxRetries - 1) <= INT64_MAX
    ensures base <= Delay(base, attempts) == base * Pow2(attempts) <= base * Pow2(maxRetries - 1)
  {
    Pow2Monotone(attempts, maxRetries - 1);
    Pow2Monotone(0, attempts);
    assert base * Pow2(attempts) <= base * Pow2(maxRetries - 1) by {
      assert base * (Pow2(maxRetries - 1) - Pow2(attempts)) >= 0;
    }
    MulAtLeast(base, Pow2(attempts));
    DelayExactIff(base, attempts);
  }

  function TotalDelay(base: int, n: nat): int {
    if n == 0 then 0 else TotalDelay(base, n - 1) + Delay(base, n - 1)
  }

  /** Successive delays double ... */
  lemma DelaysDouble(base: int, maxRetries: nat, k: nat)
    requires 0 < base && k + 1 < maxRetries
    requires base * Pow2(maxRetries - 1) <= INT64_MAX
    ensures Delay(base, k + 1) == 2 * Delay(base, k)
  {
    NoDelayOverflows(base, maxRetries, k);
    NoDelayOverflows(base, maxRetries, k + 1);
    MulAssoc(base, Pow2(k));
  }

  /** ... and the first n of them add up to base * (2^n - 1). */
  lemma {:induction false} DelaysAddUp(base: int, maxRetries: nat, n: nat)
    requires 0 < base && n <= maxRetries
    requires maxRetries > 0 ==> base * Pow2(maxRetries - 1) <= INT64_MAX
    ensures TotalDelay(base, n) == base * (Pow2(n) - 1)
  {
    if n > 0 {
      DelaysAddUp(base, maxRetries, n - 1);
      NoDelayOverflows(base, maxRetries, n - 1);
      MulAssoc(base, Pow2(n - 1));
    }
  }

  lemma MulAssoc(a: int, b: int)
    ensures a * (2 * b) == 2 * (a * b)
    ensures a * (b - 1) == a * b - a && a * (2 * b - 1) == 2 * (a * b) - a
  {
  }
}
