/** The retry delay of the background worker, in the 64-bit arithmetic of Go's time.Duration. */
module Backoff {

  const NANOS_PER_MINUTE: int := 60_000_000_000
  const TWO_TO_THE_63: int := 0x8000_0000_0000_0000
  const TWO_TO_THE_64: int := 0x1_0000_0000_0000_0000

  function Pow2(k: nat): (p: nat)
    ensures p >= 1
  {
    if k == 0 then 1 else 2 * Pow2(k - 1)
  }

  /** Two's-complement reduction to int64. */
  function Wrap64(x: int): int {
    (x + TWO_TO_THE_63) % TWO_TO_THE_64 - TWO_TO_THE_63
  }

  lemma WrapKeeps(x: int)
    requires -TWO_TO_THE_63 <= x < TWO_TO_THE_63
    ensures Wrap64(x) == x
  {
  }

  /** `1 << k` on an int64: all bits are shifted out once k reaches 64. */
  function ShiftOne(k: nat): int {
    if k >= 64 then 0 else Wrap64(Pow2(k))
  }

  /** `time.Duration(1<<(attempts-1)) * time.Minute`. */
  function Delay(attempts: nat): int
    requires attempts >= 1
  {
    Wrap64(ShiftOne(attempts - 1) * NANOS_PER_MINUTE)
  }

  /** The delays a job goes through before its last attempt, added up. */
  function TotalDelay(attempts: nat): int {
    if attempts <= 1 then 0 else TotalDelay(attempts - 1) + Delay(attempts - 1)
  }

  lemma {:induction false} Pow2Monotone(j: nat, k: nat)
    requires j <= k
    ensures Pow2(j) <= Pow2(k)
    decreases k
  {
    if j < k {
      Pow2Monotone(j, k - 1);
    }
  }

  lemma Pow2Of27()
    ensures Pow2(27) == 134_217_728
  {
    assert Pow2(9) == 512 by {
      assert Pow2(3) == 8;
      assert Pow2(6) == 64;
    }
    assert Pow2(18) == 262_144 by {
      assert Pow2(12) == 4096;
      assert Pow2(15) == 32_768;
    }
    assert Pow2(21) == 2_097_152;
    assert Pow2(24) == 16_777_216;
  }

  /** Up to the 28th attempt the product is the exact doubling delay. */
  lemma DelayIsExact(attempts: nat)
    requires 1 <= attempts <= 28
    ensures Delay(attempts) == Pow2(attempts - 1) * NANOS_PER_MINUTE
    ensures Delay(attempts) > 0
  {
    Pow2Monotone(attempts - 1, 27);
    Pow2Of27();
    WrapKeeps(Pow2(attempts - 1));
    WrapKeeps(Pow2(attempts - 1) * NANOS_PER_MINUTE);
  }

  /** The 29th delay no longer fits an int64 and comes out negative. */
  lemma DelayOverflows()
    ensures Delay(29) < 0
    ensures Delay(29) != Pow2(28) * NANOS_PER_MINUTE
  {
    Pow2Of27();
    assert Pow2(28) == 268_435_456;
  }

  /** No delay used by a job with this attempt limit overflows exactly when the limit is at most 29. */
  lemma DelaysExactIff(maxAttempts: nat)
    ensures (forall n: nat :: 1 <= n < maxAttempts ==> Delay(n) == Pow2(n - 1) * NANOS_PER_MINUTE) <==> maxAttempts <= 29
    ensures (forall n: nat :: 1 <= n < maxAttempts ==> Delay(n) > 0) <==> maxAttempts <= 29
  {
    if maxAttempts <= 29 {
      forall n: nat | 1 <= n < maxAttempts
        ensures Delay(n) == Pow2(n - 1) * NANOS_PER_MINUTE && Delay(n) > 0
      {
        DelayIsExact(n);
      }
    } else {
      DelayOverflows();
      assert 1 <= 29 < maxAttempts;
    }
  }

  /** The delays before attempt n add up to 2^(n-1) - 1 minutes. */
  lemma {:induction false} TotalDelayIs(n: nat)
    requires 1 <= n <= 29
    ensures TotalDelay(n) == (Pow2(n - 1) - 1) * NANOS_PER_MINUTE
  {
    if n > 1 {
      TotalDelayIs(n - 1);
      DelayIsExact(n - 1);
    }
  }
}
