/**
  The backoff calculator of internal/core/retry.go: the delay before a failed
  job is retried is base^attempts seconds, capped at 300 seconds. The retry
  manager is always built with base 2.0, so the model is exact over integers:
  for attempts >= 0, 2^attempts is exact in floating point (or overflows to
  +Inf, which the cap turns into 300); for attempts < 0, 2^attempts lies in
  (0, 1) and the conversion to a whole Duration truncates it to 0.
*/
module Retry {

  const DefaultBase: int := 2
  const MaxDelaySeconds: int := 300

  /** base raised to the n-th power. */
  function Pow(base: int, n: nat): int {
    if n == 0 then 1 else base * Pow(base, n - 1)
  }

  lemma {:induction false} PowOfTwoPositive(n: nat)
    ensures Pow(2, n) >= 1
  {
    if n > 0 {
      PowOfTwoPositive(n - 1);
    }
  }

  lemma {:induction false} PowOfTwoMonotone(m: nat, n: nat)
    requires m <= n
    ensures Pow(2, m) <= Pow(2, n)
    decreases n
  {
    if m < n {
      PowOfTwoMonotone(m, n - 1);
      PowOfTwoPositive(n - 1);
    }
  }

  /** CalculateBackoff with the default base: whole seconds to wait before the next attempt. */
  function CalculateBackoff(attempts: int): (seconds: int)
    ensures 0 <= seconds <= MaxDelaySeconds
    ensures attempts >= 0 ==> seconds >= 1
    ensures attempts < 0 ==> seconds == 0
  {
    if attempts < 0 then 0
    else
      PowOfTwoPositive(attempts);
      var exact := Pow(DefaultBase, attempts);
      if exact > MaxDelaySeconds then MaxDelaySeconds else exact
  }

  /** Below the cap the delay is exactly 2^attempts seconds. */
  lemma BackoffIsPowerBelowCap(attempts: nat)
    requires Pow(2, attempts) <= MaxDelaySeconds
    ensures CalculateBackoff(attempts) == Pow(2, attempts)
  {
  }

  /** The cap is reached at attempt 9 (2^9 = 512 > 300) and kept from then on. */
  lemma {:induction false} BackoffSaturates(attempts: int)
    requires attempts >= 9
    ensures CalculateBackoff(attempts) == MaxDelaySeconds
  {
    assert Pow(2, 9) == 512 by {
      assert Pow(2, 4) == 16;
      assert Pow(2, 8) == 256 by { assert Pow(2, 8) == 2 * 2 * 2 * 2 * Pow(2, 4); }
    }
    PowOfTwoMonotone(9, attempts);
  }

  /** More attempts never mean a shorter wait. */
  lemma {:induction false} BackoffMonotone(m: int, n: int)
    requires m <= n
    ensures CalculateBackoff(m) <= CalculateBackoff(n)
  {
    if m >= 0 {
      PowOfTwoMonotone(m, n);
    }
  }

  /** The documented examples: 1s for attempt 0, 2s, 4s, 8s for attempts 1 to 3, 300s for attempt 20. */
  lemma BackoffExamples()
    ensures CalculateBackoff(0) == 1
    ensures CalculateBackoff(1) == 2 && CalculateBackoff(2) == 4 && CalculateBackoff(3) == 8
    ensures CalculateBackoff(20) == MaxDelaySeconds
  {
    assert Pow(2, 3) == 8;
    BackoffSaturates(20);
  }
}
