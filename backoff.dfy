/**
 * Retry delays. The current downloader sleeps `min(2^(attempt+1) + jitter, max_delay)`
 * seconds after a failed segment request; the older one sleeps `3^(attempt+1) + jitter`
 * with no cap. The jitter is drawn uniformly from [1, 3]; here it is a parameter.
 */
module Backoff {
  import opened Common

  const JitterLow: real := 1.0
  const JitterHigh: real := 3.0
  /** Default `max_delay` of the current segment download. */
  const DefaultMaxDelay: real := 30.0

  predicate ValidJitter(j: real) {
    JitterLow <= j <= JitterHigh
  }

  function Pow(b: nat, e: nat): nat {
    if e == 0 then 1 else b * Pow(b, e - 1)
  }

  /** The current revision's delay before retrying after failed attempt `attempt`. */
  function CurrentDelay(attempt: nat, jitter: real, maxDelay: real): (r: real)
    ensures r <= maxDelay
  {
    Min(Pow(2, attempt + 1) as real + jitter, maxDelay)
  }

  /** The older revision's delay before retrying after failed attempt `attempt`. */
  function LegacyDelay(attempt: nat, jitter: real): real {
    Pow(3, attempt + 1) as real + jitter
  }

  /** For a base `b >= 2`, any larger exponent gives at least `b` times the power. */
  lemma {:induction false} PowGrows(b: nat, a: nat, c: nat)
    requires b >= 2 && a < c
    ensures Pow(b, c) >= b * Pow(b, a)
  {
    if c == a + 1 {
      assert Pow(b, c) == b * Pow(b, a);
    } else {
      PowGrows(b, a, c - 1);
      var x := Pow(b, c - 1);
      assert Pow(b, c) == b * x;
      assert (b - 1) * x >= 0;
      assert b * x == x + (b - 1) * x;
    }
  }

  lemma {:induction false} PowPositive(b: nat, e: nat)
    requires b >= 1
    ensures Pow(b, e) >= 1
  {
    if e > 0 {
      PowPositive(b, e - 1);
      assert Pow(b, e) == b * Pow(b, e - 1);
    }
  }

  /** Every delay lies between `min(3, max_delay)` and `max_delay`: [3, 30] by default. */
  lemma CurrentDelayBounds(attempt: nat, jitter: real, maxDelay: real)
    requires ValidJitter(jitter)
    ensures Min(3.0, maxDelay) <= CurrentDelay(attempt, jitter, maxDelay) <= maxDelay
  {
    PowPositive(2, attempt);
    assert Pow(2, attempt + 1) == 2 * Pow(2, attempt);
  }

  /**
   * A later attempt never waits less than an earlier one, whatever the two jitters:
   * the power at least doubles (gaining at least 2) while jitters differ by at most 2.
   */
  lemma CurrentDelayMonotone(a: nat, b: nat, ja: real, jb: real, maxDelay: real)
    requires a < b && ValidJitter(ja) && ValidJitter(jb)
    ensures CurrentDelay(a, ja, maxDelay) <= CurrentDelay(b, jb, maxDelay)
  {
    PowGrows(2, a + 1, b + 1);
    PowPositive(2, a);
    assert Pow(2, a + 1) == 2 * Pow(2, a);
  }

  /** Equal jitters show that the current delay is not strictly increasing: 2+3 == 4+1. */
  lemma CurrentDelayNotStrict()
    ensures CurrentDelay(0, 3.0, DefaultMaxDelay) == CurrentDelay(1, 1.0, DefaultMaxDelay) == 5.0
  {
    assert Pow(2, 1) == 2 && Pow(2, 2) == 4;
  }

  /** The older delay is at least 4 seconds and is never capped. */
  lemma LegacyDelayLowerBound(attempt: nat, jitter: real)
    requires ValidJitter(jitter)
    ensures LegacyDelay(attempt, jitter) >= 4.0
    ensures LegacyDelay(attempt, jitter) >= Pow(3, attempt + 1) as real + 1.0
  {
    PowPositive(3, attempt);
    assert Pow(3, attempt + 1) == 3 * Pow(3, attempt);
  }

  /** The older delay strictly increases with the attempt, whatever the jitters. */
  lemma LegacyDelayStrict(a: nat, b: nat, ja: real, jb: real)
    requires a < b && ValidJitter(ja) && ValidJitter(jb)
    ensures LegacyDelay(a, ja) < LegacyDelay(b, jb)
  {
    PowGrows(3, a + 1, b + 1);
    PowPositive(3, a);
    assert Pow(3, a + 1) == 3 * Pow(3, a);
  }
}
