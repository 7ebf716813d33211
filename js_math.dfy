/**
 * The one piece of JavaScript arithmetic the core relies on: `Math.round`.
 *
 * Numbers are modelled as exact reals. `Math.round(x)` is defined for finite
 * doubles as the integer closest to `x`, ties going towards +infinity, i.e.
 * floor(x + 1/2). (The browser evaluates on doubles, so a result that sits
 * exactly on a .5 tie in the exact model may round the other way there.)
 */
module JsMath {

  /** `Math.round`: the nearest integer, halves rounded up. */
  function Round(x: real): (r: int)
    ensures x - 0.5 < r as real <= x + 0.5
  {
    (x + 0.5).Floor
  }

  /** Round is the unique integer within half a unit (upper end included). */
  lemma RoundUnique(x: real, k: int)
    requires x - 0.5 < k as real <= x + 0.5
    ensures Round(x) == k
  {
  }

  /** Rounding never reverses the order of its arguments. */
  lemma RoundMonotone(x: real, y: real)
    requires x <= y
    ensures Round(x) <= Round(y)
  {
  }

  /** An integer rounds to itself. */
  lemma RoundOfInteger(k: int)
    ensures Round(k as real) == k
  {
    RoundUnique(k as real, k);
  }

  /** Rounding gives 0 exactly on the interval [-1/2, 1/2). */
  lemma RoundIsZeroIff(x: real)
    ensures Round(x) == 0 <==> -0.5 <= x < 0.5
  {
    if -0.5 <= x < 0.5 {
      RoundUnique(x, 0);
    }
  }

  /** A non-negative argument rounds to a non-negative integer. */
  lemma RoundNonNegative(x: real)
    requires x >= 0.0
    ensures Round(x) >= 0
  {
    RoundMonotone(0.0, x);
    RoundOfInteger(0);
  }
}
