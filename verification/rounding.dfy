/**
 JavaScript's `Math.round` on exact reals: the nearest integer, with halves
 rounded up (towards positive infinity), so `Math.round(-2.5) == -2`.
 */
module Rounding {

  /** `Math.round(x)`: the unique integer q with q - 1/2 <= x < q + 1/2. */
  function Round(x: real): (q: int)
    ensures q as real - 0.5 <= x < q as real + 0.5
  {
    (x + 0.5).Floor
  }

  /** Any integer within the half-open window around x is the rounded value. */
  lemma RoundUnique(x: real, q: int)
    requires q as real - 0.5 <= x < q as real + 0.5
    ensures Round(x) == q
  {
  }

  /** Halves go up: Round(n + 1/2) == n + 1. */
  lemma RoundHalfUp(n: int)
    ensures Round(n as real + 0.5) == n + 1
  {
  }
}
