/**
 Real vectors and the inner product of `Lattice.dotProduct`.

 The source keeps every vector as a JavaScript array of doubles; here a vector
 is a sequence of exact reals, so the algebra below holds without rounding.
 */
module Vectors {

  type Vec = seq<real>

  /** The sum x[0]*y[0] + ... + x[n-1]*y[n-1], accumulated left to right. */
  function PartialDot(x: Vec, y: Vec, n: nat): real
    requires n <= |x| && n <= |y|
  {
    if n == 0 then 0.0 else PartialDot(x, y, n - 1) + x[n - 1] * y[n - 1]
  }

  /** One more term of the sum. */
  lemma PartialDotStep(x: Vec, y: Vec, n: nat)
    requires n < |x| && n < |y|
    ensures PartialDot(x, y, n + 1) == PartialDot(x, y, n) + x[n] * y[n]
  {
  }

  /** The inner product over the length of the first argument, as `dotProduct` loops over `x.length`. */
  function Dot(x: Vec, y: Vec): real
    requires |x| <= |y|
  {
    PartialDot(x, y, |x|)
  }

  /** `dotProduct(x, y)`: the accumulating loop. */
  method DotProduct(x: Vec, y: Vec) returns (sum: real)
    requires |x| <= |y|
    ensures sum == Dot(x, y)
  {
    sum := 0.0;
    for i := 0 to |x|
      invariant sum == PartialDot(x, y, i)
    {
      sum := sum + x[i] * y[i];
    }
  }

  /** Column k of a matrix given by its rows. */
  function Column(rows: seq<Vec>, k: nat): (c: Vec)
    requires forall t | 0 <= t < |rows| :: k < |rows[t]|
    ensures |c| == |rows|
    ensures forall t | 0 <= t < |rows| :: c[t] == rows[t][k]
  {
    seq(|rows|, t requires 0 <= t < |rows| => rows[t][k])
  }

  /** u - c*v, component-wise over the length of u. */
  function SubScaled(u: Vec, c: real, v: Vec): (w: Vec)
    requires |u| <= |v|
    ensures |w| == |u|
    ensures forall k | 0 <= k < |u| :: w[k] == u[k] - c * v[k]
  {
    seq(|u|, k requires 0 <= k < |u| => u[k] - c * v[k])
  }

  /** x with c*y subtracted on positions 0..j only. */
  function LowerPrefix(x: Vec, c: real, y: Vec, j: nat): (w: Vec)
    requires |x| <= |y|
    ensures |w| == |x|
    ensures forall t | 0 <= t <= j && t < |x| :: w[t] == x[t] - c * y[t]
    ensures forall t | j < t < |x| :: w[t] == x[t]
  {
    seq(|x|, t requires 0 <= t < |x| => if t <= j then x[t] - c * y[t] else x[t])
  }

  lemma {:induction false} PartialDotSymmetric(x: Vec, y: Vec, n: nat)
    requires n <= |x| && n <= |y|
    ensures PartialDot(x, y, n) == PartialDot(y, x, n)
  {
    if n > 0 {
      PartialDotSymmetric(x, y, n - 1);
    }
  }

  /** The inner product is symmetric on vectors of equal length. */
  lemma DotSymmetric(x: Vec, y: Vec)
    requires |x| == |y|
    ensures Dot(x, y) == Dot(y, x)
  {
    PartialDotSymmetric(x, y, |x|);
  }

  lemma {:induction false} PartialDotSelf(x: Vec, n: nat)
    requires n <= |x|
    ensures PartialDot(x, x, n) >= 0.0
  {
    if n > 0 {
      PartialDotSelf(x, n - 1);
    }
  }

  /** A squared norm is never negative. */
  lemma DotSelfNonNegative(x: Vec)
    ensures Dot(x, x) >= 0.0
  {
    PartialDotSelf(x, |x|);
  }

  /** A vector with an entry of at least 1 has squared norm at least 1. */
  lemma {:induction false} PartialDotSelfAtLeastOne(x: Vec, j: nat, n: nat)
    requires j < n <= |x| && x[j] >= 1.0
    ensures PartialDot(x, x, n) >= 1.0
  {
    PartialDotSelf(x, n - 1);
    if j < n - 1 {
      PartialDotSelfAtLeastOne(x, j, n - 1);
    }
  }

  /** PartialDot only looks at the first n entries of each argument. */
  lemma {:induction false} PartialDotAgree(x: Vec, y: Vec, x': Vec, y': Vec, n: nat)
    requires n <= |x| && n <= |y| && n <= |x'| && n <= |y'|
    requires forall k | 0 <= k < n :: x[k] == x'[k] && y[k] == y'[k]
    ensures PartialDot(x, y, n) == PartialDot(x', y', n)
  {
    if n > 0 {
      PartialDotAgree(x, y, x', y', n - 1);
    }
  }

  /** Linearity in the first argument: <u - c*v, w> = <u, w> - c*<v, w>. */
  lemma {:induction false} PartialDotSubScaled(u: Vec, c: real, v: Vec, w: Vec, n: nat)
    requires |u| <= |v| && n <= |u| && n <= |w|
    ensures PartialDot(SubScaled(u, c, v), w, n) == PartialDot(u, w, n) - c * PartialDot(v, w, n)
  {
    if n > 0 {
      PartialDotSubScaled(u, c, v, w, n - 1);
      var s := SubScaled(u, c, v);
      calc {
        s[n - 1] * w[n - 1];
        (u[n - 1] - c * v[n - 1]) * w[n - 1];
        u[n - 1] * w[n - 1] - c * (v[n - 1] * w[n - 1]);
      }
    }
  }

  /** Against a vector that is zero except at position j, only the j-th term survives. */
  lemma {:induction false} PartialDotSingle(x: Vec, y: Vec, j: nat, n: nat)
    requires n <= |x| && n <= |y|
    requires forall t | 0 <= t < n && t != j :: y[t] == 0.0
    ensures PartialDot(x, y, n) == if j < n then x[j] * y[j] else 0.0
  {
    if n > 0 {
      PartialDotSingle(x, y, j, n - 1);
    }
  }

  /** Equal factors give equal products; stated apart so that callers need no nonlinear reasoning. */
  lemma ScaleEqual(c: real, a: real, b: real)
    requires a == b
    ensures c * a == c * b
  {
  }

  /** Over n <= j+1 positions every entry is lowered: the sum drops by c times the sum of y with z. */
  lemma {:induction false} PartialDotLowerBelow(x: Vec, c: real, y: Vec, z: Vec, j: nat, n: nat)
    requires |x| <= |y| && n <= |x| && n <= |z| && n <= j + 1
    ensures PartialDot(LowerPrefix(x, c, y, j), z, n) == PartialDot(x, z, n) - c * PartialDot(y, z, n)
  {
    if n > 0 {
      PartialDotLowerBelow(x, c, y, z, j, n - 1);
      var w := LowerPrefix(x, c, y, j);
      assert w[n - 1] * z[n - 1] == x[n - 1] * z[n - 1] - c * (y[n - 1] * z[n - 1]);
    }
  }

  /**
   Over n > j positions only the first j+1 entries are lowered: the sum drops
   by c times the first j+1 products of y with z.
   */
  lemma {:induction false} PartialDotLowerPrefix(x: Vec, c: real, y: Vec, z: Vec, j: nat, n: nat)
    requires |x| <= |y| && j < n <= |x| && n <= |z|
    ensures PartialDot(LowerPrefix(x, c, y, j), z, n) == PartialDot(x, z, n) - c * PartialDot(y, z, j + 1)
  {
    if n == j + 1 {
      PartialDotLowerBelow(x, c, y, z, j, n);
    } else {
      PartialDotLowerPrefix(x, c, y, z, j, n - 1);
    }
  }
}
