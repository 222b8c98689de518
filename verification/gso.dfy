/**
 `Lattice.computeGso` (main.js:62-78): classical Gram-Schmidt orthogonalisation
 of the basis rows, filling `gsoMat`, the coefficient table `mu` and the squared
 norms `B`.

 Row i of `gsoMat` starts as a copy of `basis[i]`; for each earlier row j the
 coefficient mu[i][j] = <basis[i], gsoMat[j]> / <gsoMat[j], gsoMat[j]> is
 computed and mu[i][j] * gsoMat[j] is subtracted. The division needs a non-zero
 squared norm; where the source would produce NaN or Infinity the model
 returns `Degenerate(j)` naming the Gram-Schmidt row whose norm is zero.
 */
module Gso {
  import opened Vectors
  import opened Lattices

  datatype Outcome<T> = Ok(value: T) | Degenerate(row: nat)

  /** The integer basis as exact real vectors. */
  function Reals(b: seq<seq<int>>): (r: seq<Vec>)
    ensures |r| == |b|
    ensures forall i | 0 <= i < |b| :: |r[i]| == |b[i]|
    ensures forall i, k | 0 <= i < |b| && 0 <= k < |b[i]| :: r[i][k] == b[i][k] as real
  {
    seq(|b|, i requires 0 <= i < |b| => seq(|b[i]|, k requires 0 <= k < |b[i]| => b[i][k] as real))
  }

  /** No vector of `gs` has squared norm zero, so each may be divided by. */
  predicate NonZeroNorms(gs: seq<Vec>) {
    forall t | 0 <= t < |gs| :: Dot(gs[t], gs[t]) != 0.0
  }

  /** mu[i][t] of main.js:71 for every t < |gs|: the projection coefficient of b on gs[t]. */
  function Coefficients(b: Vec, gs: seq<Vec>): (mus: seq<real>)
    requires NonZeroNorms(gs) && forall t | 0 <= t < |gs| :: |b| <= |gs[t]|
    ensures |mus| == |gs|
  {
    seq(|gs|, t requires 0 <= t < |gs| => Dot(b, gs[t]) / Dot(gs[t], gs[t]))
  }

  /** The first j subtractions g -= mus[t] * gs[t] of main.js:72-74, in order. */
  function Sweep(g: Vec, mus: seq<real>, gs: seq<Vec>, j: nat): (r: Vec)
    requires j <= |mus| && j <= |gs| && forall t | 0 <= t < j :: |g| <= |gs[t]|
    ensures |r| == |g|
  {
    if j == 0 then g else SubScaled(Sweep(g, mus, gs, j - 1), mus[j - 1], gs[j - 1])
  }

  /** The Gram-Schmidt vector of b against the earlier Gram-Schmidt vectors gs (main.js:66-75). */
  function GsoRow(b: Vec, gs: seq<Vec>): (g: Vec)
    requires NonZeroNorms(gs) && forall t | 0 <= t < |gs| :: |b| <= |gs[t]|
    ensures |g| == |b|
  {
    Sweep(b, Coefficients(b, gs), gs, |gs|)
  }

  /** Row s of gs is the Gram-Schmidt vector of b[s] against the rows before it. */
  predicate RowOk(b: seq<Vec>, gs: seq<Vec>, s: nat)
    requires s < |b| && s < |gs| && forall t | 0 <= t < s :: |b[s]| <= |gs[t]|
  {
    NonZeroNorms(gs[..s]) && gs[s] == GsoRow(b[s], gs[..s])
  }

  /**
   The Gram-Schmidt vectors of the first i rows of b, or the index of the first
   one whose squared norm is zero while a later row still has to divide by it.
   */
  function GsoPrefix(b: seq<Vec>, m: nat, i: nat): (r: Outcome<seq<Vec>>)
    requires Rect(b, m) && i <= |b|
    ensures r.Ok? ==> |r.value| == i && Rect(r.value, m)
    ensures r.Ok? ==> forall t | 0 <= t < i - 1 :: Dot(r.value[t], r.value[t]) != 0.0
    ensures r.Ok? ==> forall s | 0 <= s < i :: RowOk(b, r.value, s)
    ensures r.Degenerate? ==> r.row + 1 < i
  {
    if i == 0 then Ok([])
    else
      match GsoPrefix(b, m, i - 1)
      case Degenerate(t) => Degenerate(t)
      case Ok(gs) =>
        if i >= 2 && Dot(gs[i - 2], gs[i - 2]) == 0.0 then Degenerate(i - 2)
        else
          var gs' := gs + [GsoRow(b[i - 1], gs)];
          AppendRow(b, m, gs);
          Ok(gs')
  }

  /** Appending the Gram-Schmidt vector of the next row keeps every earlier row as it was. */
  lemma AppendRow(b: seq<Vec>, m: nat, gs: seq<Vec>)
    requires Rect(b, m) && |gs| < |b| && Rect(gs, m) && NonZeroNorms(gs)
    requires forall s | 0 <= s < |gs| :: RowOk(b, gs, s)
    ensures forall s | 0 <= s <= |gs| :: RowOk(b, gs + [GsoRow(b[|gs|], gs)], s)
  {
    var gs' := gs + [GsoRow(b[|gs|], gs)];
    forall s | 0 <= s <= |gs|
      ensures RowOk(b, gs', s)
    {
      if s < |gs| {
        assert gs'[..s] == gs[..s];
        assert gs'[s] == gs[s];
        assert RowOk(b, gs, s);
      } else {
        assert gs'[..s] == gs;
      }
    }
  }

  /** Row i of the coefficient table after `computeGso`: computed below the diagonal, 1 on it, untouched above. */
  function MuRow(prev: seq<real>, b: Vec, gs: seq<Vec>, i: nat): (row: seq<real>)
    requires i < |prev| && i <= |gs|
    requires NonZeroNorms(gs[..i]) && forall t | 0 <= t < i :: |b| <= |gs[t]|
    ensures |row| == |prev|
    ensures forall j | 0 <= j < i :: row[j] == Dot(b, gs[j]) / Dot(gs[j], gs[j])
    ensures row[i] == 1.0
    ensures forall j | i < j < |prev| :: row[j] == prev[j]
  {
    var mus := Coefficients(b, gs[..i]);
    seq(|prev|, j requires 0 <= j < |prev| => if j < i then mus[j] else if j == i then 1.0 else prev[j])
  }

  /** The lattice with `gs` as its Gram-Schmidt vectors and `mu`, `B` filled in from them. */
  function Refreshed(L: Lattice, gs: seq<Vec>): (R: Lattice)
    requires Wf(L) && |gs| == L.nrows && Rect(gs, L.ncols)
    requires forall s | 0 <= s < L.nrows :: NonZeroNorms(gs[..s])
    ensures Wf(R)
    ensures R.nrows == L.nrows && R.ncols == L.ncols && R.basis == L.basis && R.gsoMat == gs
    ensures forall i | 0 <= i < L.nrows :: R.B[i] == Dot(gs[i], gs[i])
    ensures forall i | 0 <= i < L.nrows :: R.mu[i] == MuRow(L.mu[i], Reals(L.basis)[i], gs, i)
  {
    var b := Reals(L.basis);
    var mu := seq(L.nrows, i requires 0 <= i < L.nrows => MuRow(L.mu[i], b[i], gs, i));
    var B := seq(L.nrows, i requires 0 <= i < L.nrows => Dot(gs[i], gs[i]));
    L.(gsoMat := gs, mu := mu, B := B)
  }

  /** `computeGso()`: recompute `gsoMat`, `mu` below and on the diagonal, and `B` from the basis. */
  function ComputeGso(L: Lattice): (r: Outcome<Lattice>)
    requires Wf(L)
    ensures r.Ok? ==> Wf(r.value)
    ensures r.Ok? ==> r.value.nrows == L.nrows && r.value.ncols == L.ncols && r.value.basis == L.basis
    ensures r.Ok? ==> forall i | 0 <= i < L.nrows :: r.value.mu[i][i] == 1.0
    ensures r.Ok? ==> forall i, j | 0 <= i < j < L.nrows :: r.value.mu[i][j] == L.mu[i][j]
    ensures r.Ok? ==> forall j | 0 <= j < L.nrows - 1 :: r.value.B[j] != 0.0
    ensures r.Ok? ==> forall i, j | 0 <= j < i < L.nrows ::
      r.value.mu[i][j] == Dot(Reals(L.basis)[i], r.value.gsoMat[j]) / r.value.B[j]
    ensures r.Degenerate? ==> r.row + 1 < L.nrows
  {
    match GsoPrefix(Reals(L.basis), L.ncols, L.nrows)
    case Degenerate(t) => Degenerate(t)
    case Ok(gs) => Ok(Refreshed(L, gs))
  }

  /** Entry k of a partial sweep: the original entry minus the accumulated multiples. */
  lemma {:induction false} SweepEntry(g: Vec, mus: seq<real>, gs: seq<Vec>, j: nat, k: nat)
    requires j <= |mus| && j <= |gs| && Rect(gs, |g|) && k < |g|
    ensures Sweep(g, mus, gs, j)[k] == g[k] - PartialDot(mus, Column(gs, k), j)
  {
    if j > 0 {
      SweepEntry(g, mus, gs, j - 1, k);
    }
  }

  /** The inner products of the rows of gs with w. */
  function Dots(gs: seq<Vec>, w: Vec): (d: seq<real>)
    requires forall t | 0 <= t < |gs| :: |gs[t]| <= |w|
    ensures |d| == |gs|
    ensures forall t | 0 <= t < |gs| :: d[t] == Dot(gs[t], w)
  {
    seq(|gs|, t requires 0 <= t < |gs| => Dot(gs[t], w))
  }

  /** A partial sweep is linear: its inner product with w is that of g less the accumulated multiples. */
  lemma {:induction false} SweepDot(g: Vec, mus: seq<real>, gs: seq<Vec>, j: nat, w: Vec)
    requires j <= |mus| && j <= |gs| && Rect(gs, |g|) && |w| == |g|
    ensures Dot(Sweep(g, mus, gs, j), w) == Dot(g, w) - PartialDot(mus, Dots(gs, w), j)
  {
    if j > 0 {
      SweepDot(g, mus, gs, j - 1, w);
      var prev := Sweep(g, mus, gs, j - 1);
      PartialDotSubScaled(prev, mus[j - 1], gs[j - 1], w, |g|);
      var d := Dots(gs, w);
      ScaleEqual(mus[j - 1], d[j - 1], Dot(gs[j - 1], w));
      PartialDotStep(mus, d, j - 1);
    }
  }

  /** Pairwise orthogonal vectors. */
  predicate Orthogonal(gs: seq<Vec>, m: nat)
    requires Rect(gs, m)
  {
    forall r, s | 0 <= s < r < |gs| :: Dot(gs[r], gs[s]) == 0.0
  }

  /** A new Gram-Schmidt row is orthogonal to each earlier one it was swept against. */
  lemma RowOrthogonal(b: Vec, gs: seq<Vec>, s: nat)
    requires Rect(gs, |b|) && NonZeroNorms(gs) && Orthogonal(gs, |b|) && s < |gs|
    ensures Dot(GsoRow(b, gs), gs[s]) == 0.0
  {
    var mus := Coefficients(b, gs);
    var d := Dots(gs, gs[s]);
    SweepDot(b, mus, gs, |gs|, gs[s]);
    forall t | 0 <= t < |gs| && t != s
      ensures d[t] == 0.0
    {
      if t < s {
        DotSymmetric(gs[t], gs[s]);
      }
    }
    PartialDotSingle(mus, d, s, |gs|);
  }

  /** One step of the outer loop of main.js:63-77 appends one Gram-Schmidt row. */
  lemma PrefixStep(b: seq<Vec>, m: nat, i: nat)
    requires Rect(b, m) && 0 < i <= |b| && GsoPrefix(b, m, i).Ok?
    ensures GsoPrefix(b, m, i - 1).Ok?
    ensures NonZeroNorms(GsoPrefix(b, m, i - 1).value)
    ensures GsoPrefix(b, m, i).value[..i - 1] == GsoPrefix(b, m, i - 1).value
    ensures GsoPrefix(b, m, i).value[i - 1] == GsoRow(b[i - 1], GsoPrefix(b, m, i - 1).value)
  {
  }

  /** The Gram-Schmidt vectors of any prefix are pairwise orthogonal. */
  lemma {:induction false} PrefixOrthogonal(b: seq<Vec>, m: nat, i: nat)
    requires Rect(b, m) && i <= |b| && GsoPrefix(b, m, i).Ok?
    ensures Orthogonal(GsoPrefix(b, m, i).value, m)
  {
    if i > 0 {
      PrefixStep(b, m, i);
      PrefixOrthogonal(b, m, i - 1);
      var gs0 := GsoPrefix(b, m, i - 1).value;
      var gs := GsoPrefix(b, m, i).value;
      forall r, s | 0 <= s < r < i
        ensures Dot(gs[r], gs[s]) == 0.0
      {
        assert gs[s] == gs0[s];
        if r == i - 1 {
          RowOrthogonal(b[i - 1], gs0, s);
        } else {
          assert gs[r] == gs0[r];
        }
      }
    }
  }

  /**
   Row i of the basis is its Gram-Schmidt vector plus the multiples of the
   earlier Gram-Schmidt vectors recorded in mu[i][0..i), with mu[i][i] = 1.
   */
  predicate RowReconstructs(L: Lattice, i: nat)
    requires Wf(L) && i < L.nrows
  {
    && L.mu[i][i] == 1.0
    && forall k | 0 <= k < L.ncols ::
         L.basis[i][k] as real == L.gsoMat[i][k] + PartialDot(L.mu[i], Column(L.gsoMat, k), i)
  }

  /** Entry k of a vector is its Gram-Schmidt entry plus the recorded multiples of the earlier rows. */
  lemma ReconstructEntry(b: Vec, gs: seq<Vec>, prev: seq<real>, i: nat, k: nat)
    requires i < |prev| && i <= |gs| && Rect(gs, |b|) && NonZeroNorms(gs[..i]) && k < |b|
    ensures b[k] == GsoRow(b, gs[..i])[k] + PartialDot(MuRow(prev, b, gs, i), Column(gs, k), i)
  {
    var mus := Coefficients(b, gs[..i]);
    SweepEntry(b, mus, gs[..i], i, k);
    PartialDotAgree(MuRow(prev, b, gs, i), Column(gs, k), mus, Column(gs[..i], k), i);
  }

  /** After `computeGso`, basis row i is recovered from the Gram-Schmidt data. */
  lemma GsoRowReconstructs(L: Lattice, i: nat)
    requires Wf(L) && ComputeGso(L).Ok?
    ensures i < L.nrows ==> RowReconstructs(ComputeGso(L).value, i)
  {
    if i < L.nrows {
      var R := ComputeGso(L).value;
      var b := Reals(L.basis);
      var gs := R.gsoMat;
      assert GsoPrefix(b, L.ncols, L.nrows) == Ok(gs);
      assert RowOk(b, gs, i);
      assert R.mu[i] == MuRow(L.mu[i], b[i], gs, i);
      forall k | 0 <= k < L.ncols
        ensures L.basis[i][k] as real == gs[i][k] + PartialDot(R.mu[i], Column(gs, k), i)
      {
        ReconstructEntry(b[i], gs, L.mu[i], i, k);
      }
    }
  }

  /** After `computeGso`, every basis row is recovered from the Gram-Schmidt data. */
  lemma GsoReconstructs(L: Lattice)
    requires Wf(L) && ComputeGso(L).Ok?
    ensures forall i | 0 <= i < L.nrows :: RowReconstructs(ComputeGso(L).value, i)
  {
    forall i | 0 <= i < L.nrows
      ensures RowReconstructs(ComputeGso(L).value, i)
    {
      GsoRowReconstructs(L, i);
    }
  }

  /** After `computeGso`, the Gram-Schmidt vectors are pairwise orthogonal. */
  lemma GsoOrthogonal(L: Lattice)
    requires Wf(L) && ComputeGso(L).Ok?
    ensures forall i, j | 0 <= j < i < L.nrows :: Dot(ComputeGso(L).value.gsoMat[i], ComputeGso(L).value.gsoMat[j]) == 0.0
  {
    PrefixOrthogonal(Reals(L.basis), L.ncols, L.nrows);
  }

  /** After `computeGso`, B holds the squared norms of the Gram-Schmidt vectors, none negative. */
  lemma GsoNorms(L: Lattice)
    requires Wf(L) && ComputeGso(L).Ok?
    ensures forall i | 0 <= i < L.nrows ::
      ComputeGso(L).value.B[i] == Dot(ComputeGso(L).value.gsoMat[i], ComputeGso(L).value.gsoMat[i])
    ensures forall i | 0 <= i < L.nrows :: ComputeGso(L).value.B[i] >= 0.0
  {
    var R := ComputeGso(L).value;
    forall i | 0 <= i < L.nrows
      ensures R.B[i] >= 0.0
    {
      DotSelfNonNegative(R.gsoMat[i]);
    }
  }

  /**
   `computeGso` fails exactly at a Gram-Schmidt vector t of squared norm zero
   that a later row t+1 would have to divide by; all earlier ones are non-zero.
   */
  lemma GsoDegenerate(L: Lattice)
    requires Wf(L) && ComputeGso(L).Degenerate?
    ensures var t := ComputeGso(L).row;
      && t + 1 < L.nrows
      && GsoPrefix(Reals(L.basis), L.ncols, t + 1).Ok?
      && var gs := GsoPrefix(Reals(L.basis), L.ncols, t + 1).value;
         NonZeroNorms(gs[..t]) && Dot(gs[t], gs[t]) == 0.0
  {
    PrefixDegenerate(Reals(L.basis), L.ncols, L.nrows);
  }

  lemma {:induction false} PrefixDegenerate(b: seq<Vec>, m: nat, i: nat)
    requires Rect(b, m) && i <= |b| && GsoPrefix(b, m, i).Degenerate?
    ensures var t := GsoPrefix(b, m, i).row;
      && t + 1 < i
      && GsoPrefix(b, m, t + 1).Ok?
      && var gs := GsoPrefix(b, m, t + 1).value;
         NonZeroNorms(gs[..t]) && Dot(gs[t], gs[t]) == 0.0
  {
    if GsoPrefix(b, m, i - 1).Degenerate? {
      PrefixDegenerate(b, m, i - 1);
    }
  }

  /** Lower echelon with a diagonal of at least 1: row s has b[s][s] >= 1 and zeros after position s. */
  predicate Echelon(b: seq<Vec>, m: nat)
    requires Rect(b, m)
  {
    && |b| <= m
    && (forall s | 0 <= s < |b| :: b[s][s] >= 1.0)
    && (forall s, k | 0 <= s < k < m && s < |b| :: b[s][k] == 0.0)
  }

  /**
   On an echelon basis Gram-Schmidt never meets a zero norm, and each
   Gram-Schmidt vector keeps the diagonal entry of its row and its zeros.
   */
  lemma {:induction false} PrefixEchelon(b: seq<Vec>, m: nat, i: nat)
    requires Rect(b, m) && Echelon(b, m) && i <= |b|
    ensures GsoPrefix(b, m, i).Ok?
    ensures forall s | 0 <= s < i :: GsoPrefix(b, m, i).value[s][s] == b[s][s]
    ensures forall s, k | 0 <= s < k < m && s < i :: GsoPrefix(b, m, i).value[s][k] == 0.0
  {
    if i > 0 {
      PrefixEchelon(b, m, i - 1);
      var gs := GsoPrefix(b, m, i - 1).value;
      if i >= 2 {
        PartialDotSelfAtLeastOne(gs[i - 2], i - 2, m);
      }
      PrefixStep(b, m, i);
      var gs' := GsoPrefix(b, m, i).value;
      var mus := Coefficients(b[i - 1], gs);
      var g, bi := gs'[i - 1], b[i - 1];
      forall k | i - 1 <= k < m
        ensures g[k] == bi[k]
      {
        SweepEntry(b[i - 1], mus, gs, |gs|, k);
        PartialDotSingle(mus, Column(gs, k), |gs|, |gs|);
      }
      forall s | 0 <= s < i - 1
        ensures gs'[s] == gs[s]
      {
        assert gs'[..i - 1][s] == gs'[s];
      }
    }
  }

  /**
   `computeGso` on a freshly constructed lattice always succeeds, and every
   Gram-Schmidt vector has squared norm at least 1.
   */
  lemma NewNonDegenerate(nrows: nat, ncols: nat, draws: seq<real>)
    requires nrows <= ncols
    requires |draws| == nrows && forall i | 0 <= i < nrows :: IsUnitDraw(draws[i])
    ensures ComputeGso(New(nrows, ncols, draws)).Ok?
    ensures forall i | 0 <= i < nrows :: ComputeGso(New(nrows, ncols, draws)).value.B[i] >= 1.0
  {
    var L := New(nrows, ncols, draws);
    var b := Reals(L.basis);
    assert Echelon(b, ncols);
    PrefixEchelon(b, ncols, nrows);
    var R := ComputeGso(L).value;
    forall i | 0 <= i < nrows
      ensures R.B[i] >= 1.0
    {
      PartialDotSelfAtLeastOne(R.gsoMat[i], i, ncols);
    }
  }

  /**
   `computeGso` reads only the basis and the entries of mu above the diagonal,
   and keeps the latter: running it twice gives the same lattice as once.
   */
  lemma GsoIdempotent(L: Lattice)
    requires Wf(L) && ComputeGso(L).Ok?
    ensures ComputeGso(ComputeGso(L).value) == ComputeGso(L)
  {
    var R := ComputeGso(L).value;
    var gs := R.gsoMat;
    var b := Reals(L.basis);
    assert GsoPrefix(b, L.ncols, L.nrows) == Ok(gs);
    var R2 := Refreshed(R, gs);
    forall i | 0 <= i < L.nrows
      ensures R2.mu[i] == R.mu[i]
    {
      var row, row2 := R.mu[i], R2.mu[i];
      forall j | 0 <= j < L.nrows
        ensures row2[j] == row[j]
      {
      }
    }
    assert R2.mu == R.mu;
  }
}
