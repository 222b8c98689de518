/**
 `Lattice.sizeReduce(i, j)` (main.js:85-96): partial size reduction of basis
 row i against row j.

 When |mu[i][j]| > 1/2, q = Math.round(mu[i][j]) is taken, q times row j is
 subtracted from row i of the basis, and q times mu[j][k] from mu[i][k] for
 every k <= j. Otherwise nothing changes.
 */
module SizeReduction {
  import opened Vectors
  import opened Rounding
  import opened Lattices
  import opened Span
  import opened Gso

  /** The test of main.js:86. */
  predicate NeedsReduction(m: real) {
    m > 0.5 || m < -0.5
  }

  /** The multiple of row j that `sizeReduce(i, j)` subtracts from row i: zero when it does nothing. */
  function Multiplier(L: Lattice, i: nat, j: nat): int
    requires Wf(L) && i < L.nrows && j < L.nrows
  {
    if NeedsReduction(L.mu[i][j]) then Round(L.mu[i][j]) else 0
  }

  /**
   `sizeReduce(i, j)`. A j past the last row makes `this.mu[i][j]` undefined;
   both comparisons of main.js:86 are then false and the call does nothing.
   */
  function SizeReduce(L: Lattice, i: nat, j: nat): (R: Lattice)
    requires Wf(L) && i < L.nrows
    ensures Wf(R) && R.nrows == L.nrows && R.ncols == L.ncols
    ensures R.gsoMat == L.gsoMat && R.B == L.B
    ensures forall t | 0 <= t < L.nrows && t != i :: R.basis[t] == L.basis[t] && R.mu[t] == L.mu[t]
    ensures L.nrows <= j ==> R == L
    ensures j < L.nrows ==> forall k | j < k < L.nrows :: R.mu[i][k] == L.mu[i][k]
    ensures j < L.nrows && !NeedsReduction(L.mu[i][j]) ==> R == L
    ensures j < L.nrows && NeedsReduction(L.mu[i][j]) ==>
      && var q := Round(L.mu[i][j]);
      && (forall k | 0 <= k < L.ncols :: R.basis[i][k] == L.basis[i][k] - q * L.basis[j][k])
      && R.mu[i] == LowerPrefix(L.mu[i], q as real, L.mu[j], j)
    ensures j < L.nrows && L.mu[j][j] == 1.0 ==> -0.5 <= R.mu[i][j] <= 0.5
    ensures j < L.nrows && L.mu[j][j] == 1.0 && NeedsReduction(L.mu[i][j]) ==> -0.5 <= R.mu[i][j] < 0.5
  {
    if L.nrows <= j || !NeedsReduction(L.mu[i][j]) then
      L
    else
      var q := Round(L.mu[i][j]);
      L.(basis := RowOp(L.basis, L.ncols, i, j, q), mu := L.mu[i := LowerPrefix(L.mu[i], q as real, L.mu[j], j)])
  }

  /** The basis after `sizeReduce(i, j)` is the row operation with the multiplier, and can be undone. */
  lemma SizeReduceBasis(L: Lattice, i: nat, j: nat)
    requires Wf(L) && i < L.nrows && j < L.nrows
    ensures SizeReduce(L, i, j).basis == RowOp(L.basis, L.ncols, i, j, Multiplier(L, i, j))
    ensures i != j ==> RowOp(SizeReduce(L, i, j).basis, L.ncols, i, j, -Multiplier(L, i, j)) == L.basis
  {
    var R := SizeReduce(L, i, j);
    var q := Multiplier(L, i, j);
    if !NeedsReduction(L.mu[i][j]) {
      var rows := RowOp(L.basis, L.ncols, i, j, 0);
      assert rows[i] == L.basis[i];
      assert rows == L.basis;
    }
    if i != j {
      RowOpUndo(L.basis, L.ncols, i, j, q);
    }
  }

  /** For i != j, `sizeReduce(i, j)` leaves the lattice spanned by the basis unchanged. */
  lemma SizeReducePreservesLattice(L: Lattice, i: nat, j: nat)
    requires Wf(L) && i < L.nrows && j < L.nrows && i != j
    ensures SameLattice(L.basis, SizeReduce(L, i, j).basis, L.ncols)
  {
    SizeReduceBasis(L, i, j);
    RowOpSameLattice(L.basis, L.ncols, i, j, Multiplier(L, i, j));
  }

  /**
   For i != j, the combination of the reduced basis with coefficients c is the
   combination of the old basis with c[j] lowered by q * c[i].
   */
  lemma SizeReduceCoefficients(L: Lattice, i: nat, j: nat, c: seq<int>)
    requires Wf(L) && i < L.nrows && j < L.nrows && i != j && |c| == L.nrows
    ensures Combination(c, SizeReduce(L, i, j).basis, L.ncols)
         == Combination(c[j := c[j] - Multiplier(L, i, j) * c[i]], L.basis, L.ncols)
  {
    SizeReduceBasis(L, i, j);
    RowOpCombination(L.basis, L.ncols, i, j, Multiplier(L, i, j), c);
  }

  /** With mu[j][j] = 1, the first j+1 recorded multiples of row j add up to basis row j. */
  lemma UnitDiagonalStep(gj: real, j: nat, muj: seq<real>, col: Vec)
    requires j < |col| && j < |muj| && muj[j] == 1.0 && col[j] == gj
    ensures PartialDot(muj, col, j + 1) == PartialDot(muj, col, j) + gj
  {
    PartialDotStep(muj, col, j);
  }

  /** Reconstruction of row t only depends on row t of the basis and of mu, and on gsoMat. */
  lemma ReconstructsFrame(L: Lattice, R: Lattice, t: nat)
    requires Wf(L) && Wf(R) && R.nrows == L.nrows && R.ncols == L.ncols && t < L.nrows
    requires R.gsoMat == L.gsoMat && R.basis[t] == L.basis[t] && R.mu[t] == L.mu[t]
    requires RowReconstructs(L, t)
    ensures RowReconstructs(R, t)
  {
  }

  /** The integer row operation read in exact reals. */
  lemma CastStep(bi: int, bj: int, gi: real, pi: real, pj: real, pi': real, q: int)
    requires bi as real == gi + pi && bj as real == pj
    requires pi' == pi - q as real * pj
    ensures (bi - q * bj) as real == gi + pi'
  {
    assert (q * bj) as real == q as real * bj as real;
  }

  /**
   One coordinate of the reduction: if bi and bj are recovered from their
   Gram-Schmidt entries gi, gj and the multiples mui, muj recorded against the
   column col, with muj[j] = 1, then bi - q * bj is recovered from mui lowered
   by q * muj on positions 0..j.
   */
  lemma ReducedEntry(bi: int, bj: int, gi: real, gj: real, mui: seq<real>, muj: seq<real>, col: Vec,
                     i: nat, j: nat, q: int)
    requires j < i <= |mui| && |mui| <= |muj| && i <= |col| && muj[j] == 1.0 && col[j] == gj
    requires bi as real == gi + PartialDot(mui, col, i)
    requires bj as real == gj + PartialDot(muj, col, j)
    ensures (bi - q * bj) as real == gi + PartialDot(LowerPrefix(mui, q as real, muj, j), col, i)
  {
    var pi' := PartialDot(LowerPrefix(mui, q as real, muj, j), col, i);
    PartialDotLowerPrefix(mui, q as real, muj, col, j, i);
    UnitDiagonalStep(gj, j, muj, col);
    CastStep(bi, bj, gi, PartialDot(mui, col, i), PartialDot(muj, col, j + 1), pi', q);
  }

  /** Row i itself is still recovered after `sizeReduce(i, j)`, for j < i. */
  lemma ReducedRowReconstructs(L: Lattice, i: nat, j: nat)
    requires Wf(L) && j < i < L.nrows
    requires RowReconstructs(L, i) && RowReconstructs(L, j)
    ensures RowReconstructs(SizeReduce(L, i, j), i)
  {
    var R := SizeReduce(L, i, j);
    if NeedsReduction(L.mu[i][j]) {
      forall k | 0 <= k < L.ncols
        ensures R.basis[i][k] as real == R.gsoMat[i][k] + PartialDot(R.mu[i], Column(R.gsoMat, k), i)
      {
        ReducedEntry(L.basis[i][k], L.basis[j][k], L.gsoMat[i][k], L.gsoMat[j][k],
                     L.mu[i], L.mu[j], Column(L.gsoMat, k), i, j, Round(L.mu[i][j]));
      }
    }
  }

  /**
   For j < i, `sizeReduce(i, j)` keeps the Gram-Schmidt data consistent with
   the basis: if every row is recovered from `gsoMat` and `mu` before, every
   row is recovered after, with `gsoMat` and `B` untouched.
   */
  lemma SizeReducePreservesReconstruction(L: Lattice, i: nat, j: nat)
    requires Wf(L) && j < i < L.nrows
    requires forall t | 0 <= t < L.nrows :: RowReconstructs(L, t)
    ensures forall t | 0 <= t < L.nrows :: RowReconstructs(SizeReduce(L, i, j), t)
  {
    var R := SizeReduce(L, i, j);
    forall t | 0 <= t < L.nrows
      ensures RowReconstructs(R, t)
    {
      if t == i {
        ReducedRowReconstructs(L, i, j);
      } else {
        ReconstructsFrame(L, R, t);
      }
    }
  }
}
