/**
 The state of a `Lattice` object (main.js:4-97) and its constructor.

 A lattice of `nrows` basis vectors in `ncols` coordinates carries the integer
 basis, the Gram-Schmidt coefficient table `mu`, the Gram-Schmidt vectors
 `gsoMat` and their squared norms `B`.
 */
module Lattices {
  import opened Vectors
  import opened Rounding

  datatype Lattice = Lattice(
    nrows: nat,
    ncols: nat,
    basis: seq<seq<int>>,
    mu: seq<seq<real>>,
    gsoMat: seq<Vec>,
    B: seq<real>)

  /** Every row of `m` has exactly `width` entries. */
  predicate Rect<T>(m: seq<seq<T>>, width: nat) {
    forall i | 0 <= i < |m| :: |m[i]| == width
  }

  /** The fixed shapes the constructor sets up and every operation keeps. */
  predicate Wf(L: Lattice) {
    && L.nrows <= L.ncols
    && |L.basis| == L.nrows && Rect(L.basis, L.ncols)
    && |L.gsoMat| == L.nrows && Rect(L.gsoMat, L.ncols)
    && |L.mu| == L.nrows && Rect(L.mu, L.nrows)
    && |L.B| == L.nrows
  }

  /** A draw of `Math.random()`: a real in [0, 1). */
  predicate IsUnitDraw(r: real) {
    0.0 <= r < 1.0
  }

  /** `Math.round(r * 89999) + 10000` of main.js:24. */
  function Seed(r: real): (v: int)
    requires IsUnitDraw(r)
    ensures 10000 <= v <= 99999
  {
    Round(r * 89999.0) + 10000
  }

  /** Row i as built by main.js:20-24: zeros, then a 1 at i, then the seed at 0. */
  function InitialRow(i: nat, ncols: nat, draw: real): (row: seq<int>)
    requires i < ncols && IsUnitDraw(draw)
    ensures |row| == ncols
  {
    seq(ncols, k requires 0 <= k < ncols => if k == 0 then Seed(draw) else if k == i then 1 else 0)
  }

  /**
   `new Lattice(nrows, ncols)`, with the values `Math.random()` returns for the
   rows passed in as `draws`.
   */
  function New(nrows: nat, ncols: nat, draws: seq<real>): (L: Lattice)
    requires nrows <= ncols
    requires |draws| == nrows && forall i | 0 <= i < nrows :: IsUnitDraw(draws[i])
    ensures Wf(L) && L.nrows == nrows && L.ncols == ncols
    ensures forall i | 0 <= i < nrows :: 10000 <= L.basis[i][0] <= 99999
    ensures forall i | 1 <= i < nrows :: L.basis[i][i] == 1
    ensures forall i, k | 0 <= i < nrows && 0 < k < ncols && k != i :: L.basis[i][k] == 0
    ensures forall i | 0 <= i < nrows :: L.basis[i][0] == Round(draws[i] * 89999.0) + 10000
    ensures forall i, k | 0 <= i < nrows && 0 <= k < ncols :: L.gsoMat[i][k] == 0.0
    ensures forall i, j | 0 <= i < nrows && 0 <= j < nrows :: L.mu[i][j] == 0.0
    ensures forall i | 0 <= i < nrows :: L.B[i] == 0.0
  {
    Lattice(
      nrows,
      ncols,
      seq(nrows, i requires 0 <= i < nrows => InitialRow(i, ncols, draws[i])),
      seq(nrows, _ => seq(nrows, _ => 0.0)),
      seq(nrows, _ => seq(ncols, _ => 0.0)),
      seq(nrows, _ => 0.0))
  }
}
