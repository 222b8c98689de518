/**
 `computeGso` exactly as main.js:62-78 spells it.

 Lines 71 and 73 write `mu[i][j]` and `basis[i]` without `this.`. Inside a
 class body JavaScript is in strict mode, there is no binding named `mu` or
 `basis` in scope, and so the first pass of the inner loop (i = 1, j = 0)
 throws a ReferenceError. By then row 0 is complete and row 1 has its
 diagonal set and its basis copied into `gsoMat`. On one row the inner loop
 never runs and the method behaves as intended.

 The rest of the model uses `Gso.ComputeGso`, which reads `this.mu` and
 `this.basis` as evidently intended.
 */
module AsWritten {
  import opened Vectors
  import opened Lattices
  import opened Gso

  /** How a call ends: normally with its outcome, or by a thrown ReferenceError leaving a partly updated object. */
  datatype Completion = Returned(outcome: Outcome<Lattice>) | ReferenceError(state: Lattice)

  /** The object after row 0 of the outer loop and the first two statements for row 1 (main.js:64-69). */
  function StateAtThrow(L: Lattice): (S: Lattice)
    requires Wf(L) && L.nrows >= 2
    ensures Wf(S) && S.nrows == L.nrows && S.ncols == L.ncols && S.basis == L.basis
    ensures S.mu[0][0] == 1.0 && S.mu[1][1] == 1.0
    ensures forall t | 0 <= t < L.nrows && t != 0 && t != 1 :: S.mu[t] == L.mu[t] && S.gsoMat[t] == L.gsoMat[t]
    ensures forall k | 0 <= k < L.nrows && k != 0 :: S.mu[0][k] == L.mu[0][k]
    ensures forall k | 0 <= k < L.nrows && k != 1 :: S.mu[1][k] == L.mu[1][k]
    ensures S.gsoMat[0] == Reals(L.basis)[0] && S.gsoMat[1] == Reals(L.basis)[1]
    ensures S.B[0] == Dot(S.gsoMat[0], S.gsoMat[0])
    ensures forall t | 1 <= t < L.nrows :: S.B[t] == L.B[t]
  {
    var b := Reals(L.basis);
    L.(mu := L.mu[0 := L.mu[0][0 := 1.0]][1 := L.mu[1][1 := 1.0]],
       gsoMat := L.gsoMat[0 := b[0]][1 := b[1]],
       B := L.B[0 := Dot(b[0], b[0])])
  }

  /** `computeGso()` as written: it throws as soon as a second row exists. */
  function ComputeGsoAsWritten(L: Lattice): (c: Completion)
    requires Wf(L)
    ensures c.ReferenceError? <==> L.nrows >= 2
    ensures c.Returned? ==> c.outcome.Ok? && c.outcome == ComputeGso(L)
  {
    if L.nrows >= 2 then ReferenceError(StateAtThrow(L)) else Returned(ComputeGso(L))
  }

  /**
   The discrepancy: on every freshly constructed lattice with at least two
   rows the code as written throws, while the intended computation succeeds
   with every squared norm at least 1.
   */
  lemma AsWrittenThrowsOnNew(nrows: nat, ncols: nat, draws: seq<real>)
    requires 2 <= nrows <= ncols
    requires |draws| == nrows && forall i | 0 <= i < nrows :: IsUnitDraw(draws[i])
    ensures ComputeGsoAsWritten(New(nrows, ncols, draws)).ReferenceError?
    ensures ComputeGso(New(nrows, ncols, draws)).Ok?
  {
    NewNonDegenerate(nrows, ncols, draws);
  }

  /** A concrete instance: `new Lattice(2, 2)` with both draws 0. */
  lemma AsWrittenThrowsOnTwoByTwo()
    ensures ComputeGsoAsWritten(New(2, 2, [0.0, 0.0])).ReferenceError?
    ensures ComputeGso(New(2, 2, [0.0, 0.0])).Ok?
  {
    AsWrittenThrowsOnNew(2, 2, [0.0, 0.0]);
  }
}
