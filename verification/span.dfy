/**
 Integer combinations of basis rows, the lattice they span, and the row
 operation rows[i] -= q * rows[j] that `sizeReduce` applies to the basis.
 */
module Span {
  import opened Lattices

  /** Entry k of the combination: c[0]*rows[0][k] + ... + c[n-1]*rows[n-1][k]. */
  function PartialSum(c: seq<int>, rows: seq<seq<int>>, k: nat, n: nat): int
    requires n <= |c| && n <= |rows| && forall t | 0 <= t < n :: k < |rows[t]|
  {
    if n == 0 then 0 else PartialSum(c, rows, k, n - 1) + c[n - 1] * rows[n - 1][k]
  }

  /** The lattice vector with integer coefficients c over the rows. */
  function Combination(c: seq<int>, rows: seq<seq<int>>, m: nat): (v: seq<int>)
    requires |c| == |rows| && Rect(rows, m)
    ensures |v| == m
  {
    seq(m, k requires 0 <= k < m => PartialSum(c, rows, k, |c|))
  }

  /** v is an integer combination of the rows. */
  ghost predicate InLattice(v: seq<int>, rows: seq<seq<int>>, m: nat)
    requires Rect(rows, m)
  {
    exists c: seq<int> | |c| == |rows| :: v == Combination(c, rows, m)
  }

  /** Both row sets span the same lattice. */
  ghost predicate SameLattice(rows: seq<seq<int>>, rows': seq<seq<int>>, m: nat)
    requires Rect(rows, m) && Rect(rows', m)
  {
    forall v: seq<int> :: InLattice(v, rows, m) <==> InLattice(v, rows', m)
  }

  /** rows[i] -= q * rows[j], the row operation of main.js:89-94. */
  function RowOp(rows: seq<seq<int>>, m: nat, i: nat, j: nat, q: int): (rows': seq<seq<int>>)
    requires Rect(rows, m) && i < |rows| && j < |rows|
    ensures |rows'| == |rows| && Rect(rows', m)
    ensures forall t | 0 <= t < |rows| && t != i :: rows'[t] == rows[t]
    ensures forall k | 0 <= k < m :: rows'[i][k] == rows[i][k] - q * rows[j][k]
  {
    rows[i := seq(m, k requires 0 <= k < m => rows[i][k] - q * rows[j][k])]
  }

  /** Changing one row changes the sum by that row's coefficient times the change. */
  lemma {:induction false} PartialSumRowChange(c: seq<int>, rows: seq<seq<int>>, rows': seq<seq<int>>, i: nat, k: nat, n: nat)
    requires n <= |c| && n <= |rows| && n <= |rows'|
    requires forall t | 0 <= t < n :: k < |rows[t]| && k < |rows'[t]|
    requires forall t | 0 <= t < n && t != i :: rows'[t][k] == rows[t][k]
    ensures PartialSum(c, rows', k, n)
         == PartialSum(c, rows, k, n) + (if i < n then c[i] * (rows'[i][k] - rows[i][k]) else 0)
  {
    if n > 0 {
      PartialSumRowChange(c, rows, rows', i, k, n - 1);
    }
  }

  /** Changing one coefficient changes the sum by the change times that row. */
  lemma {:induction false} PartialSumCoeffChange(c: seq<int>, c': seq<int>, rows: seq<seq<int>>, j: nat, k: nat, n: nat)
    requires n <= |c| && n <= |c'| && n <= |rows|
    requires forall t | 0 <= t < n :: k < |rows[t]|
    requires forall t | 0 <= t < n && t != j :: c'[t] == c[t]
    ensures PartialSum(c', rows, k, n)
         == PartialSum(c, rows, k, n) + (if j < n then (c'[j] - c[j]) * rows[j][k] else 0)
  {
    if n > 0 {
      PartialSumCoeffChange(c, c', rows, j, k, n - 1);
    }
  }

  /**
   Every combination of the operated rows is the combination of the original
   rows with coefficient j moved by -q times coefficient i.
   */
  lemma RowOpCombination(rows: seq<seq<int>>, m: nat, i: nat, j: nat, q: int, c: seq<int>)
    requires Rect(rows, m) && i < |rows| && j < |rows| && i != j && |c| == |rows|
    ensures Combination(c, RowOp(rows, m, i, j, q), m) == Combination(c[j := c[j] - q * c[i]], rows, m)
  {
    var rows' := RowOp(rows, m, i, j, q);
    var c' := c[j := c[j] - q * c[i]];
    forall k | 0 <= k < m
      ensures Combination(c, rows', m)[k] == Combination(c', rows, m)[k]
    {
      PartialSumRowChange(c, rows, rows', i, k, |c|);
      PartialSumCoeffChange(c, c', rows, j, k, |c|);
      assert c[i] * (rows'[i][k] - rows[i][k]) == c[i] * (-q * rows[j][k]);
      assert c[i] * (-q * rows[j][k]) == (c'[j] - c[j]) * rows[j][k];
    }
  }

  /** The operation is undone by the same operation with -q. */
  lemma RowOpUndo(rows: seq<seq<int>>, m: nat, i: nat, j: nat, q: int)
    requires Rect(rows, m) && i < |rows| && j < |rows| && i != j
    ensures RowOp(RowOp(rows, m, i, j, q), m, i, j, -q) == rows
  {
    var back := RowOp(RowOp(rows, m, i, j, q), m, i, j, -q);
    assert back[i] == rows[i];
  }

  /** rows[i] -= q * rows[j] with i != j is unimodular: the spanned lattice is unchanged. */
  lemma RowOpSameLattice(rows: seq<seq<int>>, m: nat, i: nat, j: nat, q: int)
    requires Rect(rows, m) && i < |rows| && j < |rows| && i != j
    ensures SameLattice(rows, RowOp(rows, m, i, j, q), m)
  {
    var rows' := RowOp(rows, m, i, j, q);
    RowOpUndo(rows, m, i, j, q);
    forall v: seq<int>
      ensures InLattice(v, rows, m) <==> InLattice(v, rows', m)
    {
      if InLattice(v, rows', m) {
        var c :| |c| == |rows'| && v == Combination(c, rows', m);
        RowOpCombination(rows, m, i, j, q, c);
      }
      if InLattice(v, rows, m) {
        var c :| |c| == |rows| && v == Combination(c, rows, m);
        RowOpCombination(rows', m, i, j, -q, c);
      }
    }
  }
}
