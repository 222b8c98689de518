# Lattice basis and Gram-Schmidt core, in Dafny

This project models the numerical core of the `Lattice` class in `main.js`:

- the constructor, which builds an integer basis seeded from `Math.random()`;
- `dotProduct`, the inner product;
- `computeGso`, the Gram-Schmidt orthogonalisation that fills `gsoMat`, the
  coefficient table `mu` and the squared norms `B`;
- `sizeReduce(i, j)`, partial size reduction of basis row i against row j.

The object is an immutable `Lattices.Lattice` value, and each method is a pure
function from the old object to the new one. Basis entries are unbounded
integers. The doubles of `mu`, `gsoMat` and `B` are exact reals, so the
algebra the source relies on (orthogonality, reconstruction of the basis) can
be stated exactly. `Math.round` is `Rounding.Round`: the nearest integer with
halves going up, so `Math.round(-2.5) == -2`.

Modules, one per file:

- `Vectors` (vectors.dfy): vectors, `Dot`, the `DotProduct` loop, and the
  algebra of partial sums.
- `Rounding` (rounding.dfy): `Math.round`.
- `Lattices` (lattice.dfy): the object state, its shape invariant `Wf`, and
  the constructor `New`.
- `Gso` (gso.dfy): `computeGso` and its properties.
- `Span` (span.dfy): integer combinations, the lattice spanned by the rows,
  and the row operation `rows[i] -= q * rows[j]`.
- `SizeReduction` (size_reduce.dfy): `sizeReduce` and its properties.
- `AsWritten` (as_written.dfy): `computeGso` exactly as written (see Findings).

Two points about the code worth noting:

- Ties in `q = round(mu[i][j])` are broken by `Math.round`, halves up. No
  other rounding mode is modelled.
- `sizeReduce(i, j)` bounds only `mu[i][j]`, and only when `mu[j][j] == 1`.
  It does not make every `mu[i][k]` with `k < i` small: the entries `k < j`
  move by `q * mu[j][k]` and may grow.

## Model

| member | source | states |
|---|---|---|
| `Vectors.DotProduct` | main.js:51-57 | The loop returns the left-to-right sum of `x[k] * y[k]` over the length of `x`. |
| `Vectors.DotSymmetric` | main.js:51-57 | On vectors of equal length the inner product does not depend on the order of its arguments. |
| `Vectors.DotSelfNonNegative` | main.js:51-57 | The inner product of a vector with itself is never negative. |
| `Rounding.Round` | main.js:87 | `Math.round(x)` is an integer q with `q - 1/2 <= x < q + 1/2`. |
| `Rounding.RoundUnique` | main.js:87 | Only one integer lies in that window, so the rounded value is determined. |
| `Rounding.RoundHalfUp` | main.js:87 | A tie `n + 1/2` rounds up to `n + 1`. |
| `Lattices.Seed` | main.js:24 | `Math.round(r * 89999) + 10000` lies in [10000, 99999] for every draw r in [0, 1). |
| `Lattices.New` | main.js:10-25 | The new object has `nrows` rows of width `ncols`. Column 0 of each row holds its seed. Every row i >= 1 has 1 at position i. All other basis entries are 0, and `gsoMat`, `mu` and `B` are all zero. |
| `Gso.ComputeGso` | main.js:62-78 | On success the basis and shape are kept. The diagonal of `mu` is 1 and entries above it are unchanged. Below it, `mu[i][j]` is the inner product of basis row i with Gram-Schmidt row j, divided by `B[j]`, and that `B[j]` is non-zero. Otherwise a row t is reported that has a later row. That Gram-Schmidt row t has zero norm is carried by `Gso.GsoDegenerate`. |
| `Gso.GsoReconstructs` | main.js:66-75 | After `computeGso` every basis row equals its Gram-Schmidt row plus `mu[i][j]` times Gram-Schmidt row j, summed over j < i. |
| `Gso.GsoOrthogonal` | main.js:70-75 | After `computeGso` the Gram-Schmidt rows are pairwise orthogonal. |
| `Gso.GsoNorms` | main.js:76 | After `computeGso`, `B[i]` is the squared norm of Gram-Schmidt row i, so it is never negative. |
| `Gso.GsoDegenerate` | main.js:71 | `computeGso` fails exactly at the first Gram-Schmidt row t of squared norm zero that a later row would divide by. The rows before t have non-zero norms. |
| `Gso.GsoIdempotent` | main.js:62-78 | Running `computeGso` a second time changes nothing. |
| `Gso.NewNonDegenerate` | main.js:10-25 | `computeGso` succeeds on every freshly constructed lattice, and every `B[i]` is at least 1. |
| `Span.RowOpUndo` | main.js:93 | `rows[i] -= q * rows[j]` with i != j is undone by the same operation with -q. |
| `Span.RowOpCombination` | main.js:93 | A combination of the operated rows with coefficients c is the combination of the old rows with `c[j]` lowered by `q * c[i]`. |
| `Span.RowOpSameLattice` | main.js:93 | With i != j the operation leaves the lattice spanned by the rows unchanged. |
| `SizeReduction.SizeReduce` | main.js:85-96 | With `mu[i][j]` in [-1/2, 1/2] nothing changes. Otherwise, with `q = Math.round(mu[i][j])`, basis row i loses `q` times row j, and `mu[i][k]` loses `q * mu[j][k]` for k <= j. Every other row, the entries `mu[i][k]` with k > j, `gsoMat` and `B` are unchanged. A `j` past the last row leaves `this.mu[i][j]` undefined, so nothing changes. When `mu[j][j] == 1`, the new `mu[i][j]` lies in [-1/2, 1/2], and in [-1/2, 1/2) if a reduction took place. |
| `SizeReduction.SizeReduceBasis` | main.js:89-94 | The new basis is the row operation with multiplier q (0 when nothing is done). For i != j the old basis is recovered with -q. |
| `SizeReduction.SizeReducePreservesLattice` | main.js:93 | For i != j `sizeReduce` leaves the lattice spanned by the basis unchanged. |
| `SizeReduction.SizeReduceCoefficients` | main.js:93 | For i != j, each combination of the new basis is a combination of the old basis, with the coefficient change spelled out. |
| `SizeReduction.ReducedRowReconstructs` | main.js:89-94 | For j < i, if rows i and j are recovered from `gsoMat` and `mu` before the call, row i is recovered after it. |
| `SizeReduction.SizeReducePreservesReconstruction` | main.js:89-94 | For j < i, if every row is recovered from `gsoMat` and `mu` before the call, every row is recovered after it, without recomputing `gsoMat`. |
| `AsWritten.StateAtThrow` | main.js:63-71 | What the object holds when line 71 throws. Row 0 is complete. Row 1 has `mu[1][1] == 1` and its basis copied into `gsoMat`. Nothing else has changed. |
| `AsWritten.ComputeGsoAsWritten` | main.js:70-75 | The code as written throws a ReferenceError exactly when there are at least two rows. On fewer than two rows it agrees with the intended computation and succeeds. |
| `AsWritten.AsWrittenThrowsOnNew` | main.js:71-73 | On every constructed lattice with at least two rows, the code as written throws while the intended computation succeeds. |
| `AsWritten.AsWrittenThrowsOnTwoByTwo` | main.js:71-73 | The concrete instance `new Lattice(2, 2)` with both draws 0. |

## Left out

- `print` (main.js:32-42) and `clicked` (main.js:99-105) build HTML and touch the DOM, so they are not modelled.
- `Math.random()` is not modelled. Its values are passed to `Lattices.New` as `draws`, each in [0, 1).
- IEEE-754 double rounding is not modelled. `mu`, `gsoMat` and `B` are exact reals, so the results are the values the doubles approximate.
- The basis entries are JavaScript doubles too. Their integer arithmetic stops being exact above 2^53. The model's basis entries are unbounded `int`, which does not capture this.
- Division by a zero squared norm is not modelled. JavaScript would store NaN or Infinity in `mu` and carry on. `Gso.ComputeGso` instead returns `Degenerate(t)`. Constructed lattices never reach this case (`Gso.NewNonDegenerate`).
- `Lattices.New` requires `nrows <= ncols`. With more rows than columns, main.js:23 writes past the end of a row and JavaScript grows the array. Those shapes are outside the model.
- `Vectors.Dot` and `Vectors.DotProduct` require `|x| <= |y|`. A shorter `y` would make JavaScript read `undefined` and return NaN.
- `SizeReduction.SizeReduce` requires i to be a row of the lattice. With any other i, `this.mu[i]` is undefined and JavaScript throws a TypeError; that path is not modelled. A `j` past the last row is modelled as the no-op it is. A negative or fractional `j` is also a no-op in JavaScript, but indices here are `nat`, so those values are outside the model.
- `SizeReduction.SizeReduce` gives its bound on the new `mu[i][j]` only when `mu[j][j] == 1`, which `computeGso` guarantees. With another diagonal entry the code gives no bound either.
- The lattice-preservation lemmas need i != j. With i == j, `sizeReduce` multiplies row i by 1 - q. That operation is not unimodular unless q is 0 or 2 (at q == 2 the row is negated), and the code does not exclude it.
- `Vectors.DotSelfNonNegative` proves only that a squared norm is not negative. That it is zero only for the zero vector is not proved, and nothing else in the model needs it.
- `AsWritten.ComputeGsoAsWritten` describes only the state left behind by the throw. It does not model propagation of the exception to the caller.
- LLL, Deep-LLL and enumeration are not part of this model. The class has no such methods.

## Findings

| source | as written | input that shows it | evidently intended | confidence | as-written member | corrected member |
|---|---|---|---|---|---|---|
| main.js:71-73 | `computeGso` reads and writes `mu[i][j]` and reads `basis[i]` without `this.`. In the strict-mode class body these names are unbound, so the first inner iteration throws a ReferenceError. | `new Lattice(2, 2)` followed by `computeGso()` (any draws) | `this.mu[i][j]` and `this.basis[i]`: the coefficient and basis row of the object | high; not executed | `AsWritten.AsWrittenThrowsOnNew` | `Gso.ComputeGso` |
