# Linear-system solvers over exact reals

This project models four classic solvers for a square linear system A·x = b:

- Gaussian elimination with optional partial pivoting, then back substitution (`eliminacion_gauss`);
- Gauss-Jordan reduction to the identity (`gauss_jordan`);
- the Jacobi iteration (`jacobi`);
- the Gauss-Seidel iteration (`gauss_seidel`).

It also models the helpers that every solver file carries its own copy of: `copiar_matriz`,
`es_cuadrada`, `es_diagonal_dominante`, `producto_matriz_vector`, `norma_infinito` and `residuo`.
All arithmetic is over Dafny's exact `real`. Floats are not modelled, so over exact reals the
direct solvers really solve the system: when one returns a vector, it is proved to be the only
solution of A·x = b.

The modules:

- `Results`: the error kinds the solvers raise and the `(x, iterations, converged)` triple of the
  iterative methods.
- `LinearAlgebra`: the value-level definitions (sums accumulated left to right as the loops do,
  dot product, matrix-vector product, infinity norm, what it means to solve a system, singularity
  as a nonzero kernel vector) and the row operations. It proves that swapping rows, subtracting a
  multiple of a row and dividing a row by a nonzero pivot all keep the solution set and the kernel
  (`RowEquivalent`).
- `RowReduction`: the working copy both direct solvers reduce in place, stored as an
  `array2<real>` plus an `array<real>`. It also holds the pivot choice, the row swap, the pivot
  step with its two failure modes, and the row subtraction, each with its value-level counterpart.
- `Reduction`: both direct solvers on values. One column step of Gaussian elimination clears the
  rows below the pivot. One column step of Gauss-Jordan divides the pivot row and clears every
  other row. `Stage` is the run of column steps, each after its pivot step, up to the first error.
  It fixes the outcome of both solvers, with pivoting and without.
- `GaussElimination` and `GaussJordanReduction`: the direct solvers, proved to compute exactly
  what `Reduction` describes.
- `Numeric`: the shared helper loops, each proved against its value-level definition.
- `JacobiIteration` and `GaussSeidelIteration`: each defines one sweep as a function, the k-th
  iterate, and the stopping quantity (the infinity norm of the last update). Each has a solver
  loop proved against these definitions.

`es_cuadrada` is the loop `Numeric.IsSquareMatrix`, proved equal to the predicate
`LinearAlgebra.IsSquare`: every row has as many entries as the matrix has rows. It appears in the
dimension-error contracts of both direct solvers. Because the
two direct solvers each return the unique solution, they agree on every system both solve.

Gaussian elimination raises two different "singular" messages: one for a zero best pivot during
elimination and one for a zero final diagonal entry. The model keeps them as two error kinds,
`SingularPivot` and `SingularLastPivot`.

## Model

| member | source | states |
|---|---|---|
| RowReduction.CopySystem | Eliminacion_Gauss.py:74-76 | the working matrix and right-hand side are fresh arrays holding exactly A and b, so the caller's data is never touched |
| RowReduction.PivotRow | Eliminacion_Gauss.py:86 | the value of max(range(k, n), key=abs of column k): a row in [k, n) whose magnitude in column k is at least that of every row from k on, with every row before it strictly smaller |
| RowReduction.Pivoted | Eliminacion_Gauss.py:85-94 | with pivoting the step fails exactly when column k is zero from row k down, without pivoting exactly when the diagonal entry is zero; the error is SingularPivot with pivoting and ZeroPivot without; on success the pivot is nonzero |
| RowReduction.ChoosePivot | Eliminacion_Gauss.py:86 | the pivot row p lies in [k, n), its magnitude in column k is at least that of every row from k on, and every row before p is strictly smaller (first maximum); it is the row `PivotRow` gives |
| RowReduction.SwapRows | Eliminacion_Gauss.py:89-91 | rows k and p of A and entries k and p of b are exchanged and every other entry is unchanged; the system stays equivalent |
| RowReduction.PivotStep | Eliminacion_Gauss.py:85-94 | with pivoting it fails exactly when the whole column from k down is zero, otherwise swaps in the first maximal row; without pivoting it fails exactly when A[k][k] is zero; on failure nothing changes, on success the pivot is nonzero; the outcome is exactly `Pivoted` of the old system; the system stays equivalent |
| RowReduction.SubtractRow | Eliminacion_Gauss.py:100-102 | row i becomes row i minus m times row k (the skipped leading columns of row k are zero) and b[i] becomes b[i] - m*b[k]; nothing else changes and the system stays equivalent |
| Reduction.EliminatedBelowFrame | Eliminacion_Gauss.py:97 | the elimination step leaves row k, the rows above it and the rows not yet reached untouched |
| Reduction.EliminatedBelowEntries | Eliminacion_Gauss.py:97-102 | after the step every row r below k is row r minus A[r][k]/A[k][k] times the original row k, and b[r] is b[r] minus the same multiple of b[k] |
| Reduction.EliminatedBelowKeepsEarlierColumns | Eliminacion_Gauss.py:96-102 | when row k is zero before column k, the step changes no entry in rows up to k or in the columns before k, so subtracting the whole row is the same as subtracting from column k on |
| Reduction.EliminatedBelowClearsColumn | Eliminacion_Gauss.py:96-102 | after the step, column k is zero below the pivot |
| Reduction.SwapKeepsStaircase | Eliminacion_Gauss.py:89-91 | exchanging row k with a row at or below it keeps columns 0..k-1 zero below a nonzero diagonal |
| Reduction.EliminatedBelowExtendsStaircase | Eliminacion_Gauss.py:96-102 | if columns 0..k-1 are zero below a nonzero diagonal and the pivot is nonzero, then after the step columns 0..k are |
| Reduction.ClearedOthersEntries | Gauss_Jordan.py:91-96 | after step 3 every row r other than k is row r minus A[r][k] times row k, and b[r] likewise; rows not yet reached are untouched |
| Reduction.ReducedColumnEntries | Gauss_Jordan.py:86-96 | after a Gauss-Jordan column step row k is the old row k divided by the pivot, every other row r has lost A[r][k] times that new row (b likewise), and column k is the unit vector e_k |
| Reduction.StageStopsAtError | Eliminacion_Gauss.py:84-94 | once a pivot step has raised, the run of column steps reports that error and takes no later step |
| Reduction.StageFailsIff | Eliminacion_Gauss.py:84-94 | the column steps 0..k-1 fail exactly when the pivot step of one of those columns fails on the system reached before it |
| Reduction.NoPivotFailsIffZeroDiagonal | Eliminacion_Gauss.py:92-94 | without pivoting a solver raises ZeroPivot exactly when, for some column j, the diagonal entry reached after the steps for columns 0..j-1 is zero |
| Reduction.PivotingFailsIffZeroColumn | Eliminacion_Gauss.py:85-88 | with pivoting a solver raises SingularPivot exactly when, for some column j, the system reached after the steps for columns 0..j-1 is zero in column j from row j down |
| GaussElimination.EliminateBelow | Eliminacion_Gauss.py:96-102 | the new system is exactly `EliminatedBelow` of the old one: every row r below k has lost A[r][k]/A[k][k] times row k, and b[r] the same multiple of b[k]; rows up to k and the columns before k are untouched, column k is zero below the pivot, and the system is equivalent to the one before |
| GaussElimination.ForwardElimination | Eliminacion_Gauss.py:84-102 | the error, or the reduced system on success, is exactly `Stage` of the input after the columns 0..n-2; the error is SingularPivot with pivoting and ZeroPivot without; a SingularPivot failure means the reduced matrix is singular; on success the matrix is upper triangular with nonzero pivots in columns 0..n-2 (`Staircase`); the system stays equivalent throughout |
| GaussElimination.RowResidual | Eliminacion_Gauss.py:112-114 | s is b[i] minus the sum of A[i][j]·x[j] over the columns j after i, accumulated in the loop's order |
| GaussElimination.BackSubstitution | Eliminacion_Gauss.py:108-116 | on an upper-triangular system with nonzero diagonal, the vector computed from the last row up solves the system exactly |
| GaussElimination.EliminationStep | Eliminacion_Gauss.py:85-102 | one column of the elimination in place: the result is exactly the next `Stage`; a SingularPivot failure means the reduced matrix is singular; on success column k is reduced as well |
| GaussElimination.LastPivotAndSubstitution | Eliminacion_Gauss.py:104-116 | raises SingularLastPivot exactly when the last diagonal entry is zero, and then the reduced matrix is singular; otherwise the vector returned is the one solution of the reduced system |
| GaussElimination.NoPivotIdentityRaisesNothing | Eliminacion_Gauss.py:92-102 | without pivoting, elimination of the 2-by-2 identity with b = [1, 1] raises nothing |
| GaussElimination.Solve | Eliminacion_Gauss.py:73-116 | DimensionMismatch exactly when A is not square or b has the wrong length; otherwise it raises exactly the error `Failure` gives (the error that stopped elimination, or SingularLastPivot when the reduced last pivot is zero) and returns a vector exactly when `Failure` gives none; a returned x solves A·x = b and is its only solution; SingularPivot and SingularLastPivot mean A is singular; with pivoting it succeeds exactly when A is nonsingular |
| GaussJordanReduction.DivideRow | Gauss_Jordan.py:86-89 | row k of A and entry k of b are divided by the same pivot, so A[k][k] becomes 1; nothing else changes and the system stays equivalent |
| GaussJordanReduction.EliminateOthers | Gauss_Jordan.py:91-96 | the new system is exactly `ClearedOthers` of the old one: every row r other than k has lost A[r][k] times row k, and b[r] the same multiple of b[k]; with a unit pivot column k becomes zero in every other row; row k and the columns before k are untouched; the system stays equivalent |
| GaussJordanReduction.ReduceColumn | Gauss_Jordan.py:86-96 | the new system is exactly `ReducedColumn` of the old one (row k divided by the pivot, then A[r][k] times the new row k taken from every other row); if columns 0..k-1 are the unit vectors e_0..e_{k-1}, then afterwards columns 0..k are e_0..e_k; the system stays equivalent |
| GaussJordanReduction.ReductionStep | Gauss_Jordan.py:74-96 | one column of Gauss-Jordan in place: the result is exactly the next `Stage`; a SingularPivot failure means the matrix is singular; on success column k is the unit vector e_k as well |
| GaussJordanReduction.ReduceColumns | Gauss_Jordan.py:72-96 | the error, or the reduced system on success, is exactly `Stage` of the input after all n columns; the error is SingularPivot with pivoting and ZeroPivot without; a SingularPivot failure means the matrix reached is singular; on success the matrix is the identity; the system stays equivalent throughout |
| GaussJordanReduction.Solve | Gauss_Jordan.py:64-99 | DimensionMismatch exactly when A is not square or b has the wrong length; otherwise the result is exactly `Stage` of the input after all n columns: its error, or its right-hand side; a returned vector is exactly the set of solutions of A·x = b (it solves, and nothing else does); SingularPivot comes only with pivoting and means A is singular; ZeroPivot comes only without pivoting; with pivoting it succeeds exactly when A is nonsingular |
| Numeric.IsSquareMatrix | Eliminacion_Gauss.py:5-7 | true exactly when every row has as many entries as the matrix has rows; false exactly when some row has a different length |
| Numeric.OffDiagonalMass | Eliminacion_Gauss.py:14 | the sum of the absolute values of a row's entries other than the diagonal, which is never negative |
| Numeric.IsDiagonallyDominant | Eliminacion_Gauss.py:9-17 | true exactly when every row has abs(A[i][i]) strictly greater than the sum of the absolute values of its other entries; a dominant matrix has no zero on its diagonal |
| Numeric.MatVecProduct | Eliminacion_Gauss.py:19-27 | a length-n vector whose entry i is the dot product of row i with x |
| Numeric.InfinityNorm | Eliminacion_Gauss.py:35-43 | the result is at least 0, bounds abs(v[i]) for every i, is 0 on the empty vector and equals some abs(v[i]) otherwise |
| Numeric.Residual | Eliminacion_Gauss.py:45-50 | r[i] = b[i] - (A·x)[i] over the common length of b and A·x, and its norm is zero exactly when x solves the system |
| Numeric.InitialGuess | Jacobi.py:65 | the starting vector has length n; it is all zeros without x0 and equal to x0 otherwise |
| LinearAlgebra.NormIsMaximum | Jacobi.py:31-38 | the infinity norm is non-negative, bounds every entry's magnitude, is 0 on the empty vector and is attained by some entry |
| LinearAlgebra.NormZeroIff | Jacobi.py:31-38 | the infinity norm is zero exactly for the all-zero vector |
| LinearAlgebra.SolvesIffMatVec | Gauss_Seidel.py:16-24 | x solves A·x = b exactly when the matrix-vector product of A and x equals b |
| LinearAlgebra.ResidualZeroIffSolves | Gauss_Jordan.py:41-46 | the residual b - A·x has norm zero exactly when x solves the system |
| LinearAlgebra.DominantHasNonZeroDiagonal | Jacobi.py:8-13 | a strictly diagonally dominant matrix has no zero diagonal entry, so the iterative methods never raise on it |
| LinearAlgebra.SwapKeepsEquivalence | Eliminacion_Gauss.py:89-91 | exchanging two rows of A and the matching entries of b changes neither the solutions nor the kernel |
| LinearAlgebra.RowMinusKeepsEquivalence | Eliminacion_Gauss.py:100-102 | subtracting a multiple of another row (and of its b entry) changes neither the solutions nor the kernel |
| LinearAlgebra.RowDividedKeepsEquivalence | Gauss_Jordan.py:86-89 | dividing a row and its b entry by a nonzero pivot changes neither the solutions nor the kernel |
| LinearAlgebra.TriangularSolutionUnique | Eliminacion_Gauss.py:105-116 | an upper-triangular system with a nonzero diagonal has at most one solution |
| LinearAlgebra.IdentitySolutions | Gauss_Jordan.py:98-99 | once A is the identity, the only solution is the reduced right-hand side |
| LinearAlgebra.StaircaseIsSingular | Eliminacion_Gauss.py:87-88 | when the columns before k are reduced with nonzero pivots and column k is zero from row k down, the matrix has a nonzero kernel vector |
| JacobiIteration.Component | Jacobi.py:69-76 | the new component i satisfies row i of the system with the old values for all the other unknowns |
| JacobiIteration.SweepEquation | Jacobi.py:68-76 | every component of a sweep satisfies its row with the previous iterate for the off-diagonal unknowns |
| JacobiIteration.SweepFixedPointIffSolves | Jacobi.py:68-76 | a sweep leaves x unchanged exactly when x solves the system |
| JacobiIteration.ChangeZeroIffSolution | Jacobi.py:83-85 | the stopping quantity of sweep k is zero exactly when the iterate the sweep started from solves the system |
| JacobiIteration.SolutionIsKept | Jacobi.py:67-87 | started from a solution, every iterate equals it |
| JacobiIteration.SweepOnce | Jacobi.py:68-76 | the sweep raises exactly when some diagonal entry is zero, and otherwise yields the Jacobi sweep of the previous iterate |
| JacobiIteration.Solve | Jacobi.py:62-90 | ZeroDiagonal exactly when maxiter >= 1 and a diagonal entry is zero; maxiter <= 0 returns the initial guess, maxiter and false; the count never exceeds maxiter; converged only at a sweep k >= 1 whose update norm is below tol, with x the k-th iterate; every earlier sweep's update norm is at least tol; otherwise the count is maxiter and x is the maxiter-th iterate |
| GaussSeidelIteration.Component | Gauss_Seidel.py:72-87 | the new component i satisfies row i of the system with the current values of all the other unknowns |
| GaussSeidelIteration.PartialSweep | Gauss_Seidel.py:72-87 | after the first i updates of a sweep, the components from i on still hold the previous iterate's values |
| GaussSeidelIteration.UpdatedStays | Gauss_Seidel.py:72-87 | a component, once updated, is not changed again during the sweep |
| GaussSeidelIteration.SweepRow | Gauss_Seidel.py:72-87 | component i of a sweep satisfies row i with this sweep's values before i and the previous iterate's values after i |
| GaussSeidelIteration.SweepEquation | Gauss_Seidel.py:72-87 | the same balance holds for every row at once |
| GaussSeidelIteration.SweepFixedPointIffSolves | Gauss_Seidel.py:72-87 | a sweep leaves x unchanged exactly when x solves the system |
| GaussSeidelIteration.SolutionIsFixed | Gauss_Seidel.py:72-87 | started from a solution, no update of a sweep changes anything |
| GaussSeidelIteration.ChangeZeroIffSolution | Gauss_Seidel.py:94-96 | the update norm x - x_old of sweep k is zero exactly when x_old solves the system |
| GaussSeidelIteration.SweepInPlace | Gauss_Seidel.py:72-87 | the in-place sweep raises exactly when some diagonal entry is zero, and otherwise yields the Gauss-Seidel sweep of the snapshot |
| GaussSeidelIteration.Solve | Gauss_Seidel.py:64-99 | ZeroDiagonal exactly when maxiter >= 1 and a diagonal entry is zero; maxiter <= 0 returns the initial guess, maxiter and false; the count never exceeds maxiter; converged only at a sweep k >= 1 whose update norm is below tol, with x the k-th iterate; every earlier sweep's update norm is at least tol; otherwise the count is maxiter and x is the maxiter-th iterate |

## Left out

- Floating point: every value is an exact real. Rounding, and accuracy claims such as a residual below 1e-8, are not modelled.
- NaN and infinity: `vector_finito`, the infinity branch of `norma_infinito`, the NaN branch of `residuo`, and the divergence exits of `jacobi` (Jacobi.py:79-80) and `gauss_seidel` (Gauss_Seidel.py:90-91). Over exact reals every iterate is finite, so these branches never fire.
- Convergence of Jacobi and Gauss-Seidel on diagonally dominant matrices: proving it needs contraction arguments that the code itself does not make. The model proves what each sweep computes and when the loops stop, not that they stop early.
- Printing and drivers: `imprimir_vector`, `casos_prueba` and `main` in all four files.
- Default arguments: `x0=None` becomes an `Option`, and `tol` and `maxiter` are explicit parameters.
- GaussElimination.Solve: requires A or b to be nonempty. With both empty the source fails on `A[n-1][n-1]` with an IndexError, which the model does not reproduce.
- JacobiIteration.Solve: requires a square A, a b of length n and an x0 of length n. The source never checks these shapes. With maxiter <= 0 it returns a copy of x0 as given, whatever its length. Once a sweep runs, a short row, b or x0 may raise IndexError, unless a zero diagonal entry in an earlier row raises the zero-diagonal error first. Extra entries in A's rows and in b are ignored, and every iterate has length n, so extra entries of x0 are dropped after the first sweep.
- GaussSeidelIteration.Solve: the same shape requirements as Jacobi. On other shapes the source behaves as Jacobi's does, except that it updates x0's copy in place: a longer x0 comes back with its extra entries unchanged, whatever maxiter is.
- Numeric.IsDiagonallyDominant, Numeric.MatVecProduct, Numeric.Residual: require a square A, and the product and the residual an x of length n. The source never checks these shapes. The product and the residual raise IndexError on a short row or a short x. `es_diagonal_dominante` returns False at the first non-dominant row, so a short row raises IndexError only when every row before it is dominant. All three ignore entries beyond column n.
- RowReduction.SwapRows: the source swaps two row references, while the model swaps the entries of two rows of an `array2`. The two are the same on the working copy, which no one else can see; aliasing between rows is not modelled.
- GaussElimination.Solve, GaussJordanReduction.Solve: the dimension check runs before the copy is made, whereas the source copies first. The copy has no visible effect, so the results are the same.
- The helpers are identical in the four files. Each is modelled once and cited at one of its copies.
