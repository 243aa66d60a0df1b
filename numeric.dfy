/**
 * The helper routines every solver file defines: the squareness test, the diagonal-dominance test, the
 * matrix-vector product, the infinity norm and the residual. Each loop is proved against the
 * value-level definition in LinearAlgebra.
 */
module Numeric {
  import opened LinearAlgebra
  import opened Results

  /** x = [0.0]*n if x0 is None else x0[:]: the starting vector of both iterative methods. */
  function InitialGuess(n: nat, x0: Option<Vector>): (g: Vector)
    requires x0.Some? ==> |x0.value| == n
    ensures |g| == n
    ensures x0.None? ==> forall i :: 0 <= i < n ==> g[i] == 0.0
    ensures x0.Some? ==> g == x0.value
  {
    if x0.None? then Zeros(n) else x0.value
  }

  /** es_cuadrada: all(len(fila) == n for fila in A), checked row by row until one differs. */
  method IsSquareMatrix(A: Matrix) returns (sq: bool)
    ensures sq <==> IsSquare(A)
    ensures !sq <==> exists i :: 0 <= i < |A| && |A[i]| != |A|
  {
    var n := |A|;
    for i := 0 to n
      invariant forall t :: 0 <= t < i ==> |A[t]| == n
    {
      if |A[i]| != n {
        return false;
      }
    }
    return true;
  }

  /** sum(abs(A[i][j]) for j in range(n) if j != i): the off-diagonal mass of row i. */
  method OffDiagonalMass(row: Vector, i: nat) returns (s: real)
    ensures s == AbsSumExcept(row, i, |row|)
    ensures s >= 0.0
  {
    s := 0.0;
    for j := 0 to |row|
      invariant s == AbsSumExcept(row, i, j)
    {
      if j != i {
        s := s + Abs(row[j]);
      }
    }
    AbsSumExceptNonNegative(row, i, |row|);
  }

  /**
   * es_diagonal_dominante: true exactly when every row's diagonal entry exceeds, in absolute
   * value, the sum of the absolute values of the other entries; stops at the first row that fails.
   */
  method IsDiagonallyDominant(A: Matrix) returns (dd: bool)
    requires IsSquare(A)
    ensures dd <==> forall i :: 0 <= i < |A| ==> Abs(A[i][i]) > AbsSumExcept(A[i], i, |A|)
    ensures dd ==> NonZeroDiagonal(A)
  {
    var n := |A|;
    for i := 0 to n
      invariant forall t :: 0 <= t < i ==> Abs(A[t][t]) > AbsSumExcept(A[t], t, n)
    {
      var diag := Abs(A[i][i]);
      var mass := OffDiagonalMass(A[i], i);
      if !(diag > mass) {
        return false;
      }
    }
    DominantHasNonZeroDiagonal(A);
    return true;
  }

  /** producto_matriz_vector: entry i is the left-to-right sum of A[i][j] * x[j]. */
  method MatVecProduct(A: Matrix, x: Vector) returns (res: Vector)
    requires IsSquare(A) && |x| == |A|
    ensures |res| == |A|
    ensures forall i :: 0 <= i < |A| ==> res[i] == Dot(A[i], x)
    ensures res == MatVec(A, x)
  {
    var n := |A|;
    res := Zeros(n);
    for i := 0 to n
      invariant |res| == n
      invariant forall t :: 0 <= t < i ==> res[t] == Dot(A[t], x)
    {
      var s := 0.0;
      for j := 0 to n
        invariant s == Sum(A[i], x, 0, j)
      {
        s := s + A[i][j] * x[j];
      }
      res := res[i := s];
    }
  }

  /** norma_infinito on finite entries: the largest |v_i|, and 0 for the empty vector. */
  method InfinityNorm(v: Vector) returns (m: real)
    ensures m == Norm(v)
    ensures m >= 0.0
    ensures forall i :: 0 <= i < |v| ==> Abs(v[i]) <= m
    ensures |v| > 0 ==> exists i :: 0 <= i < |v| && m == Abs(v[i])
  {
    m := 0.0;
    for i := 0 to |v|
      invariant m == Norm(v[..i])
    {
      assert v[..i + 1][..i] == v[..i];
      var av := Abs(v[i]);
      if av > m {
        m := av;
      }
    }
    assert v[..|v|] == v;
    NormIsMaximum(v);
  }

  /**
   * residuo on a finite x: r = b - A*x entry by entry (zip stops at the shorter of b and A*x)
   * and its infinity norm, which is zero exactly when x solves the system.
   */
  method Residual(A: Matrix, x: Vector, b: Vector) returns (r: Vector, nr: real)
    requires IsSquare(A) && |x| == |A|
    ensures |r| == if |b| < |A| then |b| else |A|
    ensures forall i :: 0 <= i < |r| ==> r[i] == b[i] - Dot(A[i], x)
    ensures nr == Norm(r)
    ensures |b| == |A| ==> (nr == 0.0 <==> Solves(A, b, x))
  {
    var ax := MatVecProduct(A, x);
    var len := if |b| < |A| then |b| else |A|;
    r := seq(len, i requires 0 <= i < len => b[i] - ax[i]);
    nr := InfinityNorm(r);
    if |b| == |A| {
      ResidualZeroIffSolves(A, b, x, r);
    }
  }
}
