/**
 * jacobi: every sweep computes each new component from the previous iterate only,
 * x_new[i] = (b[i] - sum over j != i of A[i][j] * x[j]) / A[i][i], and stops once the largest
 * change between two iterates is below the tolerance. Arithmetic is exact.
 */
module JacobiIteration {
  import opened LinearAlgebra
  import opened Results
  import opened Numeric

  /** x_new[i] = (b[i] - s) / A[i][i], with s the off-diagonal sum of row i over the old x. */
  function Component(A: Matrix, b: Vector, x: Vector, i: nat): (v: real)
    requires IsSquare(A) && |b| == |A| && |x| == |A| && i < |A| && A[i][i] != 0.0
    ensures A[i][i] * v + SumExcept(A[i], x, i, |A|) == b[i]
  {
    var v := (b[i] - SumExcept(A[i], x, i, |A|)) / A[i][i];
    QuotientTimesDivisor(b[i] - SumExcept(A[i], x, i, |A|), A[i][i], v);
    v
  }

  /** One Jacobi sweep applied to x: every component from the old x only. */
  function Sweep(A: Matrix, b: Vector, x: Vector): (y: Vector)
    requires IsSquare(A) && |b| == |A| && |x| == |A| && NonZeroDiagonal(A)
    ensures |y| == |A|
  {
    seq(|A|, i requires 0 <= i < |A| => Component(A, b, x, i))
  }

  /** Row i of the system holds with the new diagonal unknown and the old off-diagonal ones. */
  lemma SweepEquation(A: Matrix, b: Vector, x: Vector)
    requires IsSquare(A) && |b| == |A| && |x| == |A| && NonZeroDiagonal(A)
    ensures forall i :: 0 <= i < |A| ==> A[i][i] * Sweep(A, b, x)[i] + SumExcept(A[i], x, i, |A|) == b[i]
  {
    forall i | 0 <= i < |A| ensures A[i][i] * Sweep(A, b, x)[i] + SumExcept(A[i], x, i, |A|) == b[i] {
      assert Sweep(A, b, x)[i] == Component(A, b, x, i);
    }
  }

  /** The solutions of the system are exactly the fixed points of a sweep. */
  lemma SweepFixedPointIffSolves(A: Matrix, b: Vector, x: Vector)
    requires IsSquare(A) && |b| == |A| && |x| == |A| && NonZeroDiagonal(A)
    ensures Sweep(A, b, x) == x <==> Solves(A, b, x)
  {
    var n := |A|;
    var y := Sweep(A, b, x);
    SweepEquation(A, b, x);
    forall i | 0 <= i < n ensures Dot(A[i], x) == A[i][i] * x[i] + SumExcept(A[i], x, i, n) {
      SumExceptIsSumMinusTerm(A[i], x, i, n);
    }
    if Solves(A, b, x) {
      forall i | 0 <= i < n ensures y[i] == x[i] {
        SameBalance(A[i][i], y[i], x[i], SumExcept(A[i], x, i, n), 0.0, b[i]);
      }
    }
  }

  /** The iterate after k sweeps from x0. */
  function Iterate(A: Matrix, b: Vector, x0: Vector, k: nat): (x: Vector)
    requires IsSquare(A) && |b| == |A| && |x0| == |A| && (k == 0 || NonZeroDiagonal(A))
    ensures |x| == |A|
  {
    if k == 0 then x0 else Sweep(A, b, Iterate(A, b, x0, k - 1))
  }

  /** The stopping quantity of sweep k: the infinity norm of x^(k) - x^(k-1). */
  function Change(A: Matrix, b: Vector, x0: Vector, k: nat): real
    requires IsSquare(A) && |b| == |A| && |x0| == |A| && NonZeroDiagonal(A) && k >= 1
  {
    Norm(Diff(Iterate(A, b, x0, k), Iterate(A, b, x0, k - 1)))
  }

  /** A sweep changes nothing exactly when the iterate it starts from already solves the system. */
  lemma ChangeZeroIffSolution(A: Matrix, b: Vector, x0: Vector, k: nat)
    requires IsSquare(A) && |b| == |A| && |x0| == |A| && NonZeroDiagonal(A) && k >= 1
    ensures Change(A, b, x0, k) == 0.0 <==> Solves(A, b, Iterate(A, b, x0, k - 1))
  {
    var x := Iterate(A, b, x0, k - 1);
    var y := Iterate(A, b, x0, k);
    var d := Diff(y, x);
    NormZeroIff(d);
    SweepFixedPointIffSolves(A, b, x);
    if Norm(d) == 0.0 {
      assert forall i :: 0 <= i < |A| ==> y[i] - x[i] == d[i] == 0.0;
      assert y == x;
    }
  }

  /** Once an iterate solves the system, every later sweep returns it unchanged. */
  lemma {:induction false} SolutionIsKept(A: Matrix, b: Vector, x0: Vector, k: nat)
    requires IsSquare(A) && |b| == |A| && |x0| == |A| && NonZeroDiagonal(A)
    requires Solves(A, b, x0)
    ensures Iterate(A, b, x0, k) == x0
  {
    if k > 0 {
      SolutionIsKept(A, b, x0, k - 1);
      SweepFixedPointIffSolves(A, b, x0);
    }
  }

  /**
   * The body of one pass of jacobi's outer loop: x_new is filled row by row from the old x.
   * It raises (None) at the first row with a zero diagonal entry.
   */
  method SweepOnce(A: Matrix, b: Vector, x: Vector) returns (xNew: Option<Vector>)
    requires IsSquare(A) && |b| == |A| && |x| == |A|
    ensures xNew.None? <==> !NonZeroDiagonal(A)
    ensures xNew.Some? ==> xNew.value == Sweep(A, b, x)
  {
    var n := |A|;
    var y := Zeros(n);
    for i := 0 to n
      invariant |y| == n
      invariant forall t :: 0 <= t < i ==> A[t][t] != 0.0
      invariant forall t :: 0 <= t < i ==> y[t] == Component(A, b, x, t)
    {
      var s := 0.0;
      for j := 0 to n
        invariant s == SumExcept(A[i], x, i, j)
      {
        if j != i {
          s := s + A[i][j] * x[j];
        }
      }
      if A[i][i] == 0.0 {
        return None;
      }
      y := y[i := (b[i] - s) / A[i][i]];
    }
    return Some(y);
  }

  /**
   * jacobi(A, b, x0, tol, maxiter) on finite values. It raises on a zero diagonal entry during
   * the first sweep; otherwise it returns the first iterate whose change is below tol, or the
   * last one with the count maxiter when no sweep got there.
   */
  method Solve(A: Matrix, b: Vector, x0: Option<Vector>, tol: real, maxiter: int) returns (r: Result<IterResult>)
    requires IsSquare(A) && |b| == |A| && (x0.Some? ==> |x0.value| == |A|)
    ensures r.Err? <==> maxiter >= 1 && !NonZeroDiagonal(A)
    ensures r.Err? ==> r.error == ZeroDiagonal
    ensures maxiter <= 0 ==> r == Ok(IterResult(InitialGuess(|A|, x0), maxiter, false))
    ensures r.Ok? ==> r.value.iterations <= maxiter
    ensures r.Ok? && r.value.converged ==>
      1 <= r.value.iterations &&
      r.value.x == Iterate(A, b, InitialGuess(|A|, x0), r.value.iterations) &&
      Change(A, b, InitialGuess(|A|, x0), r.value.iterations) < tol
    ensures r.Ok? && !r.value.converged ==>
      r.value.iterations == maxiter &&
      r.value.x == Iterate(A, b, InitialGuess(|A|, x0), if maxiter < 0 then 0 else maxiter)
    ensures r.Ok? ==> forall k :: 1 <= k <= maxiter && (!r.value.converged || k < r.value.iterations) ==>
      Change(A, b, InitialGuess(|A|, x0), k) >= tol
  {
    var n := |A|;
    var x := InitialGuess(n, x0);
    ghost var g := x;
    var it := 1;
    while it <= maxiter
      invariant 1 <= it <= (if maxiter < 0 then 0 else maxiter) + 1
      invariant it > 1 ==> NonZeroDiagonal(A)
      invariant x == Iterate(A, b, g, it - 1)
      invariant forall k :: 1 <= k < it ==> Change(A, b, g, k) >= tol
      decreases maxiter - it
    {
      var sweep := SweepOnce(A, b, x);
      if sweep.None? {
        return Err(ZeroDiagonal);
      }
      var xNew := sweep.value;
      assert xNew == Iterate(A, b, g, it);
      var diff := Diff(xNew, x);
      var change := InfinityNorm(diff);
      assert change == Change(A, b, g, it);
      if change < tol {
        return Ok(IterResult(xNew, it, true));
      }
      x := xNew;
      it := it + 1;
    }
    return Ok(IterResult(x, maxiter, false));
  }
}
