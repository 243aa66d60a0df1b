/**
 * gauss_seidel: like Jacobi, but each component is overwritten as soon as it is computed, so
 * row i already sees the new values of components 0..i-1. Stops once the largest change over a
 * sweep is below the tolerance. Arithmetic is exact.
 */
module GaussSeidelIteration {
  import opened LinearAlgebra
  import opened Results
  import opened Numeric

  /**
   * x[i] = (b[i] - s1 - s2) / A[i][i] on the current vector y: s1 sums row i over the entries
   * before the diagonal, s2 over those after it.
   */
  function Component(A: Matrix, b: Vector, y: Vector, i: nat): (v: real)
    requires IsSquare(A) && |b| == |A| && |y| == |A| && i < |A| && A[i][i] != 0.0
    ensures A[i][i] * v + Sum(A[i], y, 0, i) + Sum(A[i], y, i + 1, |A|) == b[i]
  {
    var p := b[i] - Sum(A[i], y, 0, i) - Sum(A[i], y, i + 1, |A|);
    var v := p / A[i][i];
    QuotientTimesDivisor(p, A[i][i], v);
    v
  }

  /** x after the first i updates of a sweep; components from i on still hold their old values. */
  function PartialSweep(A: Matrix, b: Vector, x: Vector, i: nat): (y: Vector)
    requires IsSquare(A) && |b| == |A| && |x| == |A| && i <= |A|
    requires forall t :: 0 <= t < i ==> A[t][t] != 0.0
    ensures |y| == |A|
    ensures forall t :: i <= t < |A| ==> y[t] == x[t]
    decreases i
  {
    if i == 0 then x
    else
      var y := PartialSweep(A, b, x, i - 1);
      y[i - 1 := Component(A, b, y, i - 1)]
  }

  /** One full Gauss-Seidel sweep applied to x. */
  function Sweep(A: Matrix, b: Vector, x: Vector): (y: Vector)
    requires IsSquare(A) && |b| == |A| && |x| == |A| && NonZeroDiagonal(A)
    ensures |y| == |A|
  {
    PartialSweep(A, b, x, |A|)
  }

  /** A component, once updated, keeps its value for the rest of the sweep. */
  lemma {:induction false} UpdatedStays(A: Matrix, b: Vector, x: Vector, i: nat, j: nat)
    requires IsSquare(A) && |b| == |A| && |x| == |A| && i <= j <= |A|
    requires forall t :: 0 <= t < j ==> A[t][t] != 0.0
    ensures forall t :: 0 <= t < i ==> PartialSweep(A, b, x, j)[t] == PartialSweep(A, b, x, i)[t]
    decreases j
  {
    if j > i {
      UpdatedStays(A, b, x, i, j - 1);
    }
  }

  /**
   * Row i of the system holds when the unknowns up to i take their values from y and those
   * after i from x.
   */
  predicate RowHolds(A: Matrix, b: Vector, y: Vector, x: Vector, i: nat)
    requires IsSquare(A) && |b| == |A| && |y| == |A| && |x| == |A| && i < |A|
  {
    A[i][i] * y[i] + Sum(A[i], y, 0, i) + Sum(A[i], x, i + 1, |A|) == b[i]
  }

  /** Row i of the sweep equation. */
  lemma SweepRow(A: Matrix, b: Vector, x: Vector, i: nat)
    requires IsSquare(A) && |b| == |A| && |x| == |A| && NonZeroDiagonal(A) && i < |A|
    ensures RowHolds(A, b, Sweep(A, b, x), x, i)
  {
    var n := |A|;
    var y := Sweep(A, b, x);
    var before := PartialSweep(A, b, x, i);
    var v := Component(A, b, before, i);
    assert y[i] == v by {
      UpdatedStays(A, b, x, i + 1, n);
    }
    assert Sum(A[i], y, 0, i) == Sum(A[i], before, 0, i) by {
      UpdatedStays(A, b, x, i, n);
      SumSameEntries(A[i], y, before, 0, i);
    }
    assert Sum(A[i], x, i + 1, n) == Sum(A[i], before, i + 1, n) by {
      SumSameEntries(A[i], x, before, i + 1, n);
    }
    assert A[i][i] * v + Sum(A[i], before, 0, i) + Sum(A[i], before, i + 1, n) == b[i];
    Rebalance(A[i][i], y[i], v, Sum(A[i], y, 0, i), Sum(A[i], before, 0, i),
      Sum(A[i], x, i + 1, n), Sum(A[i], before, i + 1, n), b[i]);
  }

  /**
   * The sweep equation: row i holds with the new values of components 0..i and the old values
   * of the components after i.
   */
  lemma SweepEquation(A: Matrix, b: Vector, x: Vector)
    requires IsSquare(A) && |b| == |A| && |x| == |A| && NonZeroDiagonal(A)
    ensures forall i :: 0 <= i < |A| ==> RowHolds(A, b, Sweep(A, b, x), x, i)
  {
    forall i | 0 <= i < |A| ensures RowHolds(A, b, Sweep(A, b, x), x, i) {
      SweepRow(A, b, x, i);
    }
  }

  /** With y == x the row balance is just row i of the system. */
  lemma RowHoldsIffDot(A: Matrix, b: Vector, x: Vector, i: nat)
    requires IsSquare(A) && |b| == |A| && |x| == |A| && i < |A|
    ensures RowHolds(A, b, x, x, i) <==> Dot(A[i], x) == b[i]
  {
    DotAroundEntry(A[i], x, i);
  }

  /** The solutions of the system are exactly the fixed points of a sweep. */
  lemma SweepFixedPointIffSolves(A: Matrix, b: Vector, x: Vector)
    requires IsSquare(A) && |b| == |A| && |x| == |A| && NonZeroDiagonal(A)
    ensures Sweep(A, b, x) == x <==> Solves(A, b, x)
  {
    var n := |A|;
    forall i | 0 <= i < n ensures RowHolds(A, b, x, x, i) <==> Dot(A[i], x) == b[i] {
      RowHoldsIffDot(A, b, x, i);
    }
    if Sweep(A, b, x) == x {
      SweepEquation(A, b, x);
    }
    if Solves(A, b, x) {
      SolutionIsFixed(A, b, x, n);
    }
  }

  /** Started from a solution, no update of a sweep changes anything. */
  lemma {:induction false} SolutionIsFixed(A: Matrix, b: Vector, x: Vector, i: nat)
    requires IsSquare(A) && |b| == |A| && |x| == |A| && NonZeroDiagonal(A) && i <= |A|
    requires forall t :: 0 <= t < |A| ==> RowHolds(A, b, x, x, t)
    ensures PartialSweep(A, b, x, i) == x
    decreases i
  {
    if i > 0 {
      var t := i - 1;
      SolutionIsFixed(A, b, x, t);
      var v := Component(A, b, x, t);
      assert RowHolds(A, b, x, x, t);
      SameBalance(A[t][t], v, x[t], Sum(A[t], x, 0, t), Sum(A[t], x, t + 1, |A|), b[t]);
      assert x[t := v] == x;
    }
  }

  /** The iterate after k sweeps from x0. */
  function Iterate(A: Matrix, b: Vector, x0: Vector, k: nat): (x: Vector)
    requires IsSquare(A) && |b| == |A| && |x0| == |A| && (k == 0 || NonZeroDiagonal(A))
    ensures |x| == |A|
  {
    if k == 0 then x0 else Sweep(A, b, Iterate(A, b, x0, k - 1))
  }

  /** The stopping quantity of sweep k: the infinity norm of x^(k) - x^(k-1). */
  function Change(A: Matrix, b: Vector, x0: Vector, k: nat): real
    requires IsSquare(A) && |b| == |A| && |x0| == |A| && NonZeroDiagonal(A) && k >= 1
  {
    Norm(Diff(Iterate(A, b, x0, k), Iterate(A, b, x0, k - 1)))
  }

  /** A sweep changes nothing exactly when the iterate it starts from already solves the system. */
  lemma ChangeZeroIffSolution(A: Matrix, b: Vector, x0: Vector, k: nat)
    requires IsSquare(A) && |b| == |A| && |x0| == |A| && NonZeroDiagonal(A) && k >= 1
    ensures Change(A, b, x0, k) == 0.0 <==> Solves(A, b, Iterate(A, b, x0, k - 1))
  {
    var x := Iterate(A, b, x0, k - 1);
    var y := Iterate(A, b, x0, k);
    var d := Diff(y, x);
    NormZeroIff(d);
    SweepFixedPointIffSolves(A, b, x);
    if Norm(d) == 0.0 {
      assert forall i :: 0 <= i < |A| ==> y[i] - x[i] == d[i] == 0.0;
      assert y == x;
    }
  }

  /**
   * The body of one pass of gauss_seidel's outer loop: x is overwritten component by component.
   * It raises (None) at the first row with a zero diagonal entry.
   */
  method SweepInPlace(A: Matrix, b: Vector, xOld: Vector) returns (r: Option<Vector>)
    requires IsSquare(A) && |b| == |A| && |xOld| == |A|
    ensures r.None? <==> !NonZeroDiagonal(A)
    ensures r.Some? ==> r.value == Sweep(A, b, xOld)
  {
    var n := |A|;
    var x := xOld;
    for i := 0 to n
      invariant forall t :: 0 <= t < i ==> A[t][t] != 0.0
      invariant x == PartialSweep(A, b, xOld, i)
    {
      var s1 := 0.0;
      for j := 0 to i
        invariant s1 == Sum(A[i], x, 0, j)
      {
        s1 := s1 + A[i][j] * x[j];
      }
      var s2 := 0.0;
      for j := i + 1 to n
        invariant s2 == Sum(A[i], x, i + 1, j)
      {
        s2 := s2 + A[i][j] * x[j];
      }
      if A[i][i] == 0.0 {
        return None;
      }
      x := x[i := (b[i] - s1 - s2) / A[i][i]];
    }
    return Some(x);
  }

  /**
   * gauss_seidel(A, b, x0, tol, maxiter) on finite values. It raises on a zero diagonal entry
   * during the first sweep; otherwise it returns the first iterate whose change is below tol, or
   * the last one with the count maxiter when no sweep got there.
   */
  method Solve(A: Matrix, b: Vector, x0: Option<Vector>, tol: real, maxiter: int) returns (r: Result<IterResult>)
    requires IsSquare(A) && |b| == |A| && (x0.Some? ==> |x0.value| == |A|)
    ensures r.Err? <==> maxiter >= 1 && !NonZeroDiagonal(A)
    ensures r.Err? ==> r.error == ZeroDiagonal
    ensures maxiter <= 0 ==> r == Ok(IterResult(InitialGuess(|A|, x0), maxiter, false))
    ensures r.Ok? ==> r.value.iterations <= maxiter
    ensures r.Ok? && r.value.converged ==>
      1 <= r.value.iterations &&
      r.value.x == Iterate(A, b, InitialGuess(|A|, x0), r.value.iterations) &&
      Change(A, b, InitialGuess(|A|, x0), r.value.iterations) < tol
    ensures r.Ok? && !r.value.converged ==>
      r.value.iterations == maxiter &&
      r.value.x == Iterate(A, b, InitialGuess(|A|, x0), if maxiter < 0 then 0 else maxiter)
    ensures r.Ok? ==> forall k :: 1 <= k <= maxiter && (!r.value.converged || k < r.value.iterations) ==>
      Change(A, b, InitialGuess(|A|, x0), k) >= tol
  {
    var n := |A|;
    var x := InitialGuess(n, x0);
    ghost var g := x;
    var it := 1;
    while it <= maxiter
      invariant 1 <= it <= (if maxiter < 0 then 0 else maxiter) + 1
      invariant it > 1 ==> NonZeroDiagonal(A)
      invariant x == Iterate(A, b, g, it - 1)
      invariant forall k :: 1 <= k < it ==> Change(A, b, g, k) >= tol
      decreases maxiter - it
    {
      var xOld := x;
      var sweep := SweepInPlace(A, b, x);
      if sweep.None? {
        return Err(ZeroDiagonal);
      }
      x := sweep.value;
      var diff := Diff(x, xOld);
      var change := InfinityNorm(diff);
      if change < tol {
        return Ok(IterResult(x, it, true));
      }
      it := it + 1;
    }
    return Ok(IterResult(x, maxiter, false));
  }
}
