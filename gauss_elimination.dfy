/**
 * eliminacion_gauss: forward elimination to upper-triangular form with optional partial pivoting,
 * a check of the last pivot, then back substitution. Arithmetic is exact.
 */
module GaussElimination {
  import opened LinearAlgebra
  import opened Results
  import opened RowReduction
  import opened Reduction
  import opened Numeric

  /** For every row i below k: m = A[i][k] / A[k][k], then row i -= m * row k from column k on. */
  method EliminateBelow(a: array2<real>, b: array<real>, k: nat)
    requires a.Length0 == a.Length1 == b.Length && k < b.Length
    requires a[k, k] != 0.0
    requires forall c :: 0 <= c < k ==> a[k, c] == 0.0
    modifies a, b
    ensures System(Mat(a), b[..]) == EliminatedBelow(System(old(Mat(a)), old(b[..])), k, b.Length)
    ensures forall r, c :: 0 <= r < a.Length0 && 0 <= c < a.Length1 && (r <= k || c < k) ==>
      a[r, c] == old(a[r, c])
    ensures forall r :: k < r < a.Length0 ==> a[r, k] == 0.0
    ensures RowEquivalent(Mat(a), b[..], old(Mat(a)), old(b[..]))
  {
    var n := b.Length;
    ghost var M0, v0 := Mat(a), b[..];
    ghost var S0 := System(M0, v0);
    for i := k + 1 to n
      invariant System(Mat(a), b[..]) == EliminatedBelow(S0, k, i)
      invariant RowEquivalent(Mat(a), b[..], M0, v0)
    {
      EliminatedBelowFrame(S0, k, i);
      var m := a[i, k] / a[k, k];
      ghost var M1, v1 := Mat(a), b[..];
      SubtractRow(a, b, i, k, m, k);
      RowEquivalentTrans(Mat(a), b[..], M1, v1, M0, v0);
    }
    EliminatedBelowKeepsEarlierColumns(S0, k);
    EliminatedBelowClearsColumn(S0, k);
  }

  /** Setting x[i] := s / u[i] with s = c - (the terms after i) makes row u's terms from i on sum to c. */
  lemma DiagonalStep(u: Vector, before: Vector, x: Vector, i: nat, s: real, c: real)
    requires i < |u| == |before| == |x| && u[i] != 0.0
    requires x == before[i := s / u[i]]
    requires s == c - Sum(u, before, i + 1, |u|)
    ensures Sum(u, x, i, |u|) == c
  {
    var n := |u|;
    SumSplit(u, x, i, i + 1, n);
    assert Sum(u, x, i, i + 1) == u[i] * x[i];
    SumFrame(u, x, u, before, i + 1, n);
    assert u[i] * x[i] == s;
  }

  /** s = b[i] - sum_{j>i} A[i][j] * x[j]: what is left of b[i] once the known unknowns are subtracted. */
  method RowResidual(a: array2<real>, b: array<real>, x: Vector, i: nat) returns (s: real)
    requires a.Length0 == a.Length1 == b.Length == |x| && i < b.Length
    ensures s == b[i] - Sum(Mat(a)[i], x, i + 1, b.Length)
  {
    ghost var u := Mat(a)[i];
    s := b[i];
    for j := i + 1 to b.Length
      invariant s == b[i] - Sum(u, x, i + 1, j)
    {
      s := s - a[i, j] * x[j];
    }
  }

  /**
   * Back substitution on the reduced system: x[i] = (b[i] - sum_{j>i} A[i][j] * x[j]) / A[i][i]
   * for i = n-1 down to 0. The result solves the upper-triangular system.
   */
  method BackSubstitution(a: array2<real>, b: array<real>) returns (x: Vector)
    requires a.Length0 == a.Length1 == b.Length
    requires forall r, c :: 0 <= c < r < b.Length ==> a[r, c] == 0.0
    requires forall i :: 0 <= i < b.Length ==> a[i, i] != 0.0
    ensures Solves(Mat(a), b[..], x)
  {
    var n := b.Length;
    ghost var U := Mat(a);
    x := Zeros(n);
    var i := n;
    while i > 0
      invariant 0 <= i <= n && |x| == n
      invariant forall r :: i <= r < n ==> Sum(U[r], x, r, n) == b[r]
    {
      i := i - 1;
      var s := RowResidual(a, b, x, i);
      ghost var before := x;
      x := x[i := s / a[i, i]];
      DiagonalStep(U[i], before, x, i, s, b[i]);
      forall r | i < r < n ensures Sum(U[r], x, r, n) == b[r] {
        SumFrame(U[r], x, U[r], before, r, n);
      }
    }
    forall r | 0 <= r < n ensures Dot(U[r], x) == b[r] {
      RowFromDiagonal(U[r], x, r);
      SumSplit(U[r], x, r, r + 1, n);
    }
  }

  /**
   * Column step k in place: the pivot step, then the rows below k cleared. Columns before k are
   * already reduced; on success column k is reduced as well.
   */
  method EliminationStep(a: array2<real>, b: array<real>, k: nat, pivoting: bool, ghost S0: System)
    returns (err: Option<Error>)
    requires a.Length0 == a.Length1 == b.Length && k + 1 < b.Length
    requires WellShaped(S0) && |S0.M| == b.Length && Stage(S0, Elimination, pivoting, k) == Ok(System(Mat(a), b[..]))
    requires Staircase(Mat(a), k)
    modifies a, b
    ensures Stage(S0, Elimination, pivoting, k + 1) == if err.Some? then Err(err.value) else Ok(System(Mat(a), b[..]))
    ensures RowEquivalent(Mat(a), b[..], old(Mat(a)), old(b[..]))
    ensures err == Some(SingularPivot) ==> IsSingular(Mat(a))
    ensures err.None? ==> Staircase(Mat(a), k + 1)
  {
    ghost var M0, v0 := Mat(a), b[..];
    StageNext(S0, Elimination, pivoting, k);
    var p;
    p, err := PivotStep(a, b, k, pivoting);
    if err.Some? {
      if err.value == SingularPivot {
        StaircaseIsSingular(Mat(a), k);
      }
      return;
    }
    SwapKeepsStaircase(M0, k, p);
    ghost var M1, v1 := Mat(a), b[..];
    EliminateBelow(a, b, k);
    EliminatedBelowExtendsStaircase(System(M1, v1), k);
    RowEquivalentTrans(Mat(a), b[..], M1, v1, M0, v0);
  }

  /**
   * The elimination phase: for k = 0..n-2, the pivot step for column k and then zeros below
   * the pivot. On success the array is upper triangular with nonzero pivots in columns 0..n-2.
   */
  method ForwardElimination(a: array2<real>, b: array<real>, pivoting: bool) returns (err: Option<Error>)
    requires a.Length0 == a.Length1 == b.Length >= 1
    modifies a, b
    ensures Stage(System(old(Mat(a)), old(b[..])), Elimination, pivoting, b.Length - 1) ==
      if err.Some? then Err(err.value) else Ok(System(Mat(a), b[..]))
    ensures RowEquivalent(Mat(a), b[..], old(Mat(a)), old(b[..]))
    ensures err.Some? ==> err.value == if pivoting then SingularPivot else ZeroPivot
    ensures err == Some(SingularPivot) ==> IsSingular(Mat(a))
    ensures err.None? ==> Staircase(Mat(a), b.Length - 1)
  {
    var n := b.Length;
    ghost var M0, v0 := Mat(a), b[..];
    ghost var S0 := System(M0, v0);
    for k := 0 to n - 1
      invariant Stage(S0, Elimination, pivoting, k) == Ok(System(Mat(a), b[..]))
      invariant RowEquivalent(Mat(a), b[..], M0, v0)
      invariant Staircase(Mat(a), k)
    {
      ghost var M1, v1 := Mat(a), b[..];
      err := EliminationStep(a, b, k, pivoting, S0);
      RowEquivalentTrans(Mat(a), b[..], M1, v1, M0, v0);
      if err.Some? {
        StageStopsAtError(S0, Elimination, pivoting, k + 1, n - 1);
        return;
      }
    }
    err := None;
  }

  /**
   * The tail of eliminacion_gauss on the reduced system: the check of the last pivot, then back
   * substitution. The vector returned is the one solution of the reduced system.
   */
  method LastPivotAndSubstitution(a: array2<real>, b: array<real>) returns (r: Result<Vector>)
    requires a.Length0 == a.Length1 == b.Length >= 1
    requires Staircase(Mat(a), b.Length - 1)
    ensures r.Err? <==> a[b.Length - 1, b.Length - 1] == 0.0
    ensures r.Err? ==> r.error == SingularLastPivot && IsSingular(Mat(a))
    ensures r.Ok? ==> forall y :: Solves(Mat(a), b[..], y) <==> y == r.value
  {
    var n := b.Length;
    if a[n - 1, n - 1] == 0.0 {
      StaircaseIsSingular(Mat(a), n - 1);
      return Err(SingularLastPivot);
    }
    var x := BackSubstitution(a, b);
    forall y | Solves(Mat(a), b[..], y) ensures y == x {
      TriangularSolutionUnique(Mat(a), b[..], x, y);
    }
    return Ok(x);
  }

  /**
   * The error eliminacion_gauss raises on a square system, if any: the one that stopped
   * elimination, or the zero last pivot of the reduced system.
   */
  function Failure(S: System, pivoting: bool): Option<Error>
    requires WellShaped(S) && |S.M| >= 1
  {
    match Stage(S, Elimination, pivoting, |S.M| - 1)
    case Err(e) => Some(e)
    case Ok(U) => if U.M[|S.M| - 1][|S.M| - 1] == 0.0 then Some(SingularLastPivot) else None
  }

  /** Without pivoting, elimination on the 2-by-2 identity raises nothing: a nonzero diagonal is all it needs. */
  lemma NoPivotIdentityRaisesNothing()
    ensures Failure(System([[1.0, 0.0], [0.0, 1.0]], [1.0, 1.0]), false) == None
  {
    var S := System([[1.0, 0.0], [0.0, 1.0]], [1.0, 1.0]);
    assert Pivoted(S, 0, false) == Ok(S);
    var T := EliminatedBelow(S, 0, 2);
    assert T == System(RowMinus(S.M, 1, 0, 0.0), EntryMinus(S.v, 1, 0, 0.0));
    assert T.M[1][1] == 1.0;
  }

  /**
   * eliminacion_gauss(A_in, b_in, pivoteo_parcial). Works on private copies, so the caller's
   * values are untouched. The source indexes A[n-1][n-1] after elimination, which fails when
   * both A and b are empty; that one input is excluded.
   */
  method Solve(A: Matrix, bIn: Vector, pivoting: bool) returns (r: Result<Vector>)
    requires A != [] || bIn != []
    ensures r == Err(DimensionMismatch) <==> !IsSquare(A) || |bIn| != |A|
    ensures r.Ok? ==> Solves(A, bIn, r.value)
    ensures r.Ok? ==> forall y :: Solves(A, bIn, y) ==> y == r.value
    ensures r.Err? ==> r.error in {DimensionMismatch, SingularPivot, ZeroPivot, SingularLastPivot}
    ensures r == Err(SingularPivot) ==> pivoting && IsSingular(A)
    ensures r == Err(ZeroPivot) ==> !pivoting
    ensures r == Err(SingularLastPivot) ==> IsSingular(A)
    ensures pivoting && IsSquare(A) && |bIn| == |A| ==> (r.Ok? <==> !IsSingular(A))
    ensures IsSquare(A) && |bIn| == |A| ==>
      match Failure(System(A, bIn), pivoting)
      case Some(e) => r == Err(e)
      case None => r.Ok?
  {
    var square := IsSquareMatrix(A);
    if !square || |bIn| != |A| {
      return Err(DimensionMismatch);
    }
    var n := |A|;
    var a, b := CopySystem(A, bIn);
    var err := ForwardElimination(a, b, pivoting);
    if err.Some? {
      return Err(err.value);
    }
    r := LastPivotAndSubstitution(a, b);
    if r.Ok? {
      assert Solves(Mat(a), b[..], r.value);
      assert SameSolutions(Mat(a), b[..], A, bIn);
      UniqueSolutionMeansNonsingular(A, bIn, r.value);
    }
  }
}
