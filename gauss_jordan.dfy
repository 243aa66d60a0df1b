/**
 * gauss_jordan: reduces the system to the identity, column by column, with optional partial
 * pivoting; the right-hand side then holds the solution. Arithmetic is exact.
 */
module GaussJordanReduction {
  import opened LinearAlgebra
  import opened Results
  import opened RowReduction
  import opened Reduction
  import opened Numeric

  /** b[k] /= piv. */
  method DivideEntry(b: array<real>, k: nat, piv: real)
    requires k < b.Length && piv != 0.0
    modifies b
    ensures b[..] == EntryDivided(old(b[..]), k, piv)
  {
    b[k] := b[k] / piv;
  }

  /** A[k][j] /= piv for every column j, then b[k] /= piv: the pivot row is normalised. */
  method DivideRow(a: array2<real>, b: array<real>, k: nat, piv: real)
    requires a.Length0 == a.Length1 == b.Length && k < b.Length && piv != 0.0
    modifies a, b
    ensures forall r, c :: 0 <= r < a.Length0 && 0 <= c < a.Length1 ==>
      a[r, c] == if r == k then old(a[k, c]) / piv else old(a[r, c])
    ensures Mat(a) == RowDivided(old(Mat(a)), k, piv)
    ensures b[..] == EntryDivided(old(b[..]), k, piv)
    ensures piv == old(a[k, k]) ==> a[k, k] == 1.0
    ensures RowEquivalent(Mat(a), b[..], old(Mat(a)), old(b[..]))
  {
    var n := b.Length;
    for j := 0 to n
      invariant forall r, c :: 0 <= r < n && 0 <= c < n ==>
        a[r, c] == if r == k && c < j then old(a[k, c]) / piv else old(a[r, c])
      modifies a
    {
      a[k, j] := a[k, j] / piv;
    }
    assert b[..] == old(b[..]);
    DivideEntry(b, k, piv);
    ghost var M := old(Mat(a));
    MatIs(a, RowDivided(M, k, piv));
    RowDividedKeepsEquivalence(M, old(b[..]), k, piv);
    QuotientBySelf(piv);
  }

  /**
   * For every row i other than k: factor = A[i][k], then row i -= factor * row k over all
   * columns. With A[k][k] = 1 this clears column k everywhere but on the diagonal.
   */
  method EliminateOthers(a: array2<real>, b: array<real>, k: nat)
    requires a.Length0 == a.Length1 == b.Length && k < b.Length
    requires a[k, k] == 1.0
    requires forall c :: 0 <= c < k ==> a[k, c] == 0.0
    modifies a, b
    ensures forall c :: 0 <= c < a.Length1 ==> a[k, c] == old(a[k, c])
    ensures forall r, c :: 0 <= r < a.Length0 && 0 <= c < k ==> a[r, c] == old(a[r, c])
    ensures forall r :: 0 <= r < a.Length0 && r != k ==> a[r, k] == 0.0
    ensures System(Mat(a), b[..]) == ClearedOthers(System(old(Mat(a)), old(b[..])), k, b.Length)
    ensures RowEquivalent(Mat(a), b[..], old(Mat(a)), old(b[..]))
  {
    var n := b.Length;
    ghost var M0, v0 := Mat(a), b[..];
    for i := 0 to n
      invariant System(Mat(a), b[..]) == ClearedOthers(System(M0, v0), k, i)
      invariant forall c :: 0 <= c < n ==> a[k, c] == old(a[k, c])
      invariant forall r, c :: 0 <= r < n && 0 <= c < k ==> a[r, c] == old(a[r, c])
      invariant forall r :: 0 <= r < i && r != k ==> a[r, k] == 0.0
      invariant RowEquivalent(Mat(a), b[..], M0, v0)
    {
      if i != k {
        var factor := a[i, k];
        ghost var M1, v1 := Mat(a), b[..];
        SubtractRow(a, b, i, k, factor, 0);
        RowEquivalentTrans(Mat(a), b[..], M1, v1, M0, v0);
      }
    }
  }

  /** Unit vectors fill columns 0..k-1 of the square array a. */
  ghost predicate UnitColumns(a: array2<real>, k: nat)
    reads a
  {
    forall r, c :: 0 <= r < a.Length0 && 0 <= c < k && c < a.Length1 ==> a[r, c] == if r == c then 1.0 else 0.0
  }

  /** Steps 2 and 3 for column k: normalise the pivot row, then clear column k in every other row. */
  method ReduceColumn(a: array2<real>, b: array<real>, k: nat)
    requires a.Length0 == a.Length1 == b.Length && k < b.Length
    requires a[k, k] != 0.0 && UnitColumns(a, k)
    modifies a, b
    ensures UnitColumns(a, k + 1)
    ensures System(Mat(a), b[..]) == ReducedColumn(System(old(Mat(a)), old(b[..])), k)
    ensures RowEquivalent(Mat(a), b[..], old(Mat(a)), old(b[..]))
  {
    var piv := a[k, k];
    ghost var M0, v0 := Mat(a), b[..];
    DivideRow(a, b, k, piv);
    assert forall c :: 0 <= c < k ==> a[k, c] == 0.0 / piv == 0.0;
    assert UnitColumns(a, k);
    ghost var M1, v1 := Mat(a), b[..];
    EliminateOthers(a, b, k);
    RowEquivalentTrans(Mat(a), b[..], M1, v1, M0, v0);
  }

  /**
   * Column k in place: the pivot step, then the column reduction. Columns before k already hold
   * unit vectors; on success column k does as well.
   */
  method ReductionStep(a: array2<real>, b: array<real>, k: nat, pivoting: bool, ghost S0: System)
    returns (err: Option<Error>)
    requires a.Length0 == a.Length1 == b.Length && k < b.Length
    requires WellShaped(S0) && |S0.M| == b.Length && Stage(S0, GaussJordan, pivoting, k) == Ok(System(Mat(a), b[..]))
    requires UnitColumns(a, k)
    modifies a, b
    ensures Stage(S0, GaussJordan, pivoting, k + 1) == if err.Some? then Err(err.value) else Ok(System(Mat(a), b[..]))
    ensures RowEquivalent(Mat(a), b[..], old(Mat(a)), old(b[..]))
    ensures err == Some(SingularPivot) ==> IsSingular(Mat(a))
    ensures err.None? ==> UnitColumns(a, k + 1)
  {
    ghost var M0, v0 := Mat(a), b[..];
    StageNext(S0, GaussJordan, pivoting, k);
    var p;
    p, err := PivotStep(a, b, k, pivoting);
    if err.Some? {
      if err.value == SingularPivot {
        StaircaseIsSingular(Mat(a), k);
      }
      return;
    }
    assert UnitColumns(a, k);
    ghost var M1, v1 := Mat(a), b[..];
    ReduceColumn(a, b, k);
    RowEquivalentTrans(Mat(a), b[..], M1, v1, M0, v0);
  }

  /**
   * The main loop of gauss_jordan: the pivot step and the column reduction for k = 0..n-1.
   * On success the array holds the identity.
   */
  method ReduceColumns(a: array2<real>, b: array<real>, pivoting: bool) returns (err: Option<Error>)
    requires a.Length0 == a.Length1 == b.Length
    modifies a, b
    ensures Stage(System(old(Mat(a)), old(b[..])), GaussJordan, pivoting, b.Length) ==
      if err.Some? then Err(err.value) else Ok(System(Mat(a), b[..]))
    ensures RowEquivalent(Mat(a), b[..], old(Mat(a)), old(b[..]))
    ensures err.Some? ==> err.value == if pivoting then SingularPivot else ZeroPivot
    ensures err == Some(SingularPivot) ==> IsSingular(Mat(a))
    ensures err.None? ==> IsIdentity(Mat(a))
  {
    var n := b.Length;
    ghost var M0, v0 := Mat(a), b[..];
    ghost var S0 := System(M0, v0);
    for k := 0 to n
      invariant Stage(S0, GaussJordan, pivoting, k) == Ok(System(Mat(a), b[..]))
      invariant RowEquivalent(Mat(a), b[..], M0, v0)
      invariant UnitColumns(a, k)
    {
      ghost var M1, v1 := Mat(a), b[..];
      err := ReductionStep(a, b, k, pivoting, S0);
      RowEquivalentTrans(Mat(a), b[..], M1, v1, M0, v0);
      if err.Some? {
        StageStopsAtError(S0, GaussJordan, pivoting, k + 1, n);
        return;
      }
    }
    err := None;
  }

  /**
   * gauss_jordan(A_in, b_in, pivoteo_parcial). Works on private copies. On success the result
   * is the one solution of the system.
   */
  method Solve(A: Matrix, bIn: Vector, pivoting: bool) returns (r: Result<Vector>)
    ensures r == Err(DimensionMismatch) <==> !IsSquare(A) || |bIn| != |A|
    ensures r.Ok? ==> forall y :: Solves(A, bIn, y) <==> y == r.value
    ensures r.Err? ==> r.error in {DimensionMismatch, SingularPivot, ZeroPivot}
    ensures r == Err(SingularPivot) ==> pivoting && IsSingular(A)
    ensures r == Err(ZeroPivot) ==> !pivoting
    ensures pivoting && IsSquare(A) && |bIn| == |A| ==> (r.Ok? <==> !IsSingular(A))
    ensures IsSquare(A) && |bIn| == |A| ==>
      r == match Stage(System(A, bIn), GaussJordan, pivoting, |A|)
        case Err(e) => Err(e)
        case Ok(T) => Ok(T.v)
  {
    var square := IsSquareMatrix(A);
    if !square || |bIn| != |A| {
      return Err(DimensionMismatch);
    }
    var a, b := CopySystem(A, bIn);
    var err := ReduceColumns(a, b, pivoting);
    if err.Some? {
      return Err(err.value);
    }
    IdentitySolutions(Mat(a), b[..]);
    r := Ok(b[..]);
    UniqueSolutionMeansNonsingular(A, bIn, b[..]);
  }
}
