/**
 * The working copy both direct solvers reduce in place (an n-by-n array and a right-hand-side
 * array), the copy they take of the caller's data, and the pivot step and row operations they share.
 */
module RowReduction {
  import opened LinearAlgebra
  import opened Results

  /** A system A*x = b as values: the coefficient matrix and the right-hand side. */
  datatype System = System(M: Matrix, v: Vector)

  /** A square system: n rows of n entries and n right-hand-side entries. */
  predicate WellShaped(S: System) {
    IsSquare(S.M) && |S.v| == |S.M|
  }

  /** The array's contents as a matrix value. */
  ghost function Mat(a: array2<real>): (M: Matrix)
    reads a
    ensures |M| == a.Length0
    ensures forall i :: 0 <= i < |M| ==> |M[i]| == a.Length1
    ensures forall i, j :: 0 <= i < a.Length0 && 0 <= j < a.Length1 ==> M[i][j] == a[i, j]
  {
    seq(a.Length0, i requires 0 <= i < a.Length0 reads a =>
      seq(a.Length1, j requires 0 <= j < a.Length1 reads a => a[i, j]))
  }

  lemma MatIs(a: array2<real>, M: Matrix)
    requires |M| == a.Length0 && forall i :: 0 <= i < |M| ==> |M[i]| == a.Length1
    requires forall i, j :: 0 <= i < a.Length0 && 0 <= j < a.Length1 ==> a[i, j] == M[i][j]
    ensures Mat(a) == M
  {
    forall i | 0 <= i < |M| ensures Mat(a)[i] == M[i] {
      assert forall j :: 0 <= j < a.Length1 ==> Mat(a)[i][j] == M[i][j];
    }
  }

  /** copiar_matriz and b_in[:]: fresh working copies, so the caller's data is never touched. */
  method CopySystem(A: Matrix, b: Vector) returns (a: array2<real>, v: array<real>)
    requires IsSquare(A) && |b| == |A|
    ensures fresh(a) && fresh(v)
    ensures a.Length0 == a.Length1 == v.Length == |A|
    ensures Mat(a) == A && v[..] == b
  {
    var n := |A|;
    a := new real[n, n]((i, j) requires 0 <= i < n && 0 <= j < n => A[i][j]);
    v := new real[n](i requires 0 <= i < n => b[i]);
    MatIs(a, A);
  }

  /**
   * max(range(k, n), key=lambda i: abs(A[i][k])): the row at or below k whose entry in column k
   * is largest in magnitude, the first such row on ties.
   */
  method ChoosePivot(a: array2<real>, k: nat) returns (p: nat)
    requires k < a.Length0 && k < a.Length1
    ensures k <= p < a.Length0
    ensures forall i :: k <= i < a.Length0 ==> Abs(a[i, k]) <= Abs(a[p, k])
    ensures forall i :: k <= i < p ==> Abs(a[i, k]) < Abs(a[p, k])
    ensures p == PivotRow(Mat(a), k, a.Length0)
  {
    ghost var M := Mat(a);
    p := k;
    var i := k + 1;
    while i < a.Length0
      invariant k < i <= a.Length0
      invariant p == PivotRow(M, k, i)
    {
      assert M[i][k] == a[i, k] && M[p][k] == a[p, k];
      assert PivotRow(M, k, i + 1) == if Abs(M[i][k]) > Abs(M[p][k]) then i else p;
      if Abs(a[i, k]) > Abs(a[p, k]) {
        p := i;
      }
      i := i + 1;
    }
  }

  /**
   * The value max(range(k, hi), key=lambda i: abs(M[i][k])) computes: the first row in [k, hi)
   * whose entry in column k is largest in magnitude.
   */
  function PivotRow(M: Matrix, k: nat, hi: nat): (p: nat)
    requires k < hi <= |M| && forall r :: k <= r < hi ==> k < |M[r]|
    ensures k <= p < hi
    ensures forall i :: k <= i < hi ==> Abs(M[i][k]) <= Abs(M[p][k])
    ensures forall i :: k <= i < p ==> Abs(M[i][k]) < Abs(M[p][k])
    decreases hi
  {
    if hi == k + 1 then k
    else
      var p := PivotRow(M, k, hi - 1);
      if Abs(M[hi - 1][k]) > Abs(M[p][k]) then hi - 1 else p
  }

  /**
   * The pivot step for column k on values. With pivoting: the error when the best pivot is zero,
   * otherwise the system with the first maximal row exchanged into row k. Without pivoting: the
   * error when the diagonal entry is zero, otherwise the system unchanged.
   */
  function Pivoted(S: System, k: nat, pivoting: bool): (r: Result<System>)
    requires WellShaped(S) && k < |S.M|
    ensures r.Ok? ==> WellShaped(r.value) && |r.value.M| == |S.M| && r.value.M[k][k] != 0.0
    ensures r.Err? <==> if pivoting then forall i :: k <= i < |S.M| ==> S.M[i][k] == 0.0 else S.M[k][k] == 0.0
    ensures r.Err? ==> r.error == if pivoting then SingularPivot else ZeroPivot
  {
    if pivoting then
      var p := PivotRow(S.M, k, |S.M|);
      if Abs(S.M[p][k]) == 0.0 then Err(SingularPivot)
      else if p != k then Ok(System(Swapped(S.M, k, p), Swapped(S.v, k, p)))
      else Ok(S)
    else if S.M[k][k] == 0.0 then Err(ZeroPivot)
    else Ok(S)
  }

  /** A[k], A[p] = A[p], A[k] and b[k], b[p] = b[p], b[k]. */
  method SwapRows(a: array2<real>, b: array<real>, k: nat, p: nat)
    requires a.Length0 == a.Length1 == b.Length
    requires k < b.Length && p < b.Length && k != p
    modifies a, b
    ensures forall r, c :: 0 <= r < a.Length0 && 0 <= c < a.Length1 ==>
      a[r, c] == old(a[if r == k then p else if r == p then k else r, c])
    ensures Mat(a) == Swapped(old(Mat(a)), k, p)
    ensures b[..] == Swapped(old(b[..]), k, p)
    ensures RowEquivalent(Mat(a), b[..], old(Mat(a)), old(b[..]))
  {
    var n := b.Length;
    for j := 0 to n
      invariant forall r, c :: 0 <= r < n && 0 <= c < n ==>
        a[r, c] == old(a[if c < j && r == k then p else if c < j && r == p then k else r, c])
      invariant b[..] == old(b[..])
    {
      a[k, j], a[p, j] := a[p, j], a[k, j];
    }
    b[k], b[p] := b[p], b[k];
    MatIs(a, Swapped(old(Mat(a)), k, p));
    SwapKeepsEquivalence(old(Mat(a)), old(b[..]), k, p);
  }

  /**
   * The pivot step of both direct solvers for column k. With pivoting it picks the first row p
   * maximising |A[p][k]|, fails if that magnitude is zero and otherwise swaps rows k and p;
   * without pivoting it fails when A[k][k] is zero. On success the pivot A[k][k] is nonzero.
   */
  method PivotStep(a: array2<real>, b: array<real>, k: nat, pivoting: bool) returns (p: nat, err: Option<Error>)
    requires a.Length0 == a.Length1 == b.Length && k < b.Length
    modifies a, b
    ensures k <= p < b.Length
    ensures pivoting ==> forall i :: k <= i < b.Length ==> Abs(old(a[i, k])) <= Abs(old(a[p, k]))
    ensures pivoting ==> forall i :: k <= i < p ==> Abs(old(a[i, k])) < Abs(old(a[p, k]))
    ensures !pivoting ==> p == k
    ensures err == Some(SingularPivot) <==> pivoting && forall r :: k <= r < b.Length ==> old(a[r, k]) == 0.0
    ensures err == Some(ZeroPivot) <==> !pivoting && old(a[k, k]) == 0.0
    ensures err.Some? ==> err.value in {SingularPivot, ZeroPivot}
    ensures err.Some? ==> Mat(a) == old(Mat(a)) && b[..] == old(b[..])
    ensures err.None? ==> a[k, k] != 0.0
    ensures err.None? ==> forall r, c :: 0 <= r < a.Length0 && 0 <= c < a.Length1 ==>
      a[r, c] == old(a[if r == k then p else if r == p then k else r, c])
    ensures err.None? ==> Mat(a) == Swapped(old(Mat(a)), k, p) && b[..] == Swapped(old(b[..]), k, p)
    ensures RowEquivalent(Mat(a), b[..], old(Mat(a)), old(b[..]))
    ensures Pivoted(System(old(Mat(a)), old(b[..])), k, pivoting) ==
      if err.Some? then Err(err.value) else Ok(System(Mat(a), b[..]))
  {
    ghost var M, v := Mat(a), b[..];
    SwapKeepsEquivalence(M, v, k, k);
    assert Swapped(M, k, k) == M && Swapped(v, k, k) == v;
    p := k;
    if pivoting {
      p := ChoosePivot(a, k);
      if Abs(a[p, k]) == 0.0 {
        return p, Some(SingularPivot);
      }
      if p != k {
        SwapRows(a, b, k, p);
        SwapKeepsEquivalence(M, v, k, p);
      }
    } else {
      if a[k, k] == 0.0 {
        return p, Some(ZeroPivot);
      }
    }
    err := None;
  }

  /** b[i] -= m * b[k]. */
  method SubtractEntry(b: array<real>, i: nat, k: nat, m: real)
    requires i < b.Length && k < b.Length
    modifies b
    ensures b[..] == EntryMinus(old(b[..]), i, k, m)
  {
    b[i] := b[i] - m * b[k];
  }

  /** A[i][j] -= m * A[k][j] for j = from..n-1, then b[i] -= m * b[k]. */
  method SubtractRow(a: array2<real>, b: array<real>, i: nat, k: nat, m: real, from: nat)
    requires a.Length0 == a.Length1 == b.Length
    requires i < b.Length && k < b.Length && i != k && from <= b.Length
    requires forall c :: 0 <= c < from ==> a[k, c] == 0.0
    modifies a, b
    ensures forall r, c :: 0 <= r < a.Length0 && 0 <= c < a.Length1 ==>
      a[r, c] == if r == i then old(a[i, c]) - m * old(a[k, c]) else old(a[r, c])
    ensures b[..] == EntryMinus(old(b[..]), i, k, m)
    ensures Mat(a) == RowMinus(old(Mat(a)), i, k, m)
    ensures RowEquivalent(Mat(a), b[..], old(Mat(a)), old(b[..]))
  {
    var n := b.Length;
    for j := from to n
      invariant forall r, c :: 0 <= r < n && 0 <= c < n ==>
        a[r, c] == if r == i && from <= c < j then old(a[i, c]) - m * old(a[k, c]) else old(a[r, c])
      modifies a
    {
      a[i, j] := a[i, j] - m * a[k, j];
    }
    assert b[..] == old(b[..]);
    ghost var v := b[..];
    SubtractEntry(b, i, k, m);
    assert b[..] == EntryMinus(v, i, k, m);
    ghost var M := old(Mat(a));
    MatIs(a, RowMinus(M, i, k, m));
    RowMinusKeepsEquivalence(M, old(b[..]), i, k, m);
  }
}
