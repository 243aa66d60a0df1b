/**
 * The two direct solvers on values: one column step of Gaussian elimination (clear the rows
 * below the pivot), one column step of Gauss-Jordan (normalise the pivot row, clear every other
 * row), and the run of column steps each solver makes, each step preceded by the pivot step.
 * The in-place methods of both solvers are proved to compute exactly these values.
 */
module Reduction {
  import opened LinearAlgebra
  import opened Results
  import opened RowReduction

  /**
   * Column step k of the elimination phase on values, for the rows i with k < i < hi in turn:
   * m = M[i][k] / M[k][k], then row i loses m times row k and b[i] loses m times b[k].
   * With hi = n this is the whole step. The source subtracts from column k on only; wherever the
   * step is taken, row k is zero before column k, so subtracting the whole row is the same.
   */
  function EliminatedBelow(S: System, k: nat, hi: nat): (T: System)
    requires WellShaped(S) && k < hi <= |S.M| && S.M[k][k] != 0.0
    ensures WellShaped(T) && |T.M| == |S.M|
    ensures T.M[k] == S.M[k]
    decreases hi
  {
    if hi == k + 1 then S
    else
      var T := EliminatedBelow(S, k, hi - 1);
      var m := T.M[hi - 1][k] / T.M[k][k];
      System(RowMinus(T.M, hi - 1, k, m), EntryMinus(T.v, hi - 1, k, m))
  }

  /** The step leaves row k, the rows above it and the rows from hi on untouched. */
  lemma {:induction false} EliminatedBelowFrame(S: System, k: nat, hi: nat)
    requires WellShaped(S) && k < hi <= |S.M| && S.M[k][k] != 0.0
    ensures var T := EliminatedBelow(S, k, hi);
      forall r :: 0 <= r < |S.M| && (r <= k || hi <= r) ==> T.M[r] == S.M[r] && T.v[r] == S.v[r]
    decreases hi
  {
    if hi > k + 1 {
      EliminatedBelowFrame(S, k, hi - 1);
    }
  }

  /**
   * The step in closed form: every row r below k (and before hi) becomes row r minus
   * m = M[r][k] / M[k][k] times row k of the original system, and b[r] loses m times b[k].
   */
  lemma {:induction false} EliminatedBelowEntries(S: System, k: nat, hi: nat)
    requires WellShaped(S) && k < hi <= |S.M| && S.M[k][k] != 0.0
    ensures var T := EliminatedBelow(S, k, hi);
      forall r :: k < r < hi ==>
        T.M[r] == RowMinus(S.M, r, k, S.M[r][k] / S.M[k][k])[r] &&
        T.v[r] == EntryMinus(S.v, r, k, S.M[r][k] / S.M[k][k])[r]
    decreases hi
  {
    if hi > k + 1 {
      var n := |S.M|;
      EliminatedBelowEntries(S, k, hi - 1);
      EliminatedBelowFrame(S, k, hi - 1);
      var T := EliminatedBelow(S, k, hi - 1);
      var U := EliminatedBelow(S, k, hi);
      var i := hi - 1;
      var m := S.M[i][k] / S.M[k][k];
      assert T.M[i] == S.M[i] && T.M[k] == S.M[k] && T.v[i] == S.v[i] && T.v[k] == S.v[k];
      assert U == System(RowMinus(T.M, i, k, m), EntryMinus(T.v, i, k, m));
      assert U.M[i] == RowMinus(S.M, i, k, m)[i];
      forall r | k < r < i ensures U.M[r] == T.M[r] && U.v[r] == T.v[r] {
      }
    }
  }

  /** Row r below k loses a multiple of row k, so where row k is zero, row r keeps its entry. */
  lemma EliminatedBelowKeepsRowEntries(S: System, k: nat, r: nat)
    requires WellShaped(S) && k < r < |S.M| && S.M[k][k] != 0.0
    ensures forall c :: 0 <= c < |S.M| && S.M[k][c] == 0.0 ==> EliminatedBelow(S, k, |S.M|).M[r][c] == S.M[r][c]
  {
    var m := S.M[r][k] / S.M[k][k];
    var R := RowMinus(S.M, r, k, m)[r];
    EliminatedBelowEntries(S, k, |S.M|);
    assert EliminatedBelow(S, k, |S.M|).M[r] == R;
    assert forall c :: 0 <= c < |S.M| ==> R[c] == S.M[r][c] - m * S.M[k][c];
  }

  /**
   * When row k is zero before column k, the step changes no entry in rows up to k or in the
   * columns before k.
   */
  lemma EliminatedBelowKeepsEarlierColumns(S: System, k: nat)
    requires WellShaped(S) && k < |S.M| && S.M[k][k] != 0.0
    requires forall c :: 0 <= c < k ==> S.M[k][c] == 0.0
    ensures forall r, c :: 0 <= r < |S.M| && 0 <= c < |S.M| && (r <= k || c < k) ==>
      EliminatedBelow(S, k, |S.M|).M[r][c] == S.M[r][c]
  {
    var n := |S.M|;
    EliminatedBelowFrame(S, k, n);
    forall r | k < r < n ensures forall c :: 0 <= c < k ==> EliminatedBelow(S, k, n).M[r][c] == S.M[r][c] {
      EliminatedBelowKeepsRowEntries(S, k, r);
    }
  }

  /** After the step, column k is zero below the pivot. */
  lemma EliminatedBelowClearsColumn(S: System, k: nat)
    requires WellShaped(S) && k < |S.M| && S.M[k][k] != 0.0
    ensures forall r :: k < r < |S.M| ==> EliminatedBelow(S, k, |S.M|).M[r][k] == 0.0
  {
    EliminatedBelowEntries(S, k, |S.M|);
    forall r | k < r < |S.M| ensures EliminatedBelow(S, k, |S.M|).M[r][k] == 0.0 {
      assert EliminatedBelow(S, k, |S.M|).M[r][k] == S.M[r][k] - S.M[r][k] / S.M[k][k] * S.M[k][k];
      MultipleCancels(S.M[r][k], S.M[k][k]);
    }
  }

  /** Exchanging row k with a row p at or below it keeps columns 0..k-1 reduced. */
  lemma SwapKeepsStaircase(M: Matrix, k: nat, p: nat)
    requires IsSquare(M) && Staircase(M, k) && k <= p < |M|
    ensures Staircase(Swapped(M, k, p), k)
  {
    var N := Swapped(M, k, p);
    forall r, c | 0 <= c < k && c < r < |M| ensures N[r][c] == 0.0 {
      assert N[r] == M[if r == k then p else if r == p then k else r];
    }
  }

  /** After the step for column k, on a system whose columns 0..k-1 are reduced, columns 0..k are. */
  lemma EliminatedBelowExtendsStaircase(S: System, k: nat)
    requires WellShaped(S) && k < |S.M| && S.M[k][k] != 0.0 && Staircase(S.M, k)
    ensures Staircase(EliminatedBelow(S, k, |S.M|).M, k + 1)
  {
    EliminatedBelowKeepsEarlierColumns(S, k);
    EliminatedBelowClearsColumn(S, k);
  }

  /**
   * Step 3 of a Gauss-Jordan column step on values, for the rows i < hi other than k in turn:
   * factor = M[i][k], then row i loses factor times row k and b[i] loses factor times b[k].
   */
  function ClearedOthers(S: System, k: nat, hi: nat): (T: System)
    requires WellShaped(S) && k < |S.M| && hi <= |S.M|
    ensures WellShaped(T) && |T.M| == |S.M| && T.M[k] == S.M[k] && T.v[k] == S.v[k]
    decreases hi
  {
    if hi == 0 then S
    else
      var T := ClearedOthers(S, k, hi - 1);
      if hi - 1 == k then T
      else
        var factor := T.M[hi - 1][k];
        System(RowMinus(T.M, hi - 1, k, factor), EntryMinus(T.v, hi - 1, k, factor))
  }

  /** Step 3 in closed form: every row r other than k (and before hi) loses M[r][k] times row k. */
  lemma {:induction false} ClearedOthersEntries(S: System, k: nat, hi: nat)
    requires WellShaped(S) && k < |S.M| && hi <= |S.M|
    ensures var T := ClearedOthers(S, k, hi);
      forall r :: 0 <= r < |S.M| && r != k ==>
        if r < hi then T.M[r] == RowMinus(S.M, r, k, S.M[r][k])[r] && T.v[r] == EntryMinus(S.v, r, k, S.M[r][k])[r]
        else T.M[r] == S.M[r] && T.v[r] == S.v[r]
    decreases hi
  {
    if hi > 0 {
      ClearedOthersEntries(S, k, hi - 1);
      var T := ClearedOthers(S, k, hi - 1);
      var i := hi - 1;
      if i != k {
        assert T.M[i] == S.M[i] && T.v[i] == S.v[i];
        assert ClearedOthers(S, k, hi).M[i] == RowMinus(S.M, i, k, S.M[i][k])[i];
      }
    }
  }

  /**
   * One Gauss-Jordan column step on values, after the pivot step: row k and b[k] are divided by
   * the pivot M[k][k], then column k is cleared in every other row.
   */
  function ReducedColumn(S: System, k: nat): (T: System)
    requires WellShaped(S) && k < |S.M| && S.M[k][k] != 0.0
    ensures WellShaped(T) && |T.M| == |S.M|
  {
    var piv := S.M[k][k];
    ClearedOthers(System(RowDivided(S.M, k, piv), EntryDivided(S.v, k, piv)), k, |S.M|)
  }

  /**
   * The Gauss-Jordan column step in closed form: row k is the old row k divided by the pivot,
   * every other row r loses M[r][k] times that new row, and column k becomes the unit vector e_k.
   */
  lemma ReducedColumnEntries(S: System, k: nat)
    requires WellShaped(S) && k < |S.M| && S.M[k][k] != 0.0
    ensures var T := ReducedColumn(S, k); var D := RowDivided(S.M, k, S.M[k][k]);
      T.M[k] == D[k] && T.v[k] == S.v[k] / S.M[k][k] &&
      forall r :: 0 <= r < |S.M| && r != k ==>
        T.M[r] == RowMinus(D, r, k, S.M[r][k])[r] && T.v[r] == S.v[r] - S.M[r][k] * (S.v[k] / S.M[k][k])
    ensures forall r :: 0 <= r < |S.M| ==> ReducedColumn(S, k).M[r][k] == if r == k then 1.0 else 0.0
  {
    var piv := S.M[k][k];
    var D := System(RowDivided(S.M, k, piv), EntryDivided(S.v, k, piv));
    ClearedOthersEntries(D, k, |S.M|);
    QuotientBySelf(piv);
    assert D.M[k][k] == 1.0;
    forall r | 0 <= r < |S.M| && r != k ensures ReducedColumn(S, k).M[r][k] == 0.0 {
      assert D.M[r] == S.M[r];
      assert ReducedColumn(S, k).M[r][k] == S.M[r][k] - S.M[r][k] * D.M[k][k];
    }
  }

  /** The two direct solvers: Gaussian elimination and Gauss-Jordan reduction. */
  datatype Solver = Elimination | GaussJordan

  /** Column step k of the given solver on values: the pivot step, then the solver's row operations. */
  function ColumnStep(S: System, solver: Solver, pivoting: bool, k: nat): (r: Result<System>)
    requires WellShaped(S) && k < |S.M|
    ensures r.Ok? ==> WellShaped(r.value) && |r.value.M| == |S.M|
  {
    match Pivoted(S, k, pivoting)
    case Err(e) => Err(e)
    case Ok(U) => Ok(if solver == Elimination then EliminatedBelow(U, k, |S.M|) else ReducedColumn(U, k))
  }

  /** The system after the column steps 0..k-1 of the solver, or the error that stopped them. */
  function Stage(S: System, solver: Solver, pivoting: bool, k: nat): (r: Result<System>)
    requires WellShaped(S) && k <= |S.M|
    ensures r.Ok? ==> WellShaped(r.value) && |r.value.M| == |S.M|
    ensures r.Err? ==> r.error == if pivoting then SingularPivot else ZeroPivot
    decreases k
  {
    if k == 0 then Ok(S)
    else match Stage(S, solver, pivoting, k - 1)
      case Err(e) => Err(e)
      case Ok(T) => ColumnStep(T, solver, pivoting, k - 1)
  }

  lemma StageNext(S: System, solver: Solver, pivoting: bool, k: nat)
    requires WellShaped(S) && k < |S.M| && Stage(S, solver, pivoting, k).Ok?
    ensures Stage(S, solver, pivoting, k + 1) == ColumnStep(Stage(S, solver, pivoting, k).value, solver, pivoting, k)
  {
  }

  /** Once a column step has failed, the solver reports that failure and nothing later. */
  lemma {:induction false} StageStopsAtError(S: System, solver: Solver, pivoting: bool, j: nat, k: nat)
    requires WellShaped(S) && j <= k <= |S.M| && Stage(S, solver, pivoting, j).Err?
    ensures Stage(S, solver, pivoting, k) == Stage(S, solver, pivoting, j)
    decreases k
  {
    if k > j {
      StageStopsAtError(S, solver, pivoting, j, k - 1);
    }
  }

  /** Column j is where the solver stops: the steps before it succeed and its pivot step fails. */
  ghost predicate FailsAt(S: System, solver: Solver, pivoting: bool, j: nat)
    requires WellShaped(S) && j < |S.M|
  {
    Stage(S, solver, pivoting, j).Ok? && Pivoted(Stage(S, solver, pivoting, j).value, j, pivoting).Err?
  }

  /** A failed run names a column whose pivot step failed. */
  lemma {:induction false} FailingColumn(S: System, solver: Solver, pivoting: bool, k: nat) returns (j: nat)
    requires WellShaped(S) && k <= |S.M| && Stage(S, solver, pivoting, k).Err?
    ensures j < k && FailsAt(S, solver, pivoting, j)
    decreases k
  {
    if Stage(S, solver, pivoting, k - 1).Err? {
      j := FailingColumn(S, solver, pivoting, k - 1);
    } else {
      StageNext(S, solver, pivoting, k - 1);
      j := k - 1;
    }
  }

  /** A column whose pivot step fails stops every longer run. */
  lemma FailureStops(S: System, solver: Solver, pivoting: bool, j: nat, k: nat)
    requires WellShaped(S) && j < k <= |S.M| && FailsAt(S, solver, pivoting, j)
    ensures Stage(S, solver, pivoting, k).Err?
  {
    StageNext(S, solver, pivoting, j);
    StageStopsAtError(S, solver, pivoting, j + 1, k);
  }

  /** The column steps 0..k-1 fail exactly when the pivot step of one of those columns fails. */
  lemma StageFailsIff(S: System, solver: Solver, pivoting: bool, k: nat)
    requires WellShaped(S) && k <= |S.M|
    ensures Stage(S, solver, pivoting, k).Err? <==> exists j :: 0 <= j < k && FailsAt(S, solver, pivoting, j)
  {
    if Stage(S, solver, pivoting, k).Err? {
      var j := FailingColumn(S, solver, pivoting, k);
    } else {
      forall j | 0 <= j < k ensures !FailsAt(S, solver, pivoting, j) {
        if FailsAt(S, solver, pivoting, j) {
          FailureStops(S, solver, pivoting, j, k);
        }
      }
    }
  }

  /**
   * Without pivoting, a solver raises the zero-pivot error within its first k columns exactly
   * when, for some column j < k, the diagonal entry reached after the steps for columns 0..j-1
   * is zero.
   */
  lemma NoPivotFailsIffZeroDiagonal(S: System, solver: Solver, k: nat)
    requires WellShaped(S) && k <= |S.M|
    ensures Stage(S, solver, false, k) == Err(ZeroPivot) <==>
      exists j :: 0 <= j < k && Stage(S, solver, false, j).Ok? && Stage(S, solver, false, j).value.M[j][j] == 0.0
  {
    StageFailsIff(S, solver, false, k);
    if Stage(S, solver, false, k).Err? {
      var j :| 0 <= j < k && FailsAt(S, solver, false, j);
      assert Stage(S, solver, false, j).value.M[j][j] == 0.0;
      assert Stage(S, solver, false, k) == Err(ZeroPivot);
      assert exists j :: 0 <= j < k && Stage(S, solver, false, j).Ok? && Stage(S, solver, false, j).value.M[j][j] == 0.0;
    } else {
      forall j | 0 <= j < k && Stage(S, solver, false, j).Ok?
        ensures Stage(S, solver, false, j).value.M[j][j] != 0.0
      {
        assert !FailsAt(S, solver, false, j);
      }
    }
  }

  /** Column j of the system is zero from row j down: no row there can serve as pivot. */
  ghost predicate ColumnZeroFrom(T: System, j: nat)
    requires WellShaped(T) && j < |T.M|
  {
    forall r :: j <= r < |T.M| ==> T.M[r][j] == 0.0
  }

  /**
   * With pivoting, a solver raises the singular-pivot error within its first k columns exactly
   * when, for some column j < k, the system reached after the steps for columns 0..j-1 is zero
   * in column j from row j down.
   */
  lemma PivotingFailsIffZeroColumn(S: System, solver: Solver, k: nat)
    requires WellShaped(S) && k <= |S.M|
    ensures Stage(S, solver, true, k) == Err(SingularPivot) <==>
      exists j :: 0 <= j < k && Stage(S, solver, true, j).Ok? && ColumnZeroFrom(Stage(S, solver, true, j).value, j)
  {
    StageFailsIff(S, solver, true, k);
    if Stage(S, solver, true, k).Err? {
      var j :| 0 <= j < k && FailsAt(S, solver, true, j);
      assert ColumnZeroFrom(Stage(S, solver, true, j).value, j);
      assert Stage(S, solver, true, k) == Err(SingularPivot);
      assert exists j :: 0 <= j < k && Stage(S, solver, true, j).Ok? && ColumnZeroFrom(Stage(S, solver, true, j).value, j);
    } else {
      forall j | 0 <= j < k && Stage(S, solver, true, j).Ok?
        ensures !ColumnZeroFrom(Stage(S, solver, true, j).value, j)
      {
        assert !FailsAt(S, solver, true, j);
      }
      assert Stage(S, solver, true, k) != Err(SingularPivot);
      assert !exists j :: 0 <= j < k && Stage(S, solver, true, j).Ok? && ColumnZeroFrom(Stage(S, solver, true, j).value, j);
    }
  }
}
