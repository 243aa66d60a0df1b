/**
 * Exact linear algebra over `real`: the sums, products and norms the solvers compute,
 * what it means for a vector to solve a system, the three row operations of elimination
 * and the facts that those operations change no solution.
 */
module LinearAlgebra {

  type Vector = seq<real>
  type Matrix = seq<seq<real>>

  function Abs(x: real): real { if x < 0.0 then -x else x }

  /** Every row has exactly as many entries as the matrix has rows (es_cuadrada). */
  predicate IsSquare(A: Matrix) {
    forall i :: 0 <= i < |A| ==> |A[i]| == |A|
  }

  function Zeros(n: nat): Vector { seq(n, _ => 0.0) }

  /** u[lo]*x[lo] + ... + u[hi-1]*x[hi-1], accumulated from the left as the source's loops do. */
  function Sum(u: Vector, x: Vector, lo: nat, hi: nat): real
    requires hi <= |u| && hi <= |x|
    decreases hi
  {
    if hi <= lo then 0.0 else Sum(u, x, lo, hi - 1) + u[hi - 1] * x[hi - 1]
  }

  /** The same sum over 0 <= t < hi with the term t == skip left out (Jacobi's off-diagonal sum). */
  function SumExcept(u: Vector, x: Vector, skip: nat, hi: nat): real
    requires hi <= |u| && hi <= |x|
  {
    if hi == 0 then 0.0
    else SumExcept(u, x, skip, hi - 1) + (if hi - 1 == skip then 0.0 else u[hi - 1] * x[hi - 1])
  }

  /** |u[0]| + ... + |u[hi-1]| without the term skip (the off-diagonal mass of a row). */
  function AbsSumExcept(u: Vector, skip: nat, hi: nat): real
    requires hi <= |u|
  {
    if hi == 0 then 0.0
    else AbsSumExcept(u, skip, hi - 1) + (if hi - 1 == skip then 0.0 else Abs(u[hi - 1]))
  }

  function Dot(u: Vector, x: Vector): real
    requires |u| == |x|
  {
    Sum(u, x, 0, |u|)
  }

  /** The product A*x, one dot product per row. */
  function MatVec(A: Matrix, x: Vector): Vector
    requires forall i :: 0 <= i < |A| ==> |A[i]| == |x|
  {
    seq(|A|, i requires 0 <= i < |A| => Dot(A[i], x))
  }

  /** x solves A*x = b exactly. */
  predicate Solves(A: Matrix, b: Vector, x: Vector) {
    |b| == |A| && |x| == |A| &&
    forall i :: 0 <= i < |A| ==> |A[i]| == |x| && Dot(A[i], x) == b[i]
  }

  /** A has a nonzero vector in its kernel, so A*x = b never has exactly one solution. */
  ghost predicate IsSingular(A: Matrix) {
    exists y :: y != Zeros(|A|) && Solves(A, Zeros(|A|), y)
  }

  /** Componentwise difference u - v. */
  function Diff(u: Vector, v: Vector): Vector
    requires |u| == |v|
  {
    seq(|u|, i requires 0 <= i < |u| => u[i] - v[i])
  }

  /** max |v_i| computed as norma_infinito does: start at 0 and keep any strictly larger value. */
  function Norm(v: Vector): real
    decreases |v|
  {
    if |v| == 0 then 0.0
    else
      var m := Norm(v[..|v| - 1]);
      if Abs(v[|v| - 1]) > m then Abs(v[|v| - 1]) else m
  }

  predicate NonZeroDiagonal(A: Matrix) {
    forall i :: 0 <= i < |A| && i < |A[i]| ==> A[i][i] != 0.0
  }

  /** Strict diagonal dominance: |A[i][i]| > sum over j != i of |A[i][j]|, for every row. */
  predicate DiagonallyDominant(A: Matrix)
    requires IsSquare(A)
  {
    forall i :: 0 <= i < |A| ==> Abs(A[i][i]) > AbsSumExcept(A[i], i, |A|)
  }

  /** Columns 0..k-1 of the square matrix M are zero below the diagonal. */
  ghost predicate ZeroBelowDiagonal(M: Matrix, k: nat) {
    IsSquare(M) && forall r, c :: 0 <= c < k && c < r < |M| ==> M[r][c] == 0.0
  }

  /** Columns 0..k-1 of the square matrix M are reduced: zero below a nonzero diagonal entry. */
  ghost predicate Staircase(M: Matrix, k: nat) {
    ZeroBelowDiagonal(M, k) && forall c :: 0 <= c < k && c < |M| ==> M[c][c] != 0.0
  }

  ghost predicate IsIdentity(M: Matrix) {
    IsSquare(M) &&
    forall r, c :: 0 <= r < |M| && 0 <= c < |M| ==> M[r][c] == if r == c then 1.0 else 0.0
  }

  // ---------------------------------------------------------------------------------------
  // Row operations, on values

  /** s with the entries (rows) k and p exchanged. */
  function Swapped<T>(s: seq<T>, k: nat, p: nat): seq<T>
    requires k < |s| && p < |s|
  {
    s[k := s[p]][p := s[k]]
  }

  /** Row i replaced by row i minus m times row k. */
  function RowMinus(M: Matrix, i: nat, k: nat, m: real): Matrix
    requires i < |M| && k < |M| && |M[k]| == |M[i]|
  {
    M[i := seq(|M[i]|, j requires 0 <= j < |M[i]| => M[i][j] - m * M[k][j])]
  }

  /** Entry i of the right-hand side minus m times entry k. */
  function EntryMinus(v: Vector, i: nat, k: nat, m: real): Vector
    requires i < |v| && k < |v|
  {
    v[i := v[i] - m * v[k]]
  }

  /** Entry k of the right-hand side divided by c. */
  function EntryDivided(v: Vector, k: nat, c: real): Vector
    requires k < |v| && c != 0.0
  {
    v[k := v[k] / c]
  }

  /** Row k divided by c. */
  function RowDivided(M: Matrix, k: nat, c: real): Matrix
    requires k < |M| && c != 0.0
  {
    M[k := seq(|M[k]|, j requires 0 <= j < |M[k]| => M[k][j] / c)]
  }

  /** The systems (M, v) and (M0, v0) have the same solutions. */
  ghost predicate SameSolutions(M: Matrix, v: Vector, M0: Matrix, v0: Vector) {
    forall x :: Solves(M, v, x) <==> Solves(M0, v0, x)
  }

  /**
   * (M, v) is obtained from (M0, v0) by solution-preserving row operations: the two systems have
   * the same solutions, and so do their homogeneous versions (same kernel).
   */
  ghost predicate RowEquivalent(M: Matrix, v: Vector, M0: Matrix, v0: Vector) {
    |M| == |M0| &&
    SameSolutions(M, v, M0, v0) &&
    SameSolutions(M, Zeros(|M|), M0, Zeros(|M0|))
  }

  // ---------------------------------------------------------------------------------------
  // Facts about sums

  lemma {:induction false} SumFrame(u: Vector, x: Vector, w: Vector, y: Vector, lo: nat, hi: nat)
    requires hi <= |u| && hi <= |x| && hi <= |w| && hi <= |y|
    requires forall t :: lo <= t < hi ==> u[t] * x[t] == w[t] * y[t]
    ensures Sum(u, x, lo, hi) == Sum(w, y, lo, hi)
    decreases hi
  {
    if hi > lo {
      SumFrame(u, x, w, y, lo, hi - 1);
    }
  }

  /** The sum only reads x on [lo, hi). */
  lemma {:induction false} SumSameEntries(u: Vector, x: Vector, y: Vector, lo: nat, hi: nat)
    requires hi <= |u| && hi <= |x| && hi <= |y|
    requires forall t :: lo <= t < hi ==> x[t] == y[t]
    ensures Sum(u, x, lo, hi) == Sum(u, y, lo, hi)
    decreases hi
  {
    if hi > lo {
      SumSameEntries(u, x, y, lo, hi - 1);
    }
  }

  lemma {:induction false} SumOfZeroTerms(u: Vector, x: Vector, lo: nat, hi: nat)
    requires hi <= |u| && hi <= |x|
    requires forall t :: lo <= t < hi ==> u[t] == 0.0 || x[t] == 0.0
    ensures Sum(u, x, lo, hi) == 0.0
    decreases hi
  {
    if hi > lo {
      SumOfZeroTerms(u, x, lo, hi - 1);
    }
  }

  lemma {:induction false} SumSplit(u: Vector, x: Vector, lo: nat, mid: nat, hi: nat)
    requires lo <= mid <= hi <= |u| && hi <= |x|
    ensures Sum(u, x, lo, hi) == Sum(u, x, lo, mid) + Sum(u, x, mid, hi)
    decreases hi
  {
    if hi > mid {
      SumSplit(u, x, lo, mid, hi - 1);
    }
  }

  /** Sum is linear in the coefficients: row operations act on dot products. */
  lemma {:induction false} SumOfCombination(u: Vector, v: Vector, w: Vector, x: Vector, m: real, lo: nat, hi: nat)
    requires hi <= |u| && hi <= |v| && hi <= |w| && hi <= |x|
    requires forall t :: lo <= t < hi ==> w[t] == u[t] - m * v[t]
    ensures Sum(w, x, lo, hi) == Sum(u, x, lo, hi) - m * Sum(v, x, lo, hi)
    decreases hi
  {
    if hi > lo {
      SumOfCombination(u, v, w, x, m, lo, hi - 1);
      var t := hi - 1;
      assert w[t] * x[t] == u[t] * x[t] - m * (v[t] * x[t]);
    }
  }

  lemma {:induction false} SumOfQuotient(u: Vector, w: Vector, x: Vector, c: real, lo: nat, hi: nat)
    requires c != 0.0
    requires hi <= |u| && hi <= |w| && hi <= |x|
    requires forall t :: lo <= t < hi ==> w[t] == u[t] / c
    ensures Sum(w, x, lo, hi) * c == Sum(u, x, lo, hi)
    decreases hi
  {
    if hi > lo {
      SumOfQuotient(u, w, x, c, lo, hi - 1);
      var t := hi - 1;
      assert w[t] * c == u[t];
      assert w[t] * x[t] * c == u[t] * x[t];
    }
  }

  /** Sum is linear in the vector too. */
  lemma {:induction false} SumOfVectorSum(u: Vector, x: Vector, y: Vector, z: Vector, lo: nat, hi: nat)
    requires hi <= |u| && hi <= |x| && hi <= |y| && hi <= |z|
    requires forall t :: lo <= t < hi ==> z[t] == x[t] + y[t]
    ensures Sum(u, z, lo, hi) == Sum(u, x, lo, hi) + Sum(u, y, lo, hi)
    decreases hi
  {
    if hi > lo {
      SumOfVectorSum(u, x, y, z, lo, hi - 1);
      var t := hi - 1;
      assert u[t] * z[t] == u[t] * x[t] + u[t] * y[t];
    }
  }

  /** Leaving out one term: the off-diagonal sum is the full sum minus the diagonal term. */
  lemma {:induction false} SumExceptIsSumMinusTerm(u: Vector, x: Vector, skip: nat, hi: nat)
    requires hi <= |u| && hi <= |x|
    ensures skip < hi ==> SumExcept(u, x, skip, hi) == Sum(u, x, 0, hi) - u[skip] * x[skip]
    ensures skip >= hi ==> SumExcept(u, x, skip, hi) == Sum(u, x, 0, hi)
  {
    if hi > 0 {
      SumExceptIsSumMinusTerm(u, x, skip, hi - 1);
    }
  }

  lemma {:induction false} AbsSumExceptNonNegative(u: Vector, skip: nat, hi: nat)
    requires hi <= |u|
    ensures AbsSumExcept(u, skip, hi) >= 0.0
  {
    if hi > 0 {
      AbsSumExceptNonNegative(u, skip, hi - 1);
    }
  }

  /** A row whose entries before r are zero: its dot product starts at the diagonal term. */
  lemma RowFromDiagonal(u: Vector, x: Vector, r: nat)
    requires r < |u| == |x|
    requires forall t :: 0 <= t < r ==> u[t] == 0.0
    ensures Dot(u, x) == u[r] * x[r] + Sum(u, x, r + 1, |u|)
  {
    SumSplit(u, x, 0, r, |u|);
    SumOfZeroTerms(u, x, 0, r);
    SumSplit(u, x, r, r + 1, |u|);
    assert Sum(u, x, r, r + 1) == Sum(u, x, r, r) + u[r] * x[r];
  }

  /** A dot product split around entry i: the terms before it, the term itself and those after. */
  lemma DotAroundEntry(u: Vector, x: Vector, i: nat)
    requires i < |u| == |x|
    ensures Dot(u, x) == Sum(u, x, 0, i) + u[i] * x[i] + Sum(u, x, i + 1, |u|)
  {
    SumSplit(u, x, 0, i, |u|);
    SumSplit(u, x, i, i + 1, |u|);
    assert Sum(u, x, i, i + 1) == Sum(u, x, i, i) + u[i] * x[i];
  }

  // ---------------------------------------------------------------------------------------
  // The infinity norm

  /** norma_infinito is the largest |v_i|: it bounds every entry, is 0 on [] and is attained. */
  lemma {:induction false} NormIsMaximum(v: Vector)
    ensures Norm(v) >= 0.0
    ensures forall i :: 0 <= i < |v| ==> Abs(v[i]) <= Norm(v)
    ensures |v| == 0 ==> Norm(v) == 0.0
    ensures |v| > 0 ==> exists i :: 0 <= i < |v| && Norm(v) == Abs(v[i])
    decreases |v|
  {
    if |v| > 0 {
      var w := v[..|v| - 1];
      NormIsMaximum(w);
      assert forall i :: 0 <= i < |w| ==> v[i] == w[i];
      if |w| > 0 && Norm(v) == Norm(w) {
        var i :| 0 <= i < |w| && Norm(w) == Abs(w[i]);
        assert Norm(v) == Abs(v[i]);
      }
    }
  }

  /** The norm is zero exactly for the zero vector. */
  lemma NormZeroIff(v: Vector)
    ensures Norm(v) == 0.0 <==> forall i :: 0 <= i < |v| ==> v[i] == 0.0
  {
    NormIsMaximum(v);
    if Norm(v) != 0.0 && |v| > 0 {
      var i :| 0 <= i < |v| && Norm(v) == Abs(v[i]);
      assert v[i] != 0.0;
    }
  }

  // ---------------------------------------------------------------------------------------
  // Solutions and products

  /** Solving A*x = b is the same as A*x being b as a vector. */
  lemma SolvesIffMatVec(A: Matrix, b: Vector, x: Vector)
    requires IsSquare(A) && |x| == |A|
    ensures Solves(A, b, x) <==> MatVec(A, x) == b
  {
    if MatVec(A, x) == b {
      forall i | 0 <= i < |A| ensures Dot(A[i], x) == b[i] {
        assert MatVec(A, x)[i] == Dot(A[i], x);
      }
    }
  }

  /** The residual b - A*x has norm zero exactly when x solves the system. */
  lemma ResidualZeroIffSolves(A: Matrix, b: Vector, x: Vector, r: Vector)
    requires IsSquare(A) && |x| == |A| && |b| == |A| && |r| == |A|
    requires forall i :: 0 <= i < |A| ==> r[i] == b[i] - Dot(A[i], x)
    ensures Norm(r) == 0.0 <==> Solves(A, b, x)
  {
    NormZeroIff(r);
  }

  /** A strictly dominant diagonal has no zero on it, so the iterative methods never raise. */
  lemma DominantHasNonZeroDiagonal(A: Matrix)
    requires IsSquare(A) && DiagonallyDominant(A)
    ensures NonZeroDiagonal(A)
  {
    forall i | 0 <= i < |A| ensures A[i][i] != 0.0 {
      AbsSumExceptNonNegative(A[i], i, |A|);
    }
  }

  // ---------------------------------------------------------------------------------------
  // Row operations keep the solutions

  lemma SwapKeepsSolutions(M: Matrix, v: Vector, k: nat, p: nat)
    requires k < |M| && p < |M| && |v| == |M|
    ensures SameSolutions(Swapped(M, k, p), Swapped(v, k, p), M, v)
  {
    var S, w := Swapped(M, k, p), Swapped(v, k, p);
    forall x ensures Solves(S, w, x) <==> Solves(M, v, x) {
      if Solves(M, v, x) {
        forall i | 0 <= i < |S| ensures |S[i]| == |x| && Dot(S[i], x) == w[i] {
          var src := if i == k then p else if i == p then k else i;
          assert S[i] == M[src] && w[i] == v[src];
        }
      }
      if Solves(S, w, x) {
        forall i | 0 <= i < |M| ensures |M[i]| == |x| && Dot(M[i], x) == v[i] {
          var src := if i == k then p else if i == p then k else i;
          assert M[i] == S[src] && v[i] == w[src];
        }
      }
    }
  }

  lemma RowMinusKeepsSolutions(M: Matrix, v: Vector, i: nat, k: nat, m: real)
    requires IsSquare(M) && |v| == |M| && i < |M| && k < |M| && i != k
    ensures SameSolutions(RowMinus(M, i, k, m), EntryMinus(v, i, k, m), M, v)
  {
    var R, w := RowMinus(M, i, k, m), EntryMinus(v, i, k, m);
    forall x | |x| == |M| ensures Solves(R, w, x) <==> Solves(M, v, x) {
      SumOfCombination(M[i], M[k], R[i], x, m, 0, |x|);
      assert Dot(R[i], x) == Dot(M[i], x) - m * Dot(M[k], x);
      assert R[k] == M[k];
      if Solves(R, w, x) {
        assert Dot(M[k], x) == v[k];
        forall r | 0 <= r < |M| ensures Dot(M[r], x) == v[r] {
          if r != i {
            assert R[r] == M[r];
          }
        }
      }
      if Solves(M, v, x) {
        forall r | 0 <= r < |R| ensures |R[r]| == |x| && Dot(R[r], x) == w[r] {
          if r != i {
            assert R[r] == M[r];
          }
        }
      }
    }
  }

  lemma RowDividedKeepsSolutions(M: Matrix, v: Vector, k: nat, c: real)
    requires IsSquare(M) && |v| == |M| && k < |M| && c != 0.0
    ensures SameSolutions(RowDivided(M, k, c), EntryDivided(v, k, c), M, v)
  {
    var R, w := RowDivided(M, k, c), EntryDivided(v, k, c);
    forall x | |x| == |M| ensures Solves(R, w, x) <==> Solves(M, v, x) {
      SumOfQuotient(M[k], R[k], x, c, 0, |x|);
      assert Dot(R[k], x) * c == Dot(M[k], x);
      if Solves(R, w, x) {
        forall r | 0 <= r < |M| ensures Dot(M[r], x) == v[r] {
          if r != k {
            assert R[r] == M[r];
          } else {
            assert Dot(R[k], x) == v[k] / c;
          }
        }
      }
      if Solves(M, v, x) {
        forall r | 0 <= r < |R| ensures |R[r]| == |x| && Dot(R[r], x) == w[r] {
          if r != k {
            assert R[r] == M[r];
          } else {
            assert Dot(R[k], x) * c == v[k];
          }
        }
      }
    }
  }

  lemma QuotientBySelf(c: real)
    requires c != 0.0
    ensures c / c == 1.0
  {
  }

  lemma QuotientTimesDivisor(p: real, d: real, y: real)
    requires d != 0.0 && y == p / d
    ensures d * y == p
  {
  }

  /** Subtracting (p / d) times d from p leaves nothing: the elimination multiplier clears its entry. */
  lemma MultipleCancels(p: real, d: real)
    requires d != 0.0
    ensures p - p / d * d == 0.0
  {
  }

  lemma CancelFactor(d: real, p: real, q: real)
    requires d != 0.0 && d * p == d * q
    ensures p == q
  {
    assert d * (p - q) == 0.0;
  }

  /** Equal parts make equal balances: d*v + s + t == c carries over from the primed values. */
  lemma Rebalance(d: real, v: real, v': real, s: real, s': real, t: real, t': real, c: real)
    requires v == v' && s == s' && t == t' && d * v' + s' + t' == c
    ensures d * v + s + t == c
  {
  }

  /** The unknown v in d*v + s + t == c is determined when d is nonzero. */
  lemma SameBalance(d: real, v: real, w: real, s: real, t: real, c: real)
    requires d != 0.0 && d * v + s + t == c && d * w + s + t == c
    ensures v == w
  {
    CancelFactor(d, v, w);
  }

  lemma RowEquivalentTrans(M2: Matrix, v2: Vector, M1: Matrix, v1: Vector, M0: Matrix, v0: Vector)
    requires RowEquivalent(M2, v2, M1, v1) && RowEquivalent(M1, v1, M0, v0)
    ensures RowEquivalent(M2, v2, M0, v0)
  {
  }

  /** Row operations on the zero right-hand side leave it zero. */
  lemma ZerosUnchanged(n: nat, i: nat, k: nat, m: real)
    requires i < n && k < n
    ensures EntryMinus(Zeros(n), i, k, m) == Zeros(n)
    ensures Swapped(Zeros(n), i, k) == Zeros(n)
    ensures forall c :: c != 0.0 ==> EntryDivided(Zeros(n), i, c) == Zeros(n)
  {
    var z := Zeros(n);
    assert z[i] == 0.0 && z[k] == 0.0;
    assert EntryMinus(z, i, k, m) == z[i := z[i] - m * z[k]];
    assert z[i] - m * z[k] == 0.0;
    assert z[i := 0.0] == z;
    forall c | c != 0.0 ensures EntryDivided(z, i, c) == z {
      assert z[i] / c == 0.0;
    }
  }

  /** Exchanging two rows of the augmented matrix keeps the system equivalent. */
  lemma SwapKeepsEquivalence(M: Matrix, v: Vector, k: nat, p: nat)
    requires k < |M| && p < |M| && |v| == |M|
    ensures RowEquivalent(Swapped(M, k, p), Swapped(v, k, p), M, v)
  {
    SwapKeepsSolutions(M, v, k, p);
    SwapKeepsSolutions(M, Zeros(|M|), k, p);
    ZerosUnchanged(|M|, k, p, 0.0);
  }

  /** Subtracting a multiple of another row keeps the system equivalent. */
  lemma RowMinusKeepsEquivalence(M: Matrix, v: Vector, i: nat, k: nat, m: real)
    requires IsSquare(M) && |v| == |M| && i < |M| && k < |M| && i != k
    ensures RowEquivalent(RowMinus(M, i, k, m), EntryMinus(v, i, k, m), M, v)
  {
    RowMinusKeepsSolutions(M, v, i, k, m);
    var z := Zeros(|M|);
    RowMinusKeepsSolutions(M, z, i, k, m);
    ZerosUnchanged(|M|, i, k, m);
  }

  /** Dividing a row by a nonzero number keeps the system equivalent. */
  lemma RowDividedKeepsEquivalence(M: Matrix, v: Vector, k: nat, c: real)
    requires IsSquare(M) && |v| == |M| && k < |M| && c != 0.0
    ensures RowEquivalent(RowDivided(M, k, c), EntryDivided(v, k, c), M, v)
  {
    RowDividedKeepsSolutions(M, v, k, c);
    var z := Zeros(|M|);
    RowDividedKeepsSolutions(M, z, k, c);
    ZerosUnchanged(|M|, k, k, 0.0);
    assert EntryDivided(z, k, c) == z;
  }

  // ---------------------------------------------------------------------------------------
  // Reduced forms

  /** An upper-triangular system with a nonzero diagonal has at most one solution. */
  lemma TriangularSolutionUnique(U: Matrix, c: Vector, x: Vector, y: Vector)
    requires ZeroBelowDiagonal(U, |U|) && NonZeroDiagonal(U)
    requires Solves(U, c, x) && Solves(U, c, y)
    ensures x == y
  {
    var n := |U|;
    var r := n;
    while r > 0
      invariant 0 <= r <= n
      invariant forall t :: r <= t < n ==> x[t] == y[t]
    {
      r := r - 1;
      assert |U[r]| == n;
      RowFromDiagonal(U[r], x, r);
      RowFromDiagonal(U[r], y, r);
      SumFrame(U[r], x, U[r], y, r + 1, n);
      assert Dot(U[r], x) == c[r] == Dot(U[r], y);
      assert Dot(U[r], x) == U[r][r] * x[r] + Sum(U[r], x, r + 1, n);
      assert Dot(U[r], y) == U[r][r] * y[r] + Sum(U[r], y, r + 1, n);
      assert Sum(U[r], x, r + 1, n) == Sum(U[r], y, r + 1, n);
      SameBalance(U[r][r], x[r], y[r], Sum(U[r], x, r + 1, n), 0.0, c[r]);
    }
  }

  /** With the identity as coefficient matrix the only solution is the right-hand side. */
  lemma IdentitySolutions(M: Matrix, v: Vector)
    requires IsIdentity(M) && |v| == |M|
    ensures forall x :: Solves(M, v, x) <==> x == v
  {
    forall x | |x| == |M| ensures Solves(M, v, x) <==> x == v {
      forall r | 0 <= r < |M| ensures Dot(M[r], x) == x[r] {
        RowFromDiagonal(M[r], x, r);
        SumOfZeroTerms(M[r], x, r + 1, |M|);
      }
    }
  }

  /**
   * The state in which both direct solvers report a zero pivot: columns before k are reduced
   * (zero below a nonzero diagonal) and column k is zero from row k down. Such a matrix has a
   * nonzero kernel vector: 1 at k, 0 after k, and back substitution above k.
   */
  lemma StaircaseIsSingular(U: Matrix, k: nat)
    requires Staircase(U, k) && k < |U|
    requires forall r :: k <= r < |U| ==> U[r][k] == 0.0
    ensures IsSingular(U)
  {
    var n := |U|;
    var y: Vector := seq(n, j requires 0 <= j < n => if j == k then 1.0 else 0.0);
    var c := k;
    while c > 0
      invariant 0 <= c <= k && |y| == n
      invariant y[k] == 1.0 && forall j :: k < j < n ==> y[j] == 0.0
      invariant forall r :: c <= r < k ==> Dot(U[r], y) == 0.0
    {
      c := c - 1;
      var y' := y[c := -Sum(U[c], y, c + 1, n) / U[c][c]];
      SumFrame(U[c], y', U[c], y, c + 1, n);
      RowFromDiagonal(U[c], y', c);
      QuotientTimesDivisor(-Sum(U[c], y, c + 1, n), U[c][c], y'[c]);
      forall r | c < r < k ensures Dot(U[r], y') == 0.0 {
        SumFrame(U[r], y', U[r], y, 0, n);
      }
      y := y';
    }
    forall r | k <= r < n ensures Dot(U[r], y) == 0.0 {
      SumOfZeroTerms(U[r], y, 0, n);
    }
    assert Solves(U, Zeros(n), y);
    assert y[k] != Zeros(n)[k];
  }

  /** A system with exactly one solution has a nonsingular matrix. */
  lemma UniqueSolutionMeansNonsingular(A: Matrix, b: Vector, x: Vector)
    requires Solves(A, b, x)
    requires forall y :: Solves(A, b, y) ==> y == x
    ensures !IsSingular(A)
  {
    var n := |A|;
    forall k | Solves(A, Zeros(n), k) ensures k == Zeros(n) {
      var z := seq(n, i requires 0 <= i < n => x[i] + k[i]);
      forall i | 0 <= i < n ensures Dot(A[i], z) == b[i] {
        SumOfVectorSum(A[i], x, k, z, 0, n);
      }
      assert Solves(A, b, z);
      assert forall i :: 0 <= i < n ==> k[i] == z[i] - x[i] == 0.0;
    }
  }
}
