/**
 * The mathematical meaning of DMatrix::gaussianElimination
 * (src/DMatrix.cpp): forward elimination with partial pivoting followed by
 * back substitution, over exact reals, on a square system A u = b.
 */
module Elimination {
  import opened Wrappers
  import opened LinearAlgebra

  /** The working pair (A, b) of one elimination run. */
  datatype System = System(A: Matrix, b: seq<real>)

  ghost predicate Square(A: Matrix, b: seq<real>, n: nat) {
    IsMatrix(A, n, n) && |b| == n
  }

  function Abs(x: real): (a: real)
    ensures a >= 0.0 && (a == x || a == -x)
    ensures a == 0.0 <==> x == 0.0
  {
    if x < 0.0 then -x else x
  }

  /** `s` with the entries at i and j exchanged. */
  function Swap<T>(s: seq<T>, i: nat, j: nat): (r: seq<T>)
    requires i < |s| && j < |s|
    ensures |r| == |s| && r[i] == s[j] && r[j] == s[i]
    ensures forall k :: 0 <= k < |s| && k != i && k != j ==> r[k] == s[k]
  {
    s[i := s[j]][j := s[i]]
  }

  lemma {:induction false} SwapInvolution<T>(s: seq<T>, i: nat, j: nat)
    requires i < |s| && j < |s|
    ensures Swap(Swap(s, i, j), i, j) == s
  {
    assert forall k :: 0 <= k < |s| ==> Swap(Swap(s, i, j), i, j)[k] == s[k];
  }

  /**
   * The pivot search of step i: the scan over rows r, r+1, ..., n-1 that
   * replaces the current best row only by a strictly larger |A[r][i]|.
   */
  function PivotScan(A: Matrix, n: nat, i: nat, r: nat, best: nat): (p: nat)
    requires IsMatrix(A, n, n) && i <= best < r <= n
    ensures i <= p < n
    decreases n - r
  {
    if r == n then best
    else PivotScan(A, n, i, r + 1, if Abs(A[r][i]) > Abs(A[best][i]) then r else best)
  }

  function Pivot(A: Matrix, n: nat, i: nat): (p: nat)
    requires IsMatrix(A, n, n) && i < n
    ensures i <= p < n
  {
    PivotScan(A, n, i, i + 1, i)
  }

  lemma {:induction false} PivotScanFirstMax(A: Matrix, n: nat, i: nat, r: nat, best: nat)
    requires IsMatrix(A, n, n) && i <= best < r <= n
    requires forall k :: i <= k < r ==> Abs(A[k][i]) <= Abs(A[best][i])
    requires forall k :: i <= k < best ==> Abs(A[k][i]) < Abs(A[best][i])
    ensures var p := PivotScan(A, n, i, r, best);
      (forall k :: i <= k < n ==> Abs(A[k][i]) <= Abs(A[p][i])) &&
      (forall k :: i <= k < p ==> Abs(A[k][i]) < Abs(A[p][i]))
    decreases n - r
  {
    if r < n {
      PivotScanFirstMax(A, n, i, r + 1, if Abs(A[r][i]) > Abs(A[best][i]) then r else best);
    }
  }

  /**
   * The pivot of step i is the first row at or below i whose entry in
   * column i has the largest absolute value.
   */
  lemma {:induction false} PivotIsFirstMax(A: Matrix, n: nat, i: nat)
    requires IsMatrix(A, n, n) && i < n
    ensures var p := Pivot(A, n, i);
      i <= p < n &&
      (forall k :: i <= k < n ==> Abs(A[k][i]) <= Abs(A[p][i])) &&
      (forall k :: i <= k < p ==> Abs(A[k][i]) < Abs(A[p][i]))
  {
    PivotScanFirstMax(A, n, i, i + 1, i);
  }

  /** The multiplier that cancels A[r][i] against the pivot row i. */
  function Multiplier(A: Matrix, r: nat, i: nat): real
    requires r < |A| && i < |A| && i < |A[r]| && i < |A[i]| && A[i][i] != 0.0
  {
    -A[r][i] / A[i][i]
  }

  /** The multiplier cancels the entry below the pivot. */
  lemma MultiplierCancels(A: Matrix, r: nat, i: nat)
    requires r < |A| && i < |A| && i < |A[r]| && i < |A[i]| && A[i][i] != 0.0
    ensures A[r][i] + Multiplier(A, r, i) * A[i][i] == 0.0
  {
  }

  /**
   * Row `row` after elimination against the pivot row `piv` in column i:
   * columns before i are left alone, column i is set to zero and every
   * later column gets m times the pivot row's entry added.
   */
  function ElimRow(row: seq<real>, piv: seq<real>, i: nat): (r: seq<real>)
    requires |row| == |piv| && i < |row| && piv[i] != 0.0
    ensures |r| == |row| && r[i] == 0.0
    ensures forall c :: 0 <= c < i ==> r[c] == row[c]
  {
    var m := -row[i] / piv[i];
    seq(|row|, c requires 0 <= c < |row| =>
      if c < i then row[c] else if c == i then 0.0 else row[c] + m * piv[c])
  }

  function EliminateBelow(A: Matrix, n: nat, i: nat): (E: Matrix)
    requires IsMatrix(A, n, n) && i < n && A[i][i] != 0.0
    ensures IsMatrix(E, n, n)
  {
    seq(n, r requires 0 <= r < n => if r <= i then A[r] else ElimRow(A[r], A[i], i))
  }

  /**
   * Elimination below the pivot leaves the rows up to the pivot row alone
   * and clears the pivot column below it, keeping the earlier columns.
   */
  lemma EliminateBelowShape(A: Matrix, n: nat, i: nat)
    requires IsMatrix(A, n, n) && i < n && A[i][i] != 0.0
    ensures var E := EliminateBelow(A, n, i);
      (forall r :: 0 <= r <= i ==> E[r] == A[r]) &&
      (forall r :: i < r < n ==> E[r][i] == 0.0) &&
      (forall r, c :: i < r < n && 0 <= c < i ==> E[r][c] == A[r][c])
  {
  }

  function EliminateRhs(A: Matrix, b: seq<real>, n: nat, i: nat): (e: seq<real>)
    requires Square(A, b, n) && i < n && A[i][i] != 0.0
    ensures |e| == n
    ensures forall r :: 0 <= r <= i ==> e[r] == b[r]
  {
    seq(n, r requires 0 <= r < n => if r <= i then b[r] else b[r] + Multiplier(A, r, i) * b[i])
  }

  /**
   * One iteration of the forward loop: pick the pivot, fail if its entry is
   * zero, exchange the pivot row with row i, eliminate below the pivot.
   */
  function Step(A: Matrix, b: seq<real>, n: nat, i: nat): (r: Result<System, nat>)
    requires Square(A, b, n) && i < n
    ensures r.Failure? ==> r.error == i
    ensures r.Success? ==> Square(r.value.A, r.value.b, n)
  {
    var p := Pivot(A, n, i);
    if Abs(A[p][i]) == 0.0 then Failure(i)
    else
      var A1 := if p != i then Swap(A, p, i) else A;
      var b1 := if p != i then Swap(b, p, i) else b;
      Success(System(EliminateBelow(A1, n, i), EliminateRhs(A1, b1, n, i)))
  }

  /**
   * The forward loop from step i on: steps i, ..., n-2 in turn, stopping
   * at the first step whose pivot is zero. The last diagonal entry is
   * never inspected.
   */
  function Forward(A: Matrix, b: seq<real>, n: nat, i: nat): (r: Result<System, nat>)
    requires Square(A, b, n) && i < n
    ensures r.Failure? ==> i <= r.error < n - 1
    ensures r.Success? ==> Square(r.value.A, r.value.b, n)
    decreases n - i
  {
    if i + 1 >= n then Success(System(A, b))
    else
      match Step(A, b, n, i)
      case Failure(k) => Failure(k)
      case Success(s) => Forward(s.A, s.b, n, i + 1)
  }

  /**
   * After i steps: every column before i is zero below the diagonal and
   * the diagonal entries before i are nonzero.
   */
  ghost predicate Reduced(A: Matrix, n: nat, i: nat) {
    IsMatrix(A, n, n) && i <= n &&
    (forall r, c :: 0 <= c < i && c < r < n ==> A[r][c] == 0.0) &&
    (forall k :: 0 <= k < i ==> A[k][k] != 0.0)
  }

  lemma {:induction false} ReducedStep(A: Matrix, b: seq<real>, n: nat, i: nat)
    requires Square(A, b, n) && i < n && Reduced(A, n, i)
    requires Step(A, b, n, i).Success?
    ensures Reduced(Step(A, b, n, i).value.A, n, i + 1)
  {
    var p := Pivot(A, n, i);
    var A1 := if p != i then Swap(A, p, i) else A;
    assert forall r, c :: 0 <= c < i && c < r < n ==> A1[r][c] == 0.0;
    var E := EliminateBelow(A1, n, i);
    assert forall r, c :: 0 <= c < i + 1 && c < r < n ==> E[r][c] == 0.0;
  }

  /** The state before step i of a forward pass. */
  ghost predicate Stage(A: Matrix, b: seq<real>, n: nat, i: nat) {
    Square(A, b, n) && i < n && Reduced(A, n, i)
  }

  /** One successful step leads to the state before the next step. */
  lemma StepStage(A: Matrix, b: seq<real>, n: nat, i: nat) returns (s: System)
    requires Stage(A, b, n, i) && i + 1 < n && Forward(A, b, n, i).Success?
    ensures Step(A, b, n, i) == Success(s)
    ensures Stage(s.A, s.b, n, i + 1) && Forward(A, b, n, i) == Forward(s.A, s.b, n, i + 1)
  {
    s := Step(A, b, n, i).value;
    ReducedStep(A, b, n, i);
  }

  /** A successful forward pass leaves an upper triangular matrix. */
  lemma {:induction false} ForwardShape(A: Matrix, b: seq<real>, n: nat, i: nat, r: System)
    requires Stage(A, b, n, i) && Forward(A, b, n, i) == Success(r)
    ensures Reduced(r.A, n, n - 1)
    decreases n - i
  {
    if i + 1 < n {
      var s := StepStage(A, b, n, i);
      ForwardShape(s.A, s.b, n, i + 1, r);
    } else {
      assert r == System(A, b);
    }
  }

  /** Exchanging two equations does not change the solutions. */
  lemma {:induction false} SwapSound(A: Matrix, b: seq<real>, n: nat, p: nat, i: nat, u: seq<real>)
    requires Square(A, b, n) && p < n && i < n && |u| == n
    ensures MatVec(Swap(A, p, i), u) == Swap(b, p, i) <==> MatVec(A, u) == b
  {
    var d := MatVec(A, u);
    assert MatVec(Swap(A, p, i), u) == Swap(d, p, i);
    if Swap(d, p, i) == Swap(b, p, i) {
      SwapInvolution(d, p, i);
      SwapInvolution(b, p, i);
    }
  }

  /** The eliminated row times u, in terms of the old rows times u. */
  lemma {:induction false} ElimRowDot(row: seq<real>, piv: seq<real>, i: nat, u: seq<real>)
    requires |row| == |piv| == |u| && i < |row| && piv[i] != 0.0
    requires forall c :: 0 <= c < i ==> piv[c] == 0.0
    ensures Dot(ElimRow(row, piv, i), u) == Dot(row, u) + (-row[i] / piv[i]) * Dot(piv, u)
  {
    var m := -row[i] / piv[i];
    var z := ElimRow(row, piv, i);
    assert z[i] == row[i] + m * piv[i];
    DotLinear(z, row, piv, u, m);
  }

  /** Each eliminated equation times u, in terms of the old equations times u. */
  lemma {:induction false} EliminatedProducts(A: Matrix, n: nat, i: nat, u: seq<real>, r: nat)
    requires IsMatrix(A, n, n) && i < r < n && |u| == n && A[i][i] != 0.0
    requires forall c :: 0 <= c < i ==> A[i][c] == 0.0
    ensures MatVec(EliminateBelow(A, n, i), u)[r] == MatVec(A, u)[r] + Multiplier(A, r, i) * MatVec(A, u)[i]
  {
    assert EliminateBelow(A, n, i)[r] == ElimRow(A[r], A[i], i);
    ElimRowDot(A[r], A[i], i, u);
  }

  /**
   * Adding multiples m[r] of equation i to the equations r below it is
   * reversible: the new left sides match the new right sides exactly when
   * the old ones matched.
   */
  lemma {:induction false} RowCombinationIff(d: seq<real>, b: seq<real>, dE: seq<real>, e: seq<real>, m: seq<real>, i: nat)
    requires RowCombination(d, b, dE, e, m, i)
    ensures dE == e <==> d == b
  {
    if dE == e {
      assert d[i] == b[i];
      assert forall r :: 0 <= r < |d| ==> d[r] == b[r];
    }
    if d == b {
      assert forall r :: 0 <= r < |d| ==> dE[r] == e[r];
    }
  }

  /**
   * The left sides dE and the right sides e arise from d and b by adding
   * m[r] times equation i to every equation r below i.
   */
  ghost predicate RowCombination(d: seq<real>, b: seq<real>, dE: seq<real>, e: seq<real>, m: seq<real>, i: nat) {
    |d| == |b| == |dE| == |e| == |m| && i < |d| &&
    (forall r :: 0 <= r < |d| ==> dE[r] == if r <= i then d[r] else d[r] + m[r] * d[i]) &&
    (forall r :: 0 <= r < |d| ==> e[r] == if r <= i then b[r] else b[r] + m[r] * b[i])
  }

  /**
   * Adding a multiple of the pivot equation to the equations below it does
   * not change the solutions, provided the pivot row is zero before column i.
   */
  lemma {:induction false} EliminationSound(A: Matrix, b: seq<real>, n: nat, i: nat, u: seq<real>)
    requires Square(A, b, n) && i < n && |u| == n && A[i][i] != 0.0
    requires forall c :: 0 <= c < i ==> A[i][c] == 0.0
    ensures MatVec(EliminateBelow(A, n, i), u) == EliminateRhs(A, b, n, i) <==> MatVec(A, u) == b
  {
    EliminatedCombination(A, b, n, i, u);
    RowCombinationIff(MatVec(A, u), b, MatVec(EliminateBelow(A, n, i), u), EliminateRhs(A, b, n, i), Multipliers(A, n, i), i);
  }

  /** The multipliers of step i, zero at and above the pivot row. */
  function Multipliers(A: Matrix, n: nat, i: nat): (m: seq<real>)
    requires IsMatrix(A, n, n) && i < n && A[i][i] != 0.0
    ensures |m| == n
  {
    seq(n, r requires 0 <= r < n => if r <= i then 0.0 else Multiplier(A, r, i))
  }

  /** Both sides of the eliminated system are row combinations of the old ones. */
  lemma EliminatedCombination(A: Matrix, b: seq<real>, n: nat, i: nat, u: seq<real>)
    requires Square(A, b, n) && i < n && |u| == n && A[i][i] != 0.0
    requires forall c :: 0 <= c < i ==> A[i][c] == 0.0
    ensures RowCombination(MatVec(A, u), b, MatVec(EliminateBelow(A, n, i), u), EliminateRhs(A, b, n, i), Multipliers(A, n, i), i)
  {
    EliminatedLeft(A, n, i, u);
    EliminatedRight(A, b, n, i);
  }

  /** The eliminated left sides: row r below the pivot gets m[r] times row i added. */
  lemma EliminatedLeft(A: Matrix, n: nat, i: nat, u: seq<real>)
    requires IsMatrix(A, n, n) && i < n && |u| == n && A[i][i] != 0.0
    requires forall c :: 0 <= c < i ==> A[i][c] == 0.0
    ensures var d, dE, m := MatVec(A, u), MatVec(EliminateBelow(A, n, i), u), Multipliers(A, n, i);
      forall r :: 0 <= r < n ==> dE[r] == if r <= i then d[r] else d[r] + m[r] * d[i]
  {
    forall r | i < r < n
      ensures MatVec(EliminateBelow(A, n, i), u)[r] == MatVec(A, u)[r] + Multipliers(A, n, i)[r] * MatVec(A, u)[i]
    {
      EliminatedProducts(A, n, i, u, r);
    }
  }

  /** The eliminated right-hand side: entry r below the pivot gets m[r] times b[i] added. */
  lemma EliminatedRight(A: Matrix, b: seq<real>, n: nat, i: nat)
    requires Square(A, b, n) && i < n && A[i][i] != 0.0
    ensures var e, m := EliminateRhs(A, b, n, i), Multipliers(A, n, i);
      forall r :: 0 <= r < n ==> e[r] == if r <= i then b[r] else b[r] + m[r] * b[i]
  {
  }

  /** One forward step keeps exactly the same solutions. */
  lemma {:induction false} StepSound(A: Matrix, b: seq<real>, n: nat, i: nat, u: seq<real>)
    requires Stage(A, b, n, i) && |u| == n && Step(A, b, n, i).Success?
    ensures var s := Step(A, b, n, i).value;
      MatVec(s.A, u) == s.b <==> MatVec(A, u) == b
  {
    var p := Pivot(A, n, i);
    var A1 := if p != i then Swap(A, p, i) else A;
    var b1 := if p != i then Swap(b, p, i) else b;
    if p != i {
      SwapSound(A, b, n, p, i, u);
    }
    assert A1[i] == A[p];
    EliminationSound(A1, b1, n, i, u);
  }

  /** The whole forward pass keeps exactly the same solutions. */
  lemma {:induction false} ForwardSound(A: Matrix, b: seq<real>, n: nat, i: nat, u: seq<real>)
    requires Stage(A, b, n, i) && |u| == n && Forward(A, b, n, i).Success?
    ensures var s := Forward(A, b, n, i).value;
      MatVec(s.A, u) == s.b <==> MatVec(A, u) == b
    decreases n - i
  {
    if i + 1 < n {
      var s := StepStage(A, b, n, i);
      StepSound(A, b, n, i, u);
      ForwardSound(s.A, s.b, n, i + 1, u);
    }
  }

  /** Upper triangular with a nonzero diagonal. */
  ghost predicate Triangular(A: Matrix, n: nat) {
    IsMatrix(A, n, n) &&
    (forall r, c :: 0 <= c < r < n ==> A[r][c] == 0.0) &&
    (forall k :: 0 <= k < n ==> A[k][k] != 0.0)
  }

  /**
   * Back substitution from the bottom row up to row i, starting from the
   * zero vector: entry k becomes (b[k] - A[k][k+1..] . w[k+1..]) / A[k][k].
   */
  function BackFrom(A: Matrix, b: seq<real>, n: nat, i: nat): (w: seq<real>)
    requires Square(A, b, n) && i <= n
    requires forall k :: i <= k < n ==> A[k][k] != 0.0
    ensures |w| == n
    decreases n - i
  {
    if i == n then seq(n, _ => 0.0)
    else
      var w := BackFrom(A, b, n, i + 1);
      w[i := (b[i] - Dot(A[i][i + 1..], w[i + 1..])) / A[i][i]]
  }

  /** Later rows are not touched again once they have been computed. */
  lemma {:induction false} BackFromStable(A: Matrix, b: seq<real>, n: nat, i: nat, j: nat)
    requires Square(A, b, n) && i <= j <= n
    requires forall k :: i <= k < n ==> A[k][k] != 0.0
    ensures BackFrom(A, b, n, i)[j..] == BackFrom(A, b, n, j)[j..]
    decreases j - i
  {
    if i < j {
      BackFromStable(A, b, n, i + 1, j);
      var w := BackFrom(A, b, n, i + 1);
      assert BackFrom(A, b, n, i)[j..] == w[j..];
    }
  }

  /** Row k of A times w, for a row that is zero before column k. */
  lemma {:induction false} RowSplit(row: seq<real>, w: seq<real>, k: nat)
    requires |row| == |w| && k < |row|
    requires forall c :: 0 <= c < k ==> row[c] == 0.0
    ensures Dot(row, w) == row[k] * w[k] + Dot(row[k + 1..], w[k + 1..])
  {
    DotSplit(row, w, k);
    DotZeros(row[..k], w[..k]);
    DotFirst(row[k..], w[k..]);
    assert row[k..][1..] == row[k + 1..] && w[k..][1..] == w[k + 1..];
  }

  /** Entry k of the result is computed from the result's own later entries. */
  lemma {:induction false} BackFromEntry(A: Matrix, b: seq<real>, n: nat, i: nat, k: nat)
    requires Square(A, b, n) && i <= k < n
    requires forall j :: i <= j < n ==> A[j][j] != 0.0
    ensures var w := BackFrom(A, b, n, i);
      w[k] == (b[k] - Dot(A[k][k + 1..], w[k + 1..])) / A[k][k]
  {
    var w := BackFrom(A, b, n, i);
    var wk := BackFrom(A, b, n, k);
    BackFromStable(A, b, n, i, k);
    BackFromStable(A, b, n, k, k + 1);
    assert w[k] == w[k..][0] && wk[k] == wk[k..][0];
    assert w[k + 1..] == w[k..][1..] && wk[k + 1..] == wk[k..][1..];
  }

  /** Row k of a triangular system holds for the back-substituted vector. */
  lemma {:induction false} BackSubstRow(A: Matrix, b: seq<real>, n: nat, k: nat)
    requires Square(A, b, n) && Triangular(A, n) && k < n
    ensures Dot(A[k], BackFrom(A, b, n, 0)) == b[k]
  {
    var w := BackFrom(A, b, n, 0);
    BackFromEntry(A, b, n, 0, k);
    RowSplit(A[k], w, k);
  }

  lemma DivideOut(a: real, x: real, y: real)
    requires a != 0.0 && a * x == y
    ensures x == y / a
  {
  }

  /** Back substitution solves an upper triangular system. */
  lemma {:induction false} BackSubstSolves(A: Matrix, b: seq<real>, n: nat)
    requires Square(A, b, n) && Triangular(A, n)
    ensures MatVec(A, BackFrom(A, b, n, 0)) == b
  {
    forall k | 0 <= k < n
      ensures MatVec(A, BackFrom(A, b, n, 0))[k] == b[k]
    {
      BackSubstRow(A, b, n, k);
    }
  }

  /** An upper triangular system has no solution other than back substitution's. */
  lemma {:induction false} BackSubstUnique(A: Matrix, b: seq<real>, n: nat, u: seq<real>)
    requires Square(A, b, n) && Triangular(A, n) && |u| == n
    requires MatVec(A, u) == b
    ensures u == BackFrom(A, b, n, 0)
  {
    BackSubstSuffix(A, b, n, u, 0);
  }

  lemma {:induction false} BackSubstSuffix(A: Matrix, b: seq<real>, n: nat, u: seq<real>, i: nat)
    requires Square(A, b, n) && Triangular(A, n) && |u| == n && i <= n
    requires MatVec(A, u) == b
    ensures u[i..] == BackFrom(A, b, n, i)[i..]
    decreases n - i
  {
    if i < n {
      var wi := BackFrom(A, b, n, i);
      BackSubstSuffix(A, b, n, u, i + 1);
      BackFromStable(A, b, n, i, i + 1);
      BackSubstEntry(A, b, n, u, i);
      assert u[i..] == [u[i]] + u[i + 1..];
      assert wi[i..] == [wi[i]] + wi[i + 1..];
    }
  }

  /** A solution that agrees with back substitution after row i agrees at row i too. */
  lemma BackSubstEntry(A: Matrix, b: seq<real>, n: nat, u: seq<real>, i: nat)
    requires Square(A, b, n) && Triangular(A, n) && |u| == n && i < n
    requires MatVec(A, u) == b
    requires u[i + 1..] == BackFrom(A, b, n, i)[i + 1..]
    ensures u[i] == BackFrom(A, b, n, i)[i]
  {
    BackFromEntry(A, b, n, i, i);
    assert Dot(A[i], u) == b[i];
    RowSplit(A[i], u, i);
    DivideOut(A[i][i], u[i], b[i] - Dot(A[i][i + 1..], u[i + 1..]));
  }

  /**
   * The corrected solver: the forward pass, then a zero test of the last
   * diagonal entry, then back substitution. A failure names the step whose
   * pivot was zero.
   */
  function Solve(A: Matrix, b: seq<real>, n: nat): (r: Result<seq<real>, nat>)
    requires Square(A, b, n) && n >= 1
    ensures r.Failure? ==> r.error < n
    ensures r.Success? ==> |r.value| == n
  {
    match Forward(A, b, n, 0)
    case Failure(k) => Failure(k)
    case Success(s) =>
      ForwardShape(A, b, n, 0, s);
      if s.A[n - 1][n - 1] == 0.0 then Failure(n - 1)
      else Success(BackFrom(s.A, s.b, n, 0))
  }

  /** A returned vector solves the original system. */
  lemma {:induction false} SolveCorrect(A: Matrix, b: seq<real>, n: nat)
    requires Square(A, b, n) && n >= 1
    requires Solve(A, b, n).Success?
    ensures MatVec(A, Solve(A, b, n).value) == b
  {
    var s := Forward(A, b, n, 0).value;
    ForwardShape(A, b, n, 0, s);
    BackSubstSolves(s.A, s.b, n);
    ForwardSound(A, b, n, 0, Solve(A, b, n).value);
  }

  /** A returned vector is the only solution of the original system. */
  lemma {:induction false} SolveUnique(A: Matrix, b: seq<real>, n: nat, u: seq<real>)
    requires Square(A, b, n) && n >= 1 && |u| == n
    requires Solve(A, b, n).Success? && MatVec(A, u) == b
    ensures u == Solve(A, b, n).value
  {
    var s := Forward(A, b, n, 0).value;
    ForwardShape(A, b, n, 0, s);
    ForwardSound(A, b, n, 0, u);
    BackSubstUnique(s.A, s.b, n, u);
  }

  // ---------------------------------------------------------------------
  // Failure means a singular system

  /** The zero vector of length n. */
  function Zeros(n: nat): (z: seq<real>)
    ensures |z| == n && forall k :: 0 <= k < n ==> z[k] == 0.0
  {
    seq(n, _ => 0.0)
  }

  /**
   * A step's matrix does not depend on the right-hand side, and a zero
   * right-hand side stays zero.
   */
  lemma StepHomogeneous(A: Matrix, b: seq<real>, n: nat, i: nat)
    requires Square(A, b, n) && i < n
    ensures Step(A, Zeros(n), n, i).Failure? <==> Step(A, b, n, i).Failure?
    ensures Step(A, b, n, i).Success? ==>
      Step(A, Zeros(n), n, i) == Success(System(Step(A, b, n, i).value.A, Zeros(n)))
  {
    var p := Pivot(A, n, i);
    if Abs(A[p][i]) != 0.0 {
      var A1 := if p != i then Swap(A, p, i) else A;
      var z1 := if p != i then Swap(Zeros(n), p, i) else Zeros(n);
      assert z1 == Zeros(n);
      assert EliminateRhs(A1, z1, n, i) == Zeros(n);
    }
  }

  /** A null vector of the matrix after a step is a null vector before it. */
  lemma StepNull(A: Matrix, b: seq<real>, n: nat, i: nat, u: seq<real>)
    requires Stage(A, b, n, i) && |u| == n && Step(A, b, n, i).Success?
    requires MatVec(Step(A, b, n, i).value.A, u) == Zeros(n)
    ensures MatVec(A, u) == Zeros(n)
  {
    StepHomogeneous(A, b, n, i);
    StepSound(A, Zeros(n), n, i, u);
  }

  /** A null vector of the matrix after the forward pass is a null vector before it. */
  lemma {:induction false} ForwardNull(A: Matrix, b: seq<real>, n: nat, i: nat, u: seq<real>)
    requires Stage(A, b, n, i) && |u| == n && Forward(A, b, n, i).Success?
    requires MatVec(Forward(A, b, n, i).value.A, u) == Zeros(n)
    ensures MatVec(A, u) == Zeros(n)
    decreases n - i
  {
    if i + 1 < n {
      var s := StepStage(A, b, n, i);
      ForwardNull(s.A, s.b, n, i + 1, u);
      StepNull(A, b, n, i, u);
    }
  }

  /**
   * A null vector of a matrix reduced up to column k whose column k
   * vanishes from row k down: entry k is 1, the entries after k are 0, and
   * the entries i, ..., k-1 are solved from the bottom up.
   */
  function NullFrom(A: Matrix, n: nat, k: nat, i: nat): (w: seq<real>)
    requires Reduced(A, n, k) && k < n && i <= k
    ensures |w| == n
    decreases k - i
  {
    if i == k then Zeros(n)[k := 1.0]
    else
      var w := NullFrom(A, n, k, i + 1);
      w[i := -Dot(A[i][i + 1..], w[i + 1..]) / A[i][i]]
  }

  /** Entry k of the null vector is 1 and every later entry is 0. */
  lemma {:induction false} NullFromTail(A: Matrix, n: nat, k: nat, i: nat)
    requires Reduced(A, n, k) && k < n && i <= k
    ensures NullFrom(A, n, k, i)[k] == 1.0
    ensures forall c :: k < c < n ==> NullFrom(A, n, k, i)[c] == 0.0
    decreases k - i
  {
    if i < k {
      NullFromTail(A, n, k, i + 1);
    }
  }

  lemma {:induction false} NullFromStable(A: Matrix, n: nat, k: nat, i: nat, j: nat)
    requires Reduced(A, n, k) && k < n && i <= j <= k
    ensures NullFrom(A, n, k, i)[j..] == NullFrom(A, n, k, j)[j..]
    decreases j - i
  {
    if i < j {
      NullFromStable(A, n, k, i + 1, j);
      var w := NullFrom(A, n, k, i + 1);
      assert NullFrom(A, n, k, i)[j..] == w[j..];
    }
  }

  /** Entry m < k of the null vector is computed from its own later entries. */
  lemma {:induction false} NullFromEntry(A: Matrix, n: nat, k: nat, m: nat)
    requires Reduced(A, n, k) && k < n && m < k
    ensures var w := NullFrom(A, n, k, 0);
      w[m] == -Dot(A[m][m + 1..], w[m + 1..]) / A[m][m]
  {
    var w := NullFrom(A, n, k, 0);
    var wm := NullFrom(A, n, k, m);
    NullFromStable(A, n, k, 0, m);
    NullFromStable(A, n, k, m, m + 1);
    assert w[m] == w[m..][0] && wm[m] == wm[m..][0];
    assert w[m + 1..] == w[m..][1..] && wm[m + 1..] == wm[m..][1..];
  }

  /**
   * A matrix reduced up to column k whose column k vanishes from row k
   * down maps a vector with entry k equal to 1 to zero.
   */
  lemma NullVector(A: Matrix, n: nat, k: nat) returns (u: seq<real>)
    requires Reduced(A, n, k) && k < n
    requires forall r :: k <= r < n ==> A[r][k] == 0.0
    ensures |u| == n && u[k] == 1.0 && MatVec(A, u) == Zeros(n)
  {
    u := NullFrom(A, n, k, 0);
    NullFromTail(A, n, k, 0);
    forall m | 0 <= m < n
      ensures Dot(A[m], u) == 0.0
    {
      if m < k {
        NullFromEntry(A, n, k, m);
        RowSplit(A[m], u, m);
        var t := Dot(A[m][m + 1..], u[m + 1..]);
        assert A[m][m] * (-t / A[m][m]) == -t;
      } else {
        DotVanishing(A[m], u);
      }
    }
  }

  /** A forward pass that stops at a zero pivot started from a system with a nonzero null vector. */
  lemma {:induction false} ForwardFailureNull(A: Matrix, b: seq<real>, n: nat, i: nat) returns (u: seq<real>)
    requires Stage(A, b, n, i) && Forward(A, b, n, i).Failure?
    ensures |u| == n && u != Zeros(n) && MatVec(A, u) == Zeros(n)
    decreases n - i
  {
    if Step(A, b, n, i).Failure? {
      PivotIsFirstMax(A, n, i);
      var k := i;
      u := NullVector(A, n, k);
      assert u[k] != Zeros(n)[k];
    } else {
      var s := Step(A, b, n, i).value;
      ReducedStep(A, b, n, i);
      u := ForwardFailureNull(s.A, s.b, n, i + 1);
      StepNull(A, b, n, i, u);
    }
  }

  lemma {:induction false} SolveFailureNull(A: Matrix, b: seq<real>, n: nat) returns (u: seq<real>)
    requires Square(A, b, n) && n >= 1 && Solve(A, b, n).Failure?
    ensures |u| == n && u != Zeros(n) && MatVec(A, u) == Zeros(n)
  {
    if Forward(A, b, n, 0).Failure? {
      u := ForwardFailureNull(A, b, n, 0);
    } else {
      var s := Forward(A, b, n, 0).value;
      ForwardShape(A, b, n, 0, s);
      u := NullVector(s.A, n, n - 1);
      assert u[n - 1] != Zeros(n)[n - 1];
      ForwardNull(A, b, n, 0, u);
    }
  }

  /** Adding a nonzero null vector to a solution gives a different solution. */
  lemma AddNullVector(A: Matrix, b: seq<real>, n: nat, x: seq<real>, y: seq<real>) returns (z: seq<real>)
    requires Square(A, b, n) && |x| == n && |y| == n
    requires MatVec(A, x) == b && MatVec(A, y) == Zeros(n) && y != Zeros(n)
    ensures |z| == n && z != x && MatVec(A, z) == b
  {
    z := seq(n, k requires 0 <= k < n => x[k] + y[k]);
    forall r | 0 <= r < n
      ensures Dot(A[r], z) == b[r]
    {
      DotAddRight(A[r], z, x, y);
      assert MatVec(A, x)[r] == b[r] && MatVec(A, y)[r] == Zeros(n)[r];
    }
    if forall k :: 0 <= k < n ==> y[k] == 0.0 {
      assert false;
    }
    var k :| 0 <= k < n && y[k] != 0.0;
    assert z[k] != x[k];
  }

  /**
   * A failure means the system is singular: some nonzero vector is mapped
   * to zero, so A u = b has no solution or more than one.
   */
  lemma SolveFailureSingular(A: Matrix, b: seq<real>, n: nat)
    requires Square(A, b, n) && n >= 1 && Solve(A, b, n).Failure?
    ensures exists u :: |u| == n && u != Zeros(n) && MatVec(A, u) == Zeros(n)
  {
    var u := SolveFailureNull(A, b, n);
  }

  /**
   * A free-floating spring (k = 500 between two unconstrained nodes): the
   * forward pass as written succeeds and leaves a zero last pivot, which
   * the source then divides by; the corrected solver reports step 1.
   */
  lemma {:induction false} UncheckedLastPivot()
    ensures var A: Matrix := [[500.0, -500.0], [-500.0, 500.0]];
      var b := [10.0, -10.0];
      Forward(A, b, 2, 0).Success? &&
      Forward(A, b, 2, 0).value.A[1][1] == 0.0 &&
      Solve(A, b, 2) == Failure(1)
  {
    var A: Matrix := [[500.0, -500.0], [-500.0, 500.0]];
    var b := [10.0, -10.0];
    assert Pivot(A, 2, 0) == 0;
    var E := EliminateBelow(A, 2, 0);
    assert E[1] == ElimRow(A[1], A[0], 0);
    assert E[1][1] == 0.0;
  }

  /** A system that needs the row exchange: 0u + v = 1, u + v = 3. */
  lemma {:induction false} PivotingExample()
    ensures Solve([[0.0, 1.0], [1.0, 1.0]], [1.0, 3.0], 2) == Success([2.0, 1.0])
  {
    var A: Matrix := [[0.0, 1.0], [1.0, 1.0]];
    var b := [1.0, 3.0];
    assert Pivot(A, 2, 0) == 1;
    var A1 := Swap(A, 1, 0);
    var b1 := Swap(b, 1, 0);
    assert A1 == [[1.0, 1.0], [0.0, 1.0]];
    var E := EliminateBelow(A1, 2, 0);
    assert E[1] == ElimRow(A1[1], A1[0], 0) == [0.0, 1.0];
    assert E == [[1.0, 1.0], [0.0, 1.0]];
    var e := EliminateRhs(A1, b1, 2, 0);
    assert e == [3.0, 1.0];
    var w1 := BackFrom(E, e, 2, 1);
    assert w1[2..] == [] && E[1][2..] == [];
    assert w1 == [0.0, 1.0];
    assert w1[1..] == [1.0] && E[0][1..] == [1.0];
    assert Dot([1.0], [1.0]) == 1.0;
    assert BackFrom(E, e, 2, 0) == [2.0, 1.0];
    assert Step(A, b, 2, 0) == Success(System(E, e));
    assert Forward(A, b, 2, 0) == Success(System(E, e));
  }

  /**
   * Step i fails exactly when column i is zero from the diagonal down: the
   * pivot test rejects only a column that has no nonzero entry to pivot on.
   */
  lemma StepFailsOnZeroColumn(A: Matrix, b: seq<real>, n: nat, i: nat)
    requires Square(A, b, n) && i < n
    ensures Step(A, b, n, i).Failure? <==> forall k :: i <= k < n ==> A[k][i] == 0.0
  {
    PivotIsFirstMax(A, n, i);
  }

  /**
   * The unqualified `abs` of src/DMatrix.cpp:252 and 256 as it resolves
   * with the GNU C++ library: the double is converted to int, truncating
   * toward zero, and the integer absolute value is returned.
   */
  function TruncatedAbs(x: real): (a: real)
    ensures 0.0 <= a <= Abs(x) < a + 1.0
    ensures a == 0.0 <==> -1.0 < x < 1.0
  {
    var t: int := if x < 0.0 then -((-x).Floor) else x.Floor;
    (if t < 0 then -t else t) as real
  }

  /**
   * The pivot search of step i with that `abs`: the candidate row and the
   * largest magnitude seen so far, scanning rows r, ..., n-1.
   */
  function PivotScanTruncated(A: Matrix, n: nat, i: nat, r: nat, row: nat, largest: real): (p: (nat, real))
    requires IsMatrix(A, n, n) && i <= row < r <= n
    ensures i <= p.0 < n && largest <= p.1
    decreases n - r
  {
    if r == n then (row, largest)
    else
      var current := TruncatedAbs(A[r][i]);
      if current > largest then PivotScanTruncated(A, n, i, r + 1, r, current)
      else PivotScanTruncated(A, n, i, r + 1, row, largest)
  }

  /** The zero test of step i as written: the largest truncated magnitude is 0. */
  predicate StepRejectsAsWritten(A: Matrix, n: nat, i: nat)
    requires IsMatrix(A, n, n) && i < n
  {
    PivotScanTruncated(A, n, i, i + 1, i, TruncatedAbs(A[i][i])).1 == 0.0
  }

  lemma {:induction false} ScanTruncatedZero(A: Matrix, n: nat, i: nat, r: nat, row: nat, largest: real)
    requires IsMatrix(A, n, n) && i <= row < r <= n && largest >= 0.0
    ensures PivotScanTruncated(A, n, i, r, row, largest).1 == 0.0 <==>
      largest == 0.0 && forall k :: r <= k < n ==> -1.0 < A[k][i] < 1.0
    decreases n - r
  {
    if r < n {
      var current := TruncatedAbs(A[r][i]);
      if current > largest {
        ScanTruncatedZero(A, n, i, r + 1, r, current);
      } else {
        ScanTruncatedZero(A, n, i, r + 1, row, largest);
      }
    }
  }

  /**
   * As written, step i rejects the system exactly when every entry of
   * column i from the diagonal down is smaller than 1 in magnitude.
   */
  lemma StepRejectsAsWrittenIff(A: Matrix, n: nat, i: nat)
    requires IsMatrix(A, n, n) && i < n
    ensures StepRejectsAsWritten(A, n, i) <==> forall k :: i <= k < n ==> -1.0 < A[k][i] < 1.0
  {
    ScanTruncatedZero(A, n, i, i + 1, i, TruncatedAbs(A[i][i]));
  }

  /**
   * Two springs of stiffness 0.25 in a row with the first node held give
   * the reduced system [[0.5, -0.25], [-0.25, 0.25]] u = [1, 0], whose only
   * solution is [4, 4]; the integer `abs` reads both magnitudes as 0 and
   * step 0 rejects the system.
   */
  lemma {:induction false} TruncatedAbsRejectsSolvable()
    ensures var A: Matrix := [[0.5, -0.25], [-0.25, 0.25]];
      StepRejectsAsWritten(A, 2, 0) && Solve(A, [1.0, 0.0], 2) == Success([4.0, 4.0])
  {
    var A: Matrix := [[0.5, -0.25], [-0.25, 0.25]];
    var b := [1.0, 0.0];
    StepRejectsAsWrittenIff(A, 2, 0);
    assert Pivot(A, 2, 0) == 0;
    var E := EliminateBelow(A, 2, 0);
    assert E[1] == ElimRow(A[1], A[0], 0) == [0.0, 0.125];
    assert E == [[0.5, -0.25], [0.0, 0.125]];
    var e := EliminateRhs(A, b, 2, 0);
    assert e == [1.0, 0.5];
    var w1 := BackFrom(E, e, 2, 1);
    assert w1[2..] == [] && E[1][2..] == [];
    assert w1 == [0.0, 4.0];
    assert w1[1..] == [4.0] && E[0][1..] == [-0.25];
    assert Dot([-0.25], [4.0]) == -1.0;
    assert BackFrom(E, e, 2, 0) == [4.0, 4.0];
    assert Step(A, b, 2, 0) == Success(System(E, e));
    assert Forward(A, b, 2, 0) == Success(System(E, e));
  }
}
