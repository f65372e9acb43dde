/**
 * Exact linear algebra over `real`: the mathematical meaning of the dense
 * containers' arithmetic (dot product, matrix times vector, sub-matrices).
 */
module LinearAlgebra {

  /** A dense matrix as the sequence of its rows. */
  type Matrix = seq<seq<real>>

  ghost predicate IsMatrix(m: Matrix, rows: nat, cols: nat) {
    |m| == rows && forall r :: 0 <= r < rows ==> |m[r]| == cols
  }

  /**
   * The product of two reals, named so that the dot product's terms stay
   * symbols until a proof needs their value.
   */
  function Prod(x: real, y: real): real {
    x * y
  }

  /** The dot product, accumulated from the first entry to the last. */
  function Dot(a: seq<real>, b: seq<real>): real
    requires |a| == |b|
    decreases |a|
  {
    if |a| == 0 then 0.0 else Dot(a[..|a| - 1], b[..|b| - 1]) + Prod(a[|a| - 1], b[|b| - 1])
  }

  /** The sum of the entries, accumulated from the first entry to the last. */
  function Sum(s: seq<real>): real
    decreases |s|
  {
    if |s| == 0 then 0.0 else Sum(s[..|s| - 1]) + s[|s| - 1]
  }

  /** Matrix times vector: entry r is the dot product of row r with `u`. */
  function MatVec(m: Matrix, u: seq<real>): (r: seq<real>)
    requires forall i :: 0 <= i < |m| ==> |m[i]| == |u|
    ensures |r| == |m|
  {
    seq(|m|, i requires 0 <= i < |m| => Dot(m[i], u))
  }

  function ZeroMatrix(rows: nat, cols: nat): (m: Matrix)
    ensures IsMatrix(m, rows, cols)
    ensures forall r, c :: 0 <= r < rows && 0 <= c < cols ==> m[r][c] == 0.0
  {
    seq(rows, _ => seq(cols, _ => 0.0))
  }

  /** `m` with `x` added to the entry at (r, c). */
  function AddAt(m: Matrix, r: nat, c: nat, x: real): (m': Matrix)
    requires r < |m| && c < |m[r]|
    ensures |m'| == |m| && forall i :: 0 <= i < |m| ==> |m'[i]| == |m[i]|
  {
    m[r := m[r][c := m[r][c] + x]]
  }

  /** The rows `rs` and the columns `cs` of `m`, in the order given. */
  function Submatrix(m: Matrix, rs: seq<nat>, cs: seq<nat>): (s: Matrix)
    requires forall a :: 0 <= a < |rs| ==> rs[a] < |m|
    requires forall a, b :: 0 <= a < |rs| && 0 <= b < |cs| ==> cs[b] < |m[rs[a]]|
    ensures IsMatrix(s, |rs|, |cs|)
    ensures forall a, b :: 0 <= a < |rs| && 0 <= b < |cs| ==> s[a][b] == m[rs[a]][cs[b]]
  {
    seq(|rs|, a requires 0 <= a < |rs| => seq(|cs|, b requires 0 <= b < |cs| => m[rs[a]][cs[b]]))
  }

  ghost predicate Symmetric(m: Matrix) {
    forall r, c :: 0 <= r < |m| && 0 <= c < |m| ==> c < |m[r]| && r < |m[c]| && m[r][c] == m[c][r]
  }

  /** Two matrices of one shape that agree entry by entry are equal. */
  lemma MatrixEquality(a: Matrix, b: Matrix, rows: nat, cols: nat)
    requires IsMatrix(a, rows, cols) && IsMatrix(b, rows, cols)
    requires forall r, c :: 0 <= r < rows && 0 <= c < cols ==> a[r][c] == b[r][c]
    ensures a == b
  {
    forall r | 0 <= r < rows ensures a[r] == b[r] {
      assert forall c :: 0 <= c < cols ==> a[r][c] == b[r][c];
    }
  }

  /** The dot product splits at any position. */
  lemma {:induction false} DotSplit(a: seq<real>, b: seq<real>, k: nat)
    requires |a| == |b| && k <= |a|
    ensures Dot(a, b) == Dot(a[..k], b[..k]) + Dot(a[k..], b[k..])
    decreases |a|
  {
    if k < |a| {
      var n := |a| - 1;
      DotSplit(a[..n], b[..n], k);
      assert a[..n][..k] == a[..k] && b[..n][..k] == b[..k];
      assert a[..n][k..] == a[k..][..n - k] && b[..n][k..] == b[k..][..n - k];
    } else {
      assert a[..k] == a && b[..k] == b;
    }
  }

  /** Peeling off the first entry of a dot product. */
  lemma {:induction false} DotFirst(a: seq<real>, b: seq<real>)
    requires |a| == |b| && |a| > 0
    ensures Dot(a, b) == a[0] * b[0] + Dot(a[1..], b[1..])
  {
    DotSplit(a, b, 1);
    DotSingle(a[..1], b[..1]);
  }

  lemma {:induction false} DotSingle(a: seq<real>, b: seq<real>)
    requires |a| == |b| == 1
    ensures Dot(a, b) == a[0] * b[0]
  {
    assert a[..0] == [] && b[..0] == [];
    assert Dot([], []) == 0.0;
  }

  /** The dot product is linear in its first argument. */
  lemma {:induction false} DotLinear(z: seq<real>, x: seq<real>, y: seq<real>, u: seq<real>, m: real)
    requires |z| == |x| == |y| == |u|
    requires forall c :: 0 <= c < |z| ==> z[c] == x[c] + m * y[c]
    ensures Dot(z, u) == Dot(x, u) + m * Dot(y, u)
    decreases |z|
  {
    if |z| > 0 {
      var n := |z| - 1;
      DotLinear(z[..n], x[..n], y[..n], u[..n], m);
    }
  }

  /** A dot product vanishes when every term has a zero factor. */
  lemma {:induction false} DotVanishing(a: seq<real>, b: seq<real>)
    requires |a| == |b|
    requires forall c :: 0 <= c < |a| ==> a[c] == 0.0 || b[c] == 0.0
    ensures Dot(a, b) == 0.0
    decreases |a|
  {
    if |a| > 0 {
      var n := |a| - 1;
      DotVanishing(a[..n], b[..n]);
      assert a[n] == 0.0 || b[n] == 0.0;
    }
  }

  /** A dot product with an all-zero first argument vanishes. */
  lemma {:induction false} DotZeros(a: seq<real>, b: seq<real>)
    requires |a| == |b|
    requires forall c :: 0 <= c < |a| ==> a[c] == 0.0
    ensures Dot(a, b) == 0.0
    decreases |a|
  {
    if |a| > 0 {
      DotZeros(a[..|a| - 1], b[..|b| - 1]);
    }
  }

  /** Adding `x` to one entry adds `x` to the sum. */
  lemma {:induction false} SumAddAt(s: seq<real>, c: nat, x: real)
    requires c < |s|
    ensures Sum(s[c := s[c] + x]) == Sum(s) + x
    decreases |s|
  {
    var n := |s| - 1;
    var t := s[c := s[c] + x];
    assert t[..n] == if c < n then s[..n][c := s[c] + x] else s[..n];
    if c < n {
      SumAddAt(s[..n], c, x);
    }
  }

  /** The sum of an all-zero vector is zero. */
  lemma {:induction false} SumZeros(s: seq<real>)
    requires forall c :: 0 <= c < |s| ==> s[c] == 0.0
    ensures Sum(s) == 0.0
    decreases |s|
  {
    if |s| > 0 {
      SumZeros(s[..|s| - 1]);
    }
  }

  /** Entry (i, j) of AddAt(m, r, c, x) gains x exactly when (i, j) == (r, c). */
  lemma AddAtEntry(m: Matrix, r: nat, c: nat, x: real, i: nat, j: nat)
    requires r < |m| && c < |m[r]| && i < |m| && j < |m[i]|
    ensures AddAt(m, r, c, x)[i][j] == m[i][j] + (if i == r && j == c then x else 0.0)
  {
  }

  /** Row i of AddAt(m, r, c, x) sums to the old row's sum, plus x when i == r. */
  lemma AddAtRowSum(m: Matrix, r: nat, c: nat, x: real, i: nat)
    requires r < |m| && c < |m[r]| && i < |m|
    ensures Sum(AddAt(m, r, c, x)[i]) == Sum(m[i]) + (if i == r then x else 0.0)
  {
    if i == r {
      SumAddAt(m[r], c, x);
    }
  }

  /** The dot product is additive in its second argument. */
  lemma {:induction false} DotAddRight(a: seq<real>, z: seq<real>, x: seq<real>, y: seq<real>)
    requires |a| == |z| == |x| == |y|
    requires forall c :: 0 <= c < |z| ==> z[c] == x[c] + y[c]
    ensures Dot(a, z) == Dot(a, x) + Dot(a, y)
    decreases |a|
  {
    if |a| > 0 {
      var n := |a| - 1;
      DotAddRight(a[..n], z[..n], x[..n], y[..n]);
    }
  }

  /** Against a constant vector, the dot product is the sum times the constant. */
  lemma {:induction false} DotConstant(a: seq<real>, u: seq<real>, x: real)
    requires |a| == |u|
    requires forall c :: 0 <= c < |u| ==> u[c] == x
    ensures Dot(a, u) == Sum(a) * x
    decreases |a|
  {
    if |a| > 0 {
      var n := |a| - 1;
      DotConstant(a[..n], u[..n], x);
    }
  }
}
