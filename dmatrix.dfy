/**
 * DMatrix: a dense real matrix stored row-major in one flat buffer
 * (src/DMatrix.cpp). Entry (r, c) lives at position r * cols + c of `v`;
 * `Entries()` is the same matrix as a sequence of rows.
 */
module DMatrices {
  import opened Wrappers
  import opened LinearAlgebra
  import opened Indexing
  import opened Elimination
  import opened DVectors

  /** The row-major position of entry (r, c). */
  function FlatIndex(cols: nat, r: nat, c: nat): nat {
    Mul(r, cols) + c
  }

  /**
   * The product a * b, written as repeated addition so that the solver
   * treats it as a symbol; MulIsProduct says it is the product.
   */
  function Mul(a: nat, b: nat): nat
    decreases a
  {
    if a == 0 then 0 else Mul(a - 1, b) + b
  }

  lemma {:induction false} MulIsProduct(a: nat, b: nat)
    ensures Mul(a, b) == a * b
    decreases a
  {
    if a > 0 {
      MulIsProduct(a - 1, b);
    }
  }

  lemma {:induction false} MulMonotone(a: nat, b: nat, c: nat)
    requires a <= b
    ensures Mul(a, c) <= Mul(b, c)
    decreases b
  {
    if a < b {
      MulMonotone(a, b - 1, c);
    }
  }

  lemma FlatIndexBound(rows: nat, cols: nat, r: nat, c: nat)
    requires r < rows && c < cols
    ensures FlatIndex(cols, r, c) < Mul(rows, cols)
  {
    MulMonotone(r + 1, rows, cols);
  }

  lemma FlatIndexBoundAll(rows: nat, cols: nat)
    ensures forall r, c :: 0 <= r < rows && 0 <= c < cols ==> FlatIndex(cols, r, c) < Mul(rows, cols)
  {
    forall r, c | 0 <= r < rows && 0 <= c < cols
      ensures FlatIndex(cols, r, c) < Mul(rows, cols)
    {
      FlatIndexBound(rows, cols, r, c);
    }
  }

  /** Distinct entries occupy distinct positions of the flat buffer. */
  lemma FlatIndexInjective(cols: nat, r1: nat, c1: nat, r2: nat, c2: nat)
    requires c1 < cols && c2 < cols
    requires FlatIndex(cols, r1, c1) == FlatIndex(cols, r2, c2)
    ensures r1 == r2 && c1 == c2
  {
    if r1 < r2 {
      MulMonotone(r1 + 1, r2, cols);
    } else if r2 < r1 {
      MulMonotone(r2 + 1, r1, cols);
    }
  }

  /** Every position of the flat buffer is the position of some entry. */
  lemma {:induction false} FlatIndexOnto(rows: nat, cols: nat, k: nat) returns (r: nat, c: nat)
    requires k < Mul(rows, cols)
    ensures r < rows && c < cols && FlatIndex(cols, r, c) == k
    decreases rows
  {
    if k < Mul(rows - 1, cols) {
      r, c := FlatIndexOnto(rows - 1, cols, k);
    } else {
      r, c := rows - 1, k - Mul(rows - 1, cols);
    }
  }

  /** The flat buffer read as a matrix of rows, the last row taken last. */
  function Unflatten(v: seq<real>, rows: nat, cols: nat): (m: Matrix)
    requires |v| == Mul(rows, cols)
    ensures IsMatrix(m, rows, cols)
    decreases rows
  {
    if rows == 0 then []
    else
      MulMonotone(rows - 1, rows, cols);
      Unflatten(v[..Mul(rows - 1, cols)], rows - 1, cols) + [v[Mul(rows - 1, cols)..]]
  }

  /** Entry (r, c) of the matrix is position r * cols + c of the buffer. */
  lemma {:induction false} UnflattenEntry(v: seq<real>, rows: nat, cols: nat, r: nat, c: nat)
    requires |v| == Mul(rows, cols) && r < rows && c < cols
    ensures FlatIndex(cols, r, c) < |v|
    ensures Unflatten(v, rows, cols)[r][c] == v[FlatIndex(cols, r, c)]
    decreases rows
  {
    FlatIndexBound(rows, cols, r, c);
    MulMonotone(rows - 1, rows, cols);
    if r < rows - 1 {
      FlatIndexBound(rows - 1, cols, r, c);
      UnflattenEntry(v[..Mul(rows - 1, cols)], rows - 1, cols, r, c);
    }
  }

  /** Two buffers of one shape that read as the same matrix are equal. */
  lemma UnflattenInjective(v: seq<real>, w: seq<real>, rows: nat, cols: nat)
    requires |v| == |w| == Mul(rows, cols)
    requires Unflatten(v, rows, cols) == Unflatten(w, rows, cols)
    ensures v == w
  {
    forall k | 0 <= k < |v|
      ensures v[k] == w[k]
    {
      var r, c := FlatIndexOnto(rows, cols, k);
      UnflattenEntry(v, rows, cols, r, c);
      UnflattenEntry(w, rows, cols, r, c);
    }
  }

  lemma UnflattenEqual(v: seq<real>, w: seq<real>, rows: nat, cols: nat)
    requires |v| == |w| == Mul(rows, cols)
    ensures Unflatten(v, rows, cols) == Unflatten(w, rows, cols) <==> v == w
  {
    if Unflatten(v, rows, cols) == Unflatten(w, rows, cols) {
      UnflattenInjective(v, w, rows, cols);
    }
  }

  /** Writing one position of the buffer writes one entry of the matrix. */
  lemma UnflattenUpdate(v: seq<real>, rows: nat, cols: nat, r: nat, c: nat, x: real)
    requires |v| == Mul(rows, cols) && r < rows && c < cols
    ensures FlatIndex(cols, r, c) < |v|
    ensures Unflatten(v[FlatIndex(cols, r, c) := x], rows, cols) ==
      Unflatten(v, rows, cols)[r := Unflatten(v, rows, cols)[r][c := x]]
  {
    FlatIndexBound(rows, cols, r, c);
    var m := Unflatten(v, rows, cols);
    var n := Unflatten(v[FlatIndex(cols, r, c) := x], rows, cols);
    var m' := m[r := m[r][c := x]];
    forall r2, c2 | 0 <= r2 < rows && 0 <= c2 < cols
      ensures n[r2][c2] == m'[r2][c2]
    {
      UnflattenEntry(v, rows, cols, r2, c2);
      UnflattenEntry(v[FlatIndex(cols, r, c) := x], rows, cols, r2, c2);
      if r2 != r || c2 != c {
        if FlatIndex(cols, r2, c2) == FlatIndex(cols, r, c) {
          FlatIndexInjective(cols, r2, c2, r, c);
        }
      }
    }
    MatrixEquality(n, m', rows, cols);
  }

  /** The rows of a matrix laid end to end. */
  function Flatten(m: Matrix): (v: seq<real>)
    decreases |m|
  {
    if |m| == 0 then [] else Flatten(m[..|m| - 1]) + m[|m| - 1]
  }

  lemma {:induction false} FlattenLength(m: Matrix, rows: nat, cols: nat)
    requires IsMatrix(m, rows, cols)
    ensures |Flatten(m)| == Mul(rows, cols)
    decreases rows
  {
    if rows > 0 {
      FlattenLength(m[..rows - 1], rows - 1, cols);
    }
  }

  lemma {:induction false} FlattenEntry(m: Matrix, rows: nat, cols: nat, r: nat, c: nat)
    requires IsMatrix(m, rows, cols) && r < rows && c < cols
    ensures |Flatten(m)| == Mul(rows, cols)
    ensures FlatIndex(cols, r, c) < |Flatten(m)| && Flatten(m)[FlatIndex(cols, r, c)] == m[r][c]
    decreases rows
  {
    FlattenLength(m, rows, cols);
    FlattenLength(m[..rows - 1], rows - 1, cols);
    FlatIndexBound(rows, cols, r, c);
    if r < rows - 1 {
      FlattenEntry(m[..rows - 1], rows - 1, cols, r, c);
    }
  }

  /** Unflatten undoes Flatten. */
  lemma UnflattenFlatten(m: Matrix, rows: nat, cols: nat)
    requires IsMatrix(m, rows, cols)
    ensures |Flatten(m)| == Mul(rows, cols)
    ensures Unflatten(Flatten(m), rows, cols) == m
  {
    FlattenLength(m, rows, cols);
    forall r, c | 0 <= r < rows && 0 <= c < cols
      ensures Unflatten(Flatten(m), rows, cols)[r][c] == m[r][c]
    {
      FlattenEntry(m, rows, cols, r, c);
      UnflattenEntry(Flatten(m), rows, cols, r, c);
    }
    MatrixEquality(Unflatten(Flatten(m), rows, cols), m, rows, cols);
  }

  lemma SubmatrixAppendRow(m: Matrix, rs: seq<nat>, cs: seq<nat>, r: nat, cols: nat)
    requires IsMatrix(m, |m|, cols) && r < |m|
    requires forall a :: 0 <= a < |rs| ==> rs[a] < |m|
    requires forall b :: 0 <= b < |cs| ==> cs[b] < cols
    ensures Submatrix(m, rs + [r], cs) == Submatrix(m, rs, cs) + [Pick(m[r], cs)]
  {
    var lhs := Submatrix(m, rs + [r], cs);
    var rhs := Submatrix(m, rs, cs) + [Pick(m[r], cs)];
    MatrixEquality(lhs, rhs, |rs| + 1, |cs|);
  }

  /** Writing position k of a buffer whose first k entries are `done`. */
  lemma WriteNext(nv: seq<real>, k: nat, done: seq<real>, x: real)
    requires k < |nv| && nv[..k] == done
    ensures nv[k := x][..k + 1] == done + [x]
  {
    assert nv[k := x][..k + 1] == nv[..k] + [x];
  }

  /** The kept rows below r + 1, flattened, extend those below r by row r. */
  lemma FlattenSubmatrixStep(m: Matrix, rs: seq<nat>, cs: seq<nat>, r: nat, cols: nat)
    requires IsMatrix(m, |m|, cols) && r < |m|
    requires forall a :: 0 <= a < |rs| ==> rs[a] < |m|
    requires forall b :: 0 <= b < |cs| ==> cs[b] < cols
    ensures Flatten(Submatrix(m, rs + [r], cs)) == Flatten(Submatrix(m, rs, cs)) + Pick(m[r], cs)
  {
    SubmatrixAppendRow(m, rs, cs, r, cols);
    var sub := Submatrix(m, rs + [r], cs);
    assert sub[..|sub| - 1] == Submatrix(m, rs, cs);
  }

  /** One more row considered: the kept prefix grows by that row's kept columns, if it is kept. */
  lemma KeptRowsStep(e: Matrix, rows: nat, cols: nat, r: nat, p: nat -> bool, cs: seq<nat>)
      returns (x: seq<real>)
    requires IsMatrix(e, rows, cols) && r < rows
    requires forall b :: 0 <= b < |cs| ==> cs[b] < cols
    ensures x == if p(r) then [] else Pick(e[r], cs)
    ensures Flatten(Submatrix(e, Survivors(r + 1, p), cs)) == Flatten(Submatrix(e, Survivors(r, p), cs)) + x
  {
    x := if p(r) then [] else Pick(e[r], cs);
    if p(r) {
      assert Survivors(r + 1, p) == Survivors(r, p);
    } else {
      assert Survivors(r + 1, p) == Survivors(r, p) + [r];
      FlattenSubmatrixStep(e, Survivors(r, p), cs, r, cols);
    }
  }

  /** `row` with its first c entries taken from `target` instead. */
  function Overwritten<T>(target: seq<T>, row: seq<T>, c: nat): (w: seq<T>)
    requires |target| == |row| && c <= |row|
    ensures |w| == |row|
  {
    target[..c] + row[c..]
  }

  /** Overwriting entry c extends the overwritten prefix by one. */
  lemma OverwriteNext<T>(target: seq<T>, row: seq<T>, c: nat)
    requires |target| == |row| && c < |row|
    ensures Overwritten(target, row, c)[c] == row[c]
    ensures Overwritten(target, row, c)[c := target[c]] == Overwritten(target, row, c + 1)
  {
    assert Overwritten(target, row, c)[c := target[c]] == target[..c + 1] + row[c + 1..];
  }

  /** Row r and entry r of the eliminated system, below the pivot row. */
  lemma EliminatedEntries(A: Matrix, b: seq<real>, n: nat, i: nat, r: nat)
    requires Square(A, b, n) && i < r < n && A[i][i] != 0.0
    ensures EliminateBelow(A, n, i)[r] == ElimRow(A[r], A[i], i)
    ensures EliminateRhs(A, b, n, i)[r] == b[r] + Multiplier(A, r, i) * b[i]
  {
  }

  /** The value the elimination writes into entry r of the right-hand side. */
  lemma EliminatedRhsValue(A: Matrix, b: seq<real>, n: nat, i: nat, r: nat, y: real, m: real, z: real, x: real)
    requires Square(A, b, n) && i < r < n && A[i][i] != 0.0
    requires y == b[r] && m == Multiplier(A, r, i) && z == b[i] && x == y + m * z
    ensures x == EliminateRhs(A, b, n, i)[r]
  {
    EliminatedEntries(A, b, n, i, r);
  }

  /** One more position of `cur` moved from its old value to its target value. */
  lemma Progress<T>(cur: seq<T>, next: seq<T>, old0: seq<T>, target: seq<T>, r: nat)
    requires |cur| == |old0| == |target| && r < |cur|
    requires forall k :: 0 <= k < |cur| ==> cur[k] == if k < r then target[k] else old0[k]
    requires next == cur[r := target[r]]
    ensures |next| == |cur|
    ensures forall k :: 0 <= k < |cur| ==> next[k] == if k < r + 1 then target[k] else old0[k]
  {
  }

  class DMatrix {
    var rows: nat
    var cols: nat
    var v: seq<real>

    /** The buffer always holds rows * cols entries. */
    ghost predicate Valid()
      reads this
    {
      |v| == Mul(rows, cols)
    }

    /** The matrix as a sequence of rows. */
    function Entries(): (m: Matrix)
      reads this
      requires Valid()
      ensures IsMatrix(m, rows, cols)
    {
      Unflatten(v, rows, cols)
    }

    /** DMatrix(rows, cols): the zero matrix of that shape. */
    constructor Zero(rows: nat, cols: nat)
      ensures Valid() && this.rows == rows && this.cols == cols
      ensures Entries() == ZeroMatrix(rows, cols)
    {
      this.rows := rows;
      this.cols := cols;
      v := seq(Mul(rows, cols), _ => 0.0);
      new;
      forall r, c | 0 <= r < rows && 0 <= c < cols
        ensures Entries()[r][c] == 0.0
      {
        UnflattenEntry(v, rows, cols, r, c);
      }
      MatrixEquality(Entries(), ZeroMatrix(rows, cols), rows, cols);
    }

    /**
     * DMatrix(values): one row per element of `values`, as many columns as
     * its first row has; every row must have that length.
     */
    constructor FromRows(values: seq<seq<real>>)
      requires IsMatrix(values, |values|, if |values| == 0 then 0 else |values[0]|)
      ensures Valid() && rows == |values| && cols == (if |values| == 0 then 0 else |values[0]|)
      ensures Entries() == values
    {
      rows := |values|;
      cols := if |values| == 0 then 0 else |values[0]|;
      v := seq(Mul(|values|, if |values| == 0 then 0 else |values[0]|), _ => 0.0);
      new;
      Fill(values);
    }

    /** The copy constructor. */
    constructor Copy(other: DMatrix)
      ensures rows == other.rows && cols == other.cols && v == other.v
    {
      rows := other.rows;
      cols := other.cols;
      v := other.v;
    }

    /** Writes every entry of `values`, row by row, through the element accessor. */
    method Fill(values: Matrix)
      requires Valid() && IsMatrix(values, rows, cols)
      modifies this
      ensures Valid() && rows == old(rows) && cols == old(cols)
      ensures Entries() == values
    {
      var row := 0;
      while row < rows
        invariant 0 <= row <= rows && Valid() && rows == old(rows) && cols == old(cols)
        invariant forall r, c :: 0 <= r < row && 0 <= c < cols ==> Entries()[r][c] == values[r][c]
      {
        var col := 0;
        while col < cols
          invariant 0 <= col <= cols && Valid() && rows == old(rows) && cols == old(cols)
          invariant forall r, c :: 0 <= r < row && 0 <= c < cols ==> Entries()[r][c] == values[r][c]
          invariant forall c :: 0 <= c < col ==> Entries()[row][c] == values[row][c]
        {
          Set(row, col, values[row][col]);
          col := col + 1;
        }
        row := row + 1;
      }
      MatrixEquality(Entries(), values, rows, cols);
    }

    /** operator=(flat values): the entries in row-major order; the shape stays. */
    method Assign(values: seq<real>)
      requires Valid() && |values| == Mul(rows, cols)
      modifies this
      ensures Valid() && rows == old(rows) && cols == old(cols)
      ensures v == values && Entries() == Unflatten(values, rows, cols)
    {
      var i := 0;
      var row := 0;
      while row < rows
        invariant 0 <= row <= rows && Valid() && rows == old(rows) && cols == old(cols)
        invariant i == Mul(row, cols) <= |v|
        invariant v[..i] == values[..i]
      {
        var col := 0;
        while col < cols
          invariant 0 <= col <= cols && Valid() && rows == old(rows) && cols == old(cols)
          invariant i == FlatIndex(cols, row, col) <= |v|
          invariant v[..i] == values[..i]
        {
          FlatIndexBound(rows, cols, row, col);
          Set(row, col, values[i]);
          assert v[..i + 1] == values[..i + 1] by {
            assert v[..i + 1] == v[..i] + [v[i]];
          }
          i := i + 1;
          col := col + 1;
        }
        MulMonotone(row + 1, rows, cols);
        row := row + 1;
      }
      assert v == v[..i];
    }

    /**
     * operator=(rows): resize to the shape of `values`, then write every
     * entry. There must be at least one row, and all rows of one length.
     */
    method AssignRows(values: seq<seq<real>>)
      requires |values| > 0 && IsMatrix(values, |values|, |values[0]|)
      modifies this
      ensures Valid() && rows == |values| && cols == |values[0]|
      ensures Entries() == values
    {
      Resize(|values|, |values[0]|);
      Fill(values);
    }

    /** The number of entries. */
    function Size(): (n: nat)
      reads this
      requires Valid()
      ensures n == |v| == rows * cols
    {
      MulIsProduct(rows, cols);
      rows * cols
    }

    function Rows(): (n: nat)
      reads this
      ensures n == rows
    {
      rows
    }

    function Cols(): (n: nat)
      reads this
      ensures n == cols
    {
      cols
    }

    /** The new shape over the old buffer, cut or padded with zeros. */
    method Resize(rows: nat, cols: nat)
      modifies this
      ensures Valid() && this.rows == rows && this.cols == cols
      ensures v == Resized(old(v), Mul(rows, cols))
    {
      this.rows := rows;
      this.cols := cols;
      v := Resized(v, Mul(rows, cols));
    }

    /** The const element accessor; both indices must be in range. */
    function At(r: nat, c: nat): (x: real)
      reads this
      requires Valid() && r < rows && c < cols
      ensures x == Entries()[r][c]
    {
      UnflattenEntry(v, rows, cols, r, c);
      v[FlatIndex(cols, r, c)]
    }

    /** Writing through the non-const element accessor. */
    method Set(r: nat, c: nat, x: real)
      requires Valid() && r < rows && c < cols
      modifies this
      ensures Valid() && rows == old(rows) && cols == old(cols)
      ensures FlatIndex(cols, r, c) < |old(v)| && v == old(v)[FlatIndex(cols, r, c) := x]
      ensures Entries() == old(Entries())[r := old(Entries())[r][c := x]]
    {
      UnflattenUpdate(v, rows, cols, r, c, x);
      v := v[FlatIndex(cols, r, c) := x];
    }

    /** Exchanges two distinct rows, column by column. */
    method SwapRows(i: nat, j: nat)
      requires Valid() && i != j && i < rows && j < rows
      modifies this
      ensures Valid() && rows == old(rows) && cols == old(cols)
      ensures Entries() == Swap(old(Entries()), i, j)
    {
      ghost var e := Entries();
      ghost var s := Swap(e, i, j);
      var col := 0;
      while col < cols
        invariant 0 <= col <= cols && Valid() && rows == old(rows) && cols == old(cols)
        invariant forall r, c :: 0 <= r < rows && 0 <= c < cols ==>
          Entries()[r][c] == if (r == i || r == j) && c < col then s[r][c] else e[r][c]
      {
        var tmp := At(i, col);
        Set(i, col, At(j, col));
        Set(j, col, tmp);
        col := col + 1;
      }
      MatrixEquality(Entries(), s, rows, cols);
    }

    /**
     * Removes every row and every column whose index satisfies `p`; what
     * remains keeps its order.
     */
    method DeleteRowsAndColumns(p: nat -> bool)
      requires Valid()
      modifies this
      ensures Valid()
      ensures rows == |Survivors(old(rows), p)| && cols == |Survivors(old(cols), p)|
      ensures Entries() == Submatrix(old(Entries()), Survivors(old(rows), p), Survivors(old(cols), p))
    {
      var rowsNew, colsNew := CountKept(p);
      var nv := KeepRows(p, rowsNew, colsNew);
      ghost var sub := Submatrix(Entries(), Survivors(rows, p), Survivors(cols, p));
      UnflattenFlatten(sub, rowsNew, colsNew);
      v := nv;
      rows := rowsNew;
      cols := colsNew;
    }

    /**
     * The shape after the deletion: one pass over the indices below
     * max(rows, cols) counts the kept rows and the kept columns.
     */
    method CountKept(p: nat -> bool) returns (rowsNew: nat, colsNew: nat)
      ensures rowsNew == |Survivors(rows, p)| && colsNew == |Survivors(cols, p)|
    {
      rowsNew := 0;
      colsNew := 0;
      var m := if cols > rows then cols else rows;
      var i := 0;
      while i < m
        invariant 0 <= i <= m
        invariant rowsNew == |Survivors(if i < rows then i else rows, p)|
        invariant colsNew == |Survivors(if i < cols then i else cols, p)|
      {
        if !p(i) {
          if i < rows {
            rowsNew := rowsNew + 1;
          }
          if i < cols {
            colsNew := colsNew + 1;
          }
        }
        i := i + 1;
      }
    }

    /** The kept entries, row by row, into a new buffer of the new size. */
    method KeepRows(p: nat -> bool, rowsNew: nat, colsNew: nat) returns (nv: seq<real>)
      requires Valid() && rowsNew == |Survivors(rows, p)| && colsNew == |Survivors(cols, p)|
      ensures |nv| == Mul(rowsNew, colsNew)
      ensures nv == Flatten(Submatrix(Entries(), Survivors(rows, p), Survivors(cols, p)))
    {
      nv := seq(Mul(rowsNew, colsNew), _ => 0.0);
      var k: nat := 0;
      ghost var a: nat := 0;
      var r: nat := 0;
      KeptNone(p, rowsNew, colsNew, nv);
      while r < rows
        invariant r <= rows && KeptSoFar(p, rowsNew, colsNew, nv, k, r, a)
      {
        nv, k, a := KeepRow(p, rowsNew, colsNew, nv, k, r, a);
        r := r + 1;
      }
      KeptAll(p, rowsNew, colsNew, nv, k, a);
    }

    lemma KeptNone(p: nat -> bool, rowsNew: nat, colsNew: nat, nv: seq<real>)
      requires Valid() && rowsNew == |Survivors(rows, p)| && colsNew == |Survivors(cols, p)|
      requires |nv| == Mul(rowsNew, colsNew)
      ensures KeptSoFar(p, rowsNew, colsNew, nv, 0, 0, 0)
    {
      assert Submatrix(Entries(), Survivors(0, p), Survivors(cols, p)) == [];
    }

    lemma KeptAll(p: nat -> bool, rowsNew: nat, colsNew: nat, nv: seq<real>, k: nat, a: nat)
      requires KeptSoFar(p, rowsNew, colsNew, nv, k, rows, a)
      ensures |nv| == Mul(rowsNew, colsNew)
      ensures nv == Flatten(Submatrix(Entries(), Survivors(rows, p), Survivors(cols, p)))
    {
      FlattenLength(Submatrix(Entries(), Survivors(rows, p), Survivors(cols, p)), rowsNew, colsNew);
      assert nv == nv[..k];
    }

    /**
     * The state of the row loop before row r: the first k = a * colsNew
     * entries of the new buffer are the kept columns of the a rows kept so far.
     */
    ghost predicate KeptSoFar(p: nat -> bool, rowsNew: nat, colsNew: nat, nv: seq<real>, k: nat, r: nat, a: nat)
      reads this
    {
      Valid() && r <= rows && rowsNew == |Survivors(rows, p)| && colsNew == |Survivors(cols, p)| &&
      |nv| == Mul(rowsNew, colsNew) && a == |Survivors(r, p)| <= rowsNew && k == Mul(a, colsNew) <= |nv| &&
      nv[..k] == Flatten(Submatrix(Entries(), Survivors(r, p), Survivors(cols, p)))
    }

    /** One pass of the row loop: row r's kept columns are appended when row r is kept. */
    method KeepRow(p: nat -> bool, rowsNew: nat, colsNew: nat, nv: seq<real>, k: nat, r: nat, ghost a: nat)
        returns (nv': seq<real>, k': nat, ghost a': nat)
      requires r < rows && KeptSoFar(p, rowsNew, colsNew, nv, k, r, a)
      ensures KeptSoFar(p, rowsNew, colsNew, nv', k', r + 1, a')
    {
      SurvivorsPrefix(r + 1, rows, p);
      ghost var x := KeptRowsStep(Entries(), rows, cols, r, p, Survivors(cols, p));
      nv', k', a' := nv, k, a;
      if !p(r) {
        SurvivorRank(rows, p, r);
        MulMonotone(a + 1, rowsNew, colsNew);
        nv', k' := KeepColumns(nv, k, r, p);
        a' := a + 1;
      } else {
        MulMonotone(a, rowsNew, colsNew);
      }
    }

    /** Appends to `nv`, from position k on, the kept columns of row r. */
    method KeepColumns(nv: seq<real>, k: nat, r: nat, p: nat -> bool) returns (nv': seq<real>, k': nat)
      requires Valid() && r < rows && k + |Survivors(cols, p)| <= |nv|
      ensures |nv'| == |nv| && k' == k + |Survivors(cols, p)|
      ensures nv'[..k'] == nv[..k] + Pick(Entries()[r], Survivors(cols, p))
    {
      ghost var e := Entries();
      nv' := nv;
      k' := k;
      var c := 0;
      while c < cols
        invariant 0 <= c <= cols && |nv'| == |nv|
        invariant k' == k + |Survivors(c, p)| && |Survivors(c, p)| <= |Survivors(cols, p)|
        invariant nv'[..k'] == nv[..k] + Pick(e[r], Survivors(c, p))
      {
        if !p(c) {
          SurvivorRank(cols, p, c);
          PickAppend(e[r], Survivors(c, p), c);
          WriteNext(nv', k', nv[..k] + Pick(e[r], Survivors(c, p)), At(r, c));
          nv' := nv'[k' := At(r, c)];
          k' := k' + 1;
        }
        c := c + 1;
      }
    }

    /** Forward elimination step for one row below the pivot row i. */
    method ReduceRow(r: nat, i: nat) returns (m: real)
      requires Valid() && rows == cols && i < r < rows && Entries()[i][i] != 0.0
      modifies this
      ensures Valid() && rows == old(rows) && cols == old(cols)
      ensures m == Multiplier(old(Entries()), r, i)
      ensures Entries() == old(Entries())[r := ElimRow(old(Entries())[r], old(Entries())[i], i)]
    {
      ghost var e := Entries();
      ghost var target := ElimRow(e[r], e[i], i);
      m := -At(r, i) / At(i, i);
      assert e[r][i := 0.0] == Overwritten(target, e[r], i + 1);
      Set(r, i, 0.0);
      var c := i + 1;
      while c < cols
        invariant i + 1 <= c <= cols && Valid() && rows == old(rows) && cols == old(cols)
        invariant Entries() == e[r := Overwritten(target, e[r], c)]
      {
        OverwriteNext(target, e[r], c);
        assert At(r, c) + m * At(i, c) == target[c];
        Set(r, c, At(r, c) + m * At(i, c));
        c := c + 1;
      }
      assert Overwritten(target, e[r], c) == target;
    }

    /** The elimination below pivot row i, applied to this matrix and to b. */
    method EliminateBelowPivot(b: DVector, i: nat)
      requires Valid() && rows == cols && |b.v| == rows && i < rows && Entries()[i][i] != 0.0
      modifies this, b
      ensures Valid() && rows == old(rows) && cols == old(cols)
      ensures Entries() == EliminateBelow(old(Entries()), rows, i)
      ensures b.v == EliminateRhs(old(Entries()), old(b.v), rows, i)
    {
      ghost var e := Entries();
      ghost var b0 := b.v;
      ghost var eA := EliminateBelow(e, rows, i);
      ghost var eb := EliminateRhs(e, b0, rows, i);
      var r := i + 1;
      while r < rows
        invariant i + 1 <= r <= rows && Valid() && rows == old(rows) && cols == old(cols) && |b.v| == rows
        invariant forall k :: 0 <= k < rows ==> Entries()[k] == if k < r then eA[k] else e[k]
        invariant forall k :: 0 <= k < rows ==> b.v[k] == if k < r then eb[k] else b0[k]
      {
        ghost var before := Entries();
        ghost var bBefore := b.v;
        EliminatedEntries(e, b0, rows, i, r);
        var m := ReduceRow(r, i);
        var x := b.Get(r) + m * b.Get(i);
        EliminatedRhsValue(e, b0, rows, i, r, b.Get(r), m, b.Get(i), x);
        b.Set(r, x);
        Progress(before, Entries(), e, eA, r);
        Progress(bBefore, b.v, b0, eb, r);
        r := r + 1;
      }
      assert Entries() == eA;
      assert b.v == eb;
    }

    /** x minus the part of row i right of the diagonal times u, term by term. */
    method SubtractKnown(i: nat, x0: real, u: DVector) returns (x: real)
      requires Valid() && rows == cols && i < rows && |u.v| == rows
      ensures x == x0 - Dot(Entries()[i][i + 1..], u.v[i + 1..])
    {
      var n := rows;
      ghost var row := Entries()[i];
      x := x0;
      var j := i + 1;
      while j < n
        invariant i + 1 <= j <= n
        invariant x == x0 - Dot(row[i + 1..j], u.v[i + 1..j])
      {
        assert row[i + 1..j + 1][..j - i - 1] == row[i + 1..j];
        assert u.v[i + 1..j + 1][..j - i - 1] == u.v[i + 1..j];
        x := x - Prod(At(i, j), u.Get(j));
        j := j + 1;
      }
      assert row[i + 1..n] == row[i + 1..] && u.v[i + 1..n] == u.v[i + 1..];
    }

    /**
     * Back substitution: for i from the last row up, u(i) is b(i) minus
     * the already known part of row i, divided by the diagonal entry.
     */
    method BackSubstitute(b: DVector) returns (u: DVector)
      requires Valid() && rows == cols && |b.v| == rows
      requires forall k :: 0 <= k < rows ==> Entries()[k][k] != 0.0
      ensures u.v == BackFrom(Entries(), b.v, rows, 0)
    {
      var n := rows;
      ghost var e := Entries();
      u := new DVector.Zero(n);
      var i := n;
      while i > 0
        invariant 0 <= i <= n && u.v == BackFrom(e, b.v, n, i)
      {
        i := i - 1;
        var x := SubtractKnown(i, b.Get(i), u);
        u.Set(i, x / At(i, i));
      }
    }

    /**
     * The pivot search of step i: the first row at or below i with the
     * largest |A(r, i)|, and that absolute value.
     */
    method FindPivot(i: nat) returns (row: nat, largest: real)
      requires Valid() && rows == cols && i < rows
      ensures row == Pivot(Entries(), rows, i) && largest == Abs(Entries()[row][i])
    {
      var n := rows;
      ghost var e := Entries();
      row := i;
      largest := Abs(At(i, i));
      var r := i + 1;
      while r < n
        invariant i < r <= n && i <= row < r
        invariant largest == Abs(e[row][i])
        invariant PivotScan(e, n, i, r, row) == Pivot(e, n, i)
      {
        var current := Abs(At(r, i));
        if current > largest {
          row := r;
          largest := current;
        }
        r := r + 1;
      }
    }

    /**
     * One iteration of the forward loop on this matrix and b: false when
     * the pivot is zero, otherwise the exchanged and eliminated system.
     */
    method ForwardStep(b: DVector, i: nat) returns (ok: bool)
      requires Valid() && rows == cols && |b.v| == rows && i < rows
      modifies this, b
      ensures Valid() && rows == old(rows) && cols == old(cols) && |b.v| == rows
      ensures ok <==> Step(old(Entries()), old(b.v), rows, i).Success?
      ensures ok ==> Step(old(Entries()), old(b.v), rows, i).value == System(Entries(), b.v)
    {
      ghost var e := Entries();
      ghost var be := b.v;
      var row, largest := FindPivot(i);
      if largest == 0.0 {
        return false;
      }
      if row != i {
        SwapRows(row, i);
        b.SwapElements(row, i);
        assert b.v == Swap(be, row, i);
      }
      EliminateBelowPivot(b, i);
      return true;
    }

    /**
     * The solution of this square system with right-hand side b, or the
     * step whose pivot is zero; neither this matrix nor b changes.
     */
    method GaussianElimination(b_: DVector) returns (res: Result<DVector, nat>)
      requires Valid() && rows == cols && rows >= 1 && |b_.v| == rows
      ensures res.Failure? <==> Solve(Entries(), b_.v, rows).Failure?
      ensures res.Failure? ==> res.error == Solve(Entries(), b_.v, rows).error
      ensures res.Success? ==> res.value.v == Solve(Entries(), b_.v, rows).value
    {
      var n := rows;
      ghost var A0 := Entries();
      ghost var b0 := b_.v;
      var A := new DMatrix.Copy(this);
      var b := new DVector.Copy(b_);
      var forward := A.ForwardPhase(b);
      if forward.Fail? {
        return Failure(forward.error);
      }
      ForwardShape(A0, b0, n, 0, System(A.Entries(), b.v));
      res := A.BackPhase(b);
    }

    /**
     * The end of gaussianElimination on a reduced system: the last pivot
     * is checked, then the back substitution runs.
     */
    method BackPhase(b: DVector) returns (res: Result<DVector, nat>)
      requires Valid() && rows == cols && rows >= 1 && |b.v| == rows && Reduced(Entries(), rows, rows - 1)
      ensures res.Failure? <==> Entries()[rows - 1][rows - 1] == 0.0
      ensures res.Failure? ==> res.error == rows - 1
      ensures res.Success? ==> res.value.v == BackFrom(Entries(), b.v, rows, 0)
    {
      if At(rows - 1, rows - 1) == 0.0 {
        return Failure(rows - 1);
      }
      var u := BackSubstitute(b);
      return Success(u);
    }

    /**
     * The outer loop of gaussianElimination: the forward steps 0 .. n - 2
     * in place on this matrix and b; a zero pivot stops it at its step.
     */
    method ForwardPhase(b: DVector) returns (out: Outcome<nat>)
      requires Valid() && rows == cols && rows >= 1 && |b.v| == rows
      modifies this, b
      ensures Valid() && rows == old(rows) && cols == old(cols) && |b.v| == rows
      ensures out.Pass? <==> Forward(old(Entries()), old(b.v), rows, 0).Success?
      ensures out.Fail? ==> out.error == Forward(old(Entries()), old(b.v), rows, 0).error
      ensures out.Pass? ==> Forward(old(Entries()), old(b.v), rows, 0).value == System(Entries(), b.v)
    {
      var n := rows;
      ghost var A0 := Entries();
      ghost var b0 := b.v;
      var i := 0;
      while i < n - 1
        invariant 0 <= i <= n - 1
        invariant Valid() && rows == n && cols == n && |b.v| == n
        invariant Forward(Entries(), b.v, n, i) == Forward(A0, b0, n, 0)
      {
        var ok := ForwardStep(b, i);
        if !ok {
          return Fail(i);
        }
        i := i + 1;
      }
      return Pass;
    }

    /** operator==: the same shape and the same entries. */
    function Equals(other: DMatrix): (b: bool)
      reads this, other
      requires Valid() && other.Valid()
      ensures b <==> rows == other.rows && cols == other.cols && Entries() == other.Entries()
    {
      if rows == other.rows && cols == other.cols then
        UnflattenEqual(v, other.v, rows, cols);
        v == other.v
      else false
    }

    function NotEquals(other: DMatrix): (b: bool)
      reads this, other
      requires Valid() && other.Valid()
      ensures b <==> !(rows == other.rows && cols == other.cols && Entries() == other.Entries())
    {
      !Equals(other)
    }

    /** operator*(matrix, vector): the matrix-vector product. */
    method Multiply(u: DVector) returns (r: DVector)
      requires Valid() && cols == |u.v|
      ensures fresh(r) && r.v == MatVec(Entries(), u.v)
    {
      r := new DVector.Zero(rows);
      var row := 0;
      while row < rows
        invariant 0 <= row <= rows && |r.v| == rows
        invariant forall k :: 0 <= k < row ==> r.v[k] == Dot(Entries()[k], u.v)
      {
        var s := 0.0;
        var col := 0;
        while col < cols
          invariant 0 <= col <= cols
          invariant s == Dot(Entries()[row][..col], u.v[..col])
        {
          assert Entries()[row][..col + 1][..col] == Entries()[row][..col];
          assert u.v[..col + 1][..col] == u.v[..col];
          s := s + Prod(At(row, col), u.Get(col));
          col := col + 1;
        }
        assert Entries()[row][..col] == Entries()[row] && u.v[..col] == u.v;
        r.Set(row, s);
        row := row + 1;
      }
    }
  }
}
