/**
 * Spring (src/Spring.cpp): a one-dimensional linear spring between two
 * nodes. Every field is fixed at construction, so a spring is a value that
 * holds references to its two end nodes.
 */
module Springs {
  import opened LinearAlgebra
  import opened Nodes
  import opened DMatrices

  /** The local stiffness matrix [[k, -k], [-k, k]] of a spring with constant k. */
  function LocalStiffness(k: real): (L: Matrix)
    ensures IsMatrix(L, 2, 2)
  {
    [[k, -k], [-k, k]]
  }

  datatype Spring = Spring(index: nat, id: int, node1: Node, node2: Node, k: real) {

    /**
     * stiffnessMatrix(): a new 2 x 2 matrix whose entries are written with
     * the row-major flat assignment k, -k, -k, k.
     */
    method StiffnessMatrix() returns (m: DMatrix)
      ensures fresh(m) && m.Valid() && m.rows == 2 && m.cols == 2
      ensures m.Entries() == LocalStiffness(k)
    {
      m := new DMatrix.Zero(2, 2);
      m.Assign([k, -k, -k, k]);
      FlatStiffness(k);
    }
  }

  /** The flat buffer k, -k, -k, k read as a 2 x 2 matrix is the local stiffness. */
  lemma FlatStiffness(k: real)
    ensures Mul(2, 2) == 4
    ensures Unflatten([k, -k, -k, k], 2, 2) == LocalStiffness(k)
  {
    var v := [k, -k, -k, k];
    assert Mul(1, 2) == 2;
    assert v[..Mul(1, 2)] == [k, -k] && v[Mul(1, 2)..] == [-k, k];
    assert [k, -k][..Mul(0, 2)] == [] && [k, -k][Mul(0, 2)..] == [k, -k];
  }

  /**
   * The end forces of a spring with end displacements u1 and u2: k(u1 - u2)
   * at the first node and k(u2 - u1) at the second. They are equal and
   * opposite, and a rigid translation (u1 == u2) produces none.
   */
  lemma LocalForces(k: real, u1: real, u2: real)
    ensures MatVec(LocalStiffness(k), [u1, u2]) == [k * (u1 - u2), k * (u2 - u1)]
    ensures MatVec(LocalStiffness(k), [u1, u2])[0] + MatVec(LocalStiffness(k), [u1, u2])[1] == 0.0
    ensures u1 == u2 ==> MatVec(LocalStiffness(k), [u1, u2]) == [0.0, 0.0]
  {
    var L := LocalStiffness(k);
    var r := MatVec(L, [u1, u2]);
    DotPair(L[0], [u1, u2]);
    DotPair(L[1], [u1, u2]);
    assert r[0] == k * u1 + -k * u2 == k * (u1 - u2);
    assert r[1] == -k * u1 + k * u2 == k * (u2 - u1);
    assert r == [r[0], r[1]];
    if u1 == u2 {
      assert k * (u1 - u2) == 0.0 && k * (u2 - u1) == 0.0;
    }
  }

  /** The local stiffness matrix is symmetric and each of its rows sums to 0. */
  lemma LocalStiffnessBalanced(k: real)
    ensures Symmetric(LocalStiffness(k))
    ensures Sum(LocalStiffness(k)[0]) == 0.0 && Sum(LocalStiffness(k)[1]) == 0.0
  {
    var L := LocalStiffness(k);
    SumPair(L[0]);
    SumPair(L[1]);
  }

  lemma SumPair(a: seq<real>)
    requires |a| == 2
    ensures Sum(a) == a[0] + a[1]
  {
    assert a[..1][..0] == [];
    assert Sum(a[..1]) == Sum(a[..1][..0]) + a[0];
  }

  lemma DotPair(a: seq<real>, b: seq<real>)
    requires |a| == |b| == 2
    ensures Dot(a, b) == a[0] * b[0] + a[1] * b[1]
  {
    DotSingle(a[..1], b[..1]);
  }
}
