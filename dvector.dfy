/**
 * DVector: a dense real vector (src/DVector.cpp). The heap buffer of the
 * original is the sequence field `v`, replaced or updated in place.
 */
module DVectors {
  import opened LinearAlgebra
  import opened Indexing
  import opened FDoubles

  /** std::vector::resize: keep a prefix, or extend with zeros. */
  function Resized(s: seq<real>, n: nat): (r: seq<real>)
    ensures |r| == n
    ensures forall i :: 0 <= i < n && i < |s| ==> r[i] == s[i]
    ensures forall i :: |s| <= i < n ==> r[i] == 0.0
  {
    if n <= |s| then s[..n] else s + seq(n - |s|, _ => 0.0)
  }

  class DVector {
    var v: seq<real>

    /** DVector(size): `n` zeros. */
    constructor Zero(n: nat)
      ensures |v| == n && forall i :: 0 <= i < n ==> v[i] == 0.0
    {
      v := seq(n, _ => 0.0);
    }

    /** DVector(values): a copy of `values`. */
    constructor FromValues(values: seq<real>)
      ensures v == values
    {
      v := values;
    }

    /** The copy constructor. */
    constructor Copy(other: DVector)
      ensures v == other.v
    {
      v := other.v;
    }

    /** operator=(values): resize to |values|, then copy entry by entry. */
    method Assign(values: seq<real>)
      modifies this
      ensures v == values
    {
      Resize(|values|);
      var i := 0;
      while i < |values|
        invariant 0 <= i <= |values| == |v|
        invariant v[..i] == values[..i]
      {
        Set(i, values[i]);
        i := i + 1;
      }
      assert v == v[..i];
    }

    function Size(): (n: nat)
      reads this
      ensures n == |v|
    {
      |v|
    }

    method Resize(n: nat)
      modifies this
      ensures v == Resized(old(v), n)
    {
      v := Resized(v, n);
    }

    /** The const element accessor; the index must be in range. */
    function Get(i: nat): (x: real)
      reads this
      requires i < |v|
      ensures x == v[i]
    {
      v[i]
    }

    /** Writing through the non-const element accessor. */
    method Set(i: nat, x: real)
      requires i < |v|
      modifies this
      ensures v == old(v)[i := x]
    {
      v := v[i := x];
    }

    /** Exchanges two distinct entries; nothing else changes. */
    method SwapElements(i: nat, j: nat)
      requires i != j && i < |v| && j < |v|
      modifies this
      ensures |v| == |old(v)| && v[i] == old(v)[j] && v[j] == old(v)[i]
      ensures forall k :: 0 <= k < |v| && k != i && k != j ==> v[k] == old(v)[k]
    {
      var tmp := Get(i);
      Set(i, Get(j));
      Set(j, tmp);
    }

    /**
     * Keeps, in order, the entries whose slot in `displacements` is
     * undefined. (The original takes the FVector by value; here its slots.)
     */
    method ApplyBoundaryConditions(displacements: seq<FDouble>)
      requires |displacements| == |v|
      modifies this
      ensures v == Pick(old(v), Survivors(|displacements|, DefinedAt(displacements)))
      ensures |v| == |displacements| - CountDefined(displacements)
    {
      FreeSlotCount(displacements);
      var sizeNew := |displacements| - CountDefined(displacements);
      var nv := KeptEntries(DefinedAt(displacements), sizeNew);
      v := nv;
    }

    /** Keeps, in order, exactly the entries whose index fails `p`. */
    method DeleteElements(p: nat -> bool)
      modifies this
      ensures v == Pick(old(v), Survivors(|old(v)|, p))
    {
      var sizeNew := 0;
      var i := 0;
      while i < |v|
        invariant 0 <= i <= |v|
        invariant sizeNew == |Survivors(i, p)|
      {
        if !p(i) {
          sizeNew := sizeNew + 1;
        }
        i := i + 1;
      }
      var nv := KeptEntries(p, sizeNew);
      v := nv;
    }

    /**
     * The copying pass shared by both deletions: a buffer of sizeNew
     * entries filled, in order, with the entries whose index fails `p`.
     */
    method KeptEntries(p: nat -> bool, sizeNew: nat) returns (nv: seq<real>)
      requires sizeNew == |Survivors(|v|, p)|
      ensures nv == Pick(v, Survivors(|v|, p))
    {
      nv := seq(sizeNew, _ => 0.0);
      var j := 0;
      var i := 0;
      while i < |v|
        invariant 0 <= i <= |v| && |nv| == sizeNew
        invariant j == |Survivors(i, p)| <= sizeNew
        invariant nv[..j] == Pick(v, Survivors(i, p))
      {
        SurvivorsPrefix(i + 1, |v|, p);
        if !p(i) {
          PickAppend(v, Survivors(i, p), i);
          nv := nv[j := v[i]];
          j := j + 1;
        }
        i := i + 1;
      }
      assert nv[..j] == nv;
    }

    /** operator==: same length and the same entries. */
    function Equals(other: DVector): (b: bool)
      reads this, other
      ensures b <==> |v| == |other.v| && forall i :: 0 <= i < |v| ==> v[i] == other.v[i]
    {
      v == other.v
    }

    function NotEquals(other: DVector): (b: bool)
      reads this, other
      ensures b <==> !(|v| == |other.v| && forall i :: 0 <= i < |v| ==> v[i] == other.v[i])
    {
      !Equals(other)
    }

    /** operator*: the dot product of two vectors of one length. */
    method DotProduct(other: DVector) returns (r: real)
      requires |v| == |other.v|
      ensures r == Dot(v, other.v)
    {
      r := 0.0;
      var i := 0;
      while i < |v|
        invariant 0 <= i <= |v|
        invariant r == Dot(v[..i], other.v[..i])
      {
        assert v[..i + 1][..i] == v[..i] && other.v[..i + 1][..i] == other.v[..i];
        r := r + Prod(Get(i), other.Get(i));
        i := i + 1;
      }
      assert v[..i] == v && other.v[..i] == other.v;
    }
  }

  /** The examples of the original's tests: 4*7, [3,4].[6,7] and [2,3,4].[5,6,7]. */
  lemma DotExamples()
    ensures Dot([4.0], [7.0]) == 28.0
    ensures Dot([3.0, 4.0], [6.0, 7.0]) == 46.0
    ensures Dot([2.0, 3.0, 4.0], [5.0, 6.0, 7.0]) == 56.0
  {
    assert [2.0, 3.0, 4.0][..2] == [2.0, 3.0] && [5.0, 6.0, 7.0][..2] == [5.0, 6.0];
    assert [2.0, 3.0][..1] == [2.0] && [5.0, 6.0][..1] == [5.0];
    assert [3.0, 4.0][..1] == [3.0] && [6.0, 7.0][..1] == [6.0];
    assert [4.0][..0] == [] && [7.0][..0] == [];
  }
}
