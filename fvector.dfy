/**
 * FVector: a vector of possibly undefined reals (src/FVector.cpp), used for
 * the partially prescribed nodal displacements.
 */
module FVectors {
  import opened Indexing
  import opened FDoubles
  import opened DVectors

  /**
   * The merge performed by setUndefinedElements: a defined slot keeps its
   * value, and an undefined slot receives the entry of `values` whose index
   * is the number of undefined slots before it.
   */
  function Merge(u: seq<FDouble>, values: seq<real>): (r: seq<real>)
    requires |u| == CountDefined(u) + |values|
    ensures |r| == |u|
    ensures forall i :: 0 <= i < |u| && u[i].defined ==> r[i] == u[i].value
  {
    FreeSlotCount(u);
    seq(|u|, i requires 0 <= i < |u| =>
      if u[i].defined then u[i].value
      else SurvivorRank(|u|, DefinedAt(u), i); values[|Survivors(i, DefinedAt(u))|])
  }

  /** The k-th undefined slot, in index order, receives values[k]. */
  lemma MergeFillsFreeSlots(u: seq<FDouble>, values: seq<real>, k: nat)
    requires |u| == CountDefined(u) + |values|
    requires k < |values|
    ensures |Survivors(|u|, DefinedAt(u))| == |values|
    ensures Survivors(|u|, DefinedAt(u))[k] < |u|
    ensures Merge(u, values)[Survivors(|u|, DefinedAt(u))[k]] == values[k]
  {
    FreeSlotCount(u);
    RankOfSurvivor(|u|, DefinedAt(u), k);
  }

  /**
   * Deleting the defined slots from the merge result gives back `values`:
   * the deletion order and the merge order agree.
   */
  lemma MergeRoundTrip(u: seq<FDouble>, values: seq<real>)
    requires |u| == CountDefined(u) + |values|
    ensures Pick(Merge(u, values), Survivors(|u|, DefinedAt(u))) == values
  {
    FreeSlotCount(u);
    forall k | 0 <= k < |values|
      ensures Pick(Merge(u, values), Survivors(|u|, DefinedAt(u)))[k] == values[k]
    {
      MergeFillsFreeSlots(u, values, k);
    }
  }

  /**
   * The converse round trip: a full vector that carries the defined values
   * is the merge of its own free entries.
   */
  lemma MergePick(u: seq<FDouble>, w: seq<real>)
    requires |w| == |u|
    requires forall i :: 0 <= i < |u| && u[i].defined ==> w[i] == u[i].value
    ensures |u| == CountDefined(u) + |Pick(w, Survivors(|u|, DefinedAt(u)))|
    ensures Merge(u, Pick(w, Survivors(|u|, DefinedAt(u)))) == w
  {
    FreeSlotCount(u);
    var x := Pick(w, Survivors(|u|, DefinedAt(u)));
    forall i | 0 <= i < |u| && !u[i].defined
      ensures Merge(u, x)[i] == w[i]
    {
      SurvivorRank(|u|, DefinedAt(u), i);
    }
  }

  class FVector {
    var v: seq<FDouble>

    /** FVector(size): `n` undefined slots. */
    constructor(n: nat)
      ensures |v| == n && forall i :: 0 <= i < n ==> v[i] == FDouble.Undefined()
      ensures CountDefined(v) == 0
    {
      v := seq(n, _ => FDouble.Undefined());
      new;
      NoneDefined(v);
    }

    function Size(): (n: nat)
      reads this
      ensures n == |v|
    {
      |v|
    }

    method NumberOfDefinedElements() returns (n: nat)
      ensures n == CountDefined(v) && n <= |v|
    {
      n := 0;
      var i := 0;
      while i < |v|
        invariant 0 <= i <= |v|
        invariant n == CountDefined(v[..i])
      {
        assert v[..i + 1][..i] == v[..i];
        if v[i].IsDefined() {
          n := n + 1;
        }
        i := i + 1;
      }
      assert v[..i] == v;
    }

    /** Slot i becomes defined with value x; the other slots are unchanged. */
    method SetElement(i: nat, x: real)
      requires i < |v|
      modifies this
      ensures v == old(v)[i := old(v)[i].Set(x)]
    {
      v := v[i := v[i].Set(x)];
    }

    /**
     * The full vector: defined slots keep their value, undefined slots are
     * filled from `values` in index order. Neither this nor `values` changes.
     */
    method SetUndefinedElements(values: DVector) returns (r: DVector)
      requires |v| == CountDefined(v) + |values.v|
      ensures fresh(r) && r.v == Merge(v, values.v)
    {
      var sd := Size();
      var sdd := NumberOfDefinedElements();
      var sud := values.Size();
      assert sd == sdd + sud;
      ghost var p := DefinedAt(v);
      r := new DVector.Zero(sd);
      var j := 0;
      var i := 0;
      FreeSlotCount(v);
      while i < sd
        invariant 0 <= i <= sd && |r.v| == sd
        invariant j == |Survivors(i, p)|
        invariant forall k :: 0 <= k < i ==> r.v[k] == Merge(v, values.v)[k]
      {
        if v[i].IsDefined() {
          r.Set(i, v[i].GetValue());
        } else {
          SurvivorRank(sd, p, i);
          r.Set(i, values.Get(j));
          j := j + 1;
        }
        i := i + 1;
      }
    }

    /** The const element accessor; the index must be in range. */
    function Get(i: nat): (d: FDouble)
      reads this
      requires i < |v|
      ensures d == v[i]
    {
      v[i]
    }

    /** Writing a whole slot through the non-const element accessor. */
    method SetSlot(i: nat, d: FDouble)
      requires i < |v|
      modifies this
      ensures v == old(v)[i := d]
    {
      v := v[i := d];
    }
  }

  lemma {:induction false} NoneDefined(u: seq<FDouble>)
    requires forall i :: 0 <= i < |u| ==> !u[i].defined
    ensures CountDefined(u) == 0
    decreases |u|
  {
    if |u| > 0 {
      NoneDefined(u[..|u| - 1]);
    }
  }
}
