/**
 * FDouble: a real number that may be undefined (src/FDouble.cpp), and the
 * bookkeeping over sequences of such slots that FVector and the boundary
 * conditions share.
 */
module FDoubles {
  import opened Wrappers
  import opened Indexing

  /**
   * The flag and the stored value of the original class. FDouble objects are
   * held by value (inside Node and inside FVector), so `set` and `unset` are
   * functions that return the updated value; the holder stores it back.
   */
  datatype FDouble = FDouble(defined: bool, value: real) {

    /** The default constructor: undefined, stored value 0. */
    static function Undefined(): (d: FDouble)
      ensures !d.IsDefined() && d.value == 0.0
    {
      FDouble(false, 0.0)
    }

    /** The value constructor, which calls `set`. */
    static function Of(x: real): (d: FDouble)
      ensures d.IsDefined() && d.GetValue() == x
    {
      Undefined().Set(x)
    }

    /** Makes the slot defined with value `x`, whatever it held before. */
    function Set(x: real): (d: FDouble)
      ensures d.IsDefined() && d.GetValue() == x
    {
      FDouble(true, x)
    }

    /** Makes the slot undefined and resets the stored value to 0. */
    function Unset(): (d: FDouble)
      ensures !d.IsDefined() && d.value == 0.0
      ensures d == Undefined()
    {
      FDouble(false, 0.0)
    }

    function IsDefined(): (b: bool)
      ensures b <==> defined
    {
      defined
    }

    /** Only a defined slot may be read. */
    function GetValue(): (x: real)
      requires IsDefined()
      ensures x == value
    {
      value
    }

    /** The optional-real view of the slot. */
    function ToOption(): (o: Option<real>)
      ensures o.Some? <==> IsDefined()
      ensures o.Some? ==> o.value == GetValue()
    {
      if defined then Some(value) else None
    }
  }

  /** A later `set` overwrites an earlier one, and `unset` forgets the value. */
  lemma SetOverwrites(d: FDouble, x: real, y: real)
    ensures d.Set(x).Set(y) == d.Set(y)
    ensures d.Set(x).Unset() == FDouble.Undefined()
    ensures d.Set(x).ToOption() == Some(x)
  {
  }

  /** The predicate "slot i holds a defined value". */
  function DefinedAt(u: seq<FDouble>): nat -> bool {
    (i: nat) => i < |u| && u[i].defined
  }

  /** The predicate holds exactly at the in-range slots that hold a value. */
  lemma DefinedAtMeaning(u: seq<FDouble>, i: nat)
    ensures DefinedAt(u)(i) <==> i < |u| && u[i].defined
  {
  }

  /** The number of defined slots, counted from the first slot to the last. */
  function CountDefined(u: seq<FDouble>): (n: nat)
    ensures n <= |u|
    decreases |u|
  {
    if |u| == 0 then 0
    else CountDefined(u[..|u| - 1]) + (if u[|u| - 1].defined then 1 else 0)
  }

  /** Every slot is either defined or one of the free (surviving) slots. */
  lemma FreeSlotCount(u: seq<FDouble>)
    ensures |Survivors(|u|, DefinedAt(u))| + CountDefined(u) == |u|
  {
    FreeSlotCountPrefix(u, |u|);
    assert u[..|u|] == u;
  }

  lemma {:induction false} FreeSlotCountPrefix(u: seq<FDouble>, m: nat)
    requires m <= |u|
    ensures |Survivors(m, DefinedAt(u))| + CountDefined(u[..m]) == m
    decreases m
  {
    if m > 0 {
      FreeSlotCountPrefix(u, m - 1);
      assert u[..m][..m - 1] == u[..m - 1];
    }
  }
}
