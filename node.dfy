/**
 * Node (src/Node.cpp): a nodal point of the spring model. The internal
 * index and the external id are fixed at construction; the prescribed
 * displacement and the applied force are updated in place.
 */
module Nodes {
  import opened FDoubles

  class Node {
    /** The position of the node in the model's node list. */
    const index: nat
    /** The id the model's input uses for the node. */
    const id: int
    /** The prescribed displacement, if any. */
    var displacement: FDouble
    /** The applied external force. */
    var force: real

    /** A node without a prescribed displacement and without a force. */
    constructor(index: nat, id: int)
      ensures this.index == index && this.id == id
      ensures !displacement.IsDefined() && displacement == FDouble.Undefined()
      ensures force == 0.0
    {
      this.index := index;
      this.id := id;
      displacement := FDouble.Undefined();
      force := 0.0;
    }

    /**
     * Prescribes the displacement x: the slot becomes defined with value x,
     * replacing an earlier prescription. The force stays.
     */
    method AddDisplacement(x: real)
      modifies this
      ensures displacement == old(displacement).Set(x)
      ensures displacement.IsDefined() && displacement.GetValue() == x
      ensures force == old(force)
    {
      displacement := displacement.Set(x);
    }

    /** Sets the applied force to f, replacing (not adding to) the old one. */
    method AddForce(f: real)
      modifies this
      ensures force == f
      ensures displacement == old(displacement)
    {
      force := f;
    }
  }
}
