/**
 * FEM (src/FEM.cpp): the orchestrator of the one-dimensional spring model.
 * It owns the nodes and the springs, the two id/index maps of each, and the
 * three results of the last solve. Its methods are proved against the
 * functions of module FemModel.
 */
module Fem {
  import opened Wrappers
  import opened LinearAlgebra
  import opened Indexing
  import opened FDoubles
  import opened DVectors
  import opened FVectors
  import opened DMatrices
  import opened Elimination
  import opened Nodes
  import opened Springs
  import opened FemModel

  /** The conditions under which the original prints an error and exits. */
  datatype FemError =
    | DuplicateNode(id: int)
    | UnknownNode(id: int)
    | NoSuchNodeIndex(index: int)
    | DuplicateSpring(id: int)
    | Singular(step: nat)

  /** The id -> index map agrees with the list of ids: every id maps to its position and back. */
  ghost predicate Indexed(toIndex: map<int, nat>, ids: seq<int>) {
    (forall id :: id in toIndex ==> toIndex[id] < |ids| && ids[toIndex[id]] == id) &&
    (forall i :: 0 <= i < |ids| ==> ids[i] in toIndex && toIndex[ids[i]] == i)
  }

  /** Registering a new id at the next position keeps the map consistent. */
  lemma IndexedAppend(toIndex: map<int, nat>, ids: seq<int>, id: int)
    requires Indexed(toIndex, ids) && id !in toIndex
    ensures Indexed(toIndex[id := |ids|], ids + [id])
  {
    var ids' := ids + [id];
    forall i | 0 <= i < |ids'|
      ensures ids'[i] in toIndex[id := |ids|] && toIndex[id := |ids|][ids'[i]] == i
    {
      if i < |ids| {
        assert ids'[i] == ids[i] != id;
      }
    }
  }

  /** The ids of the nodes, in index order. */
  function NodeIdsOf(ns: seq<Node>): (ids: seq<int>)
    ensures |ids| == |ns| && forall i :: 0 <= i < |ns| ==> ids[i] == ns[i].id
  {
    seq(|ns|, i requires 0 <= i < |ns| => ns[i].id)
  }

  /** The ids of the springs, in index order. */
  function SpringIdsOf(ss: seq<Spring>): (ids: seq<int>)
    ensures |ids| == |ss| && forall i :: 0 <= i < |ss| ==> ids[i] == ss[i].id
  {
    seq(|ss|, i requires 0 <= i < |ss| => ss[i].id)
  }

  /**
   * Each node and each spring knows its own position, both id maps agree
   * with the lists, and every spring joins two nodes of the list.
   */
  ghost predicate Consistent(nodes: seq<Node>, springs: seq<Spring>, nodeIndexOf: map<int, nat>, springIndexOf: map<int, nat>) {
    (forall i :: 0 <= i < |nodes| ==> nodes[i].index == i) &&
    (forall s :: 0 <= s < |springs| ==> springs[s].index == s) &&
    Indexed(nodeIndexOf, NodeIdsOf(nodes)) &&
    Indexed(springIndexOf, SpringIdsOf(springs)) &&
    (forall s :: 0 <= s < |springs| ==>
      springs[s].node1.index < |nodes| && nodes[springs[s].node1.index] == springs[s].node1 &&
      springs[s].node2.index < |nodes| && nodes[springs[s].node2.index] == springs[s].node2)
  }

  /** std::map::operator[]: the mapped index, after inserting key -> 0 when the key is missing. */
  function Subscript(m: map<int, nat>, key: int): (r: (map<int, nat>, nat))
    ensures key in r.0 && r.1 == r.0[key]
    ensures key in m ==> r.0 == m && r.1 == m[key]
    ensures key !in m ==> r.0 == m[key := 0] && r.1 == 0
  {
    if key in m then (m, m[key]) else (m[key := 0], 0)
  }

  /**
   * Subscripting the id -> index map with an unknown id silently reads the
   * node at index 0, which has another id, and leaves the map claiming the
   * unknown id: the maps no longer agree with the node list, and a later
   * addNode with that id reports a duplicate.
   */
  lemma SubscriptUnknownBreaksIndex(m: map<int, nat>, ids: seq<int>, key: int)
    requires Indexed(m, ids) && key !in m && |ids| > 0
    ensures Subscript(m, key).1 == 0 && ids[0] != key
    ensures key in Subscript(m, key).0
    ensures !Indexed(Subscript(m, key).0, ids)
  {
    assert ids[0] in m;
  }

  class FEM {
    /** Working in one dimension: one degree of freedom per node. */
    const dimension: nat := 1

    var nodes: seq<Node>
    var springs: seq<Spring>
    var nodeIndexOf: map<int, nat>
    var springIndexOf: map<int, nat>

    /** The results of the last solve; null before the first one. */
    var globalForceVector: DVector?
    var globalStiffnessMatrix: DMatrix?
    var globalDisplacementVector: DVector?

    /** The ids of the nodes, in index order. */
    function NodeIds(): (ids: seq<int>)
      reads this`nodes
      ensures |ids| == |nodes|
    {
      NodeIdsOf(nodes)
    }

    /** The ids of the springs, in index order. */
    function SpringIds(): (ids: seq<int>)
      reads this`springs
      ensures |ids| == |springs|
    {
      SpringIdsOf(springs)
    }

    ghost predicate Valid()
      reads this`nodes, this`springs, this`nodeIndexOf, this`springIndexOf
    {
      dimension == 1 && Consistent(nodes, springs, nodeIndexOf, springIndexOf)
    }

    /** The springs as the assembly sees them. */
    ghost function Elements(): (els: seq<Element>)
      reads this`springs
      ensures |els| == |springs|
    {
      ElementsOf(springs)
    }

    /** The prescribed displacement of every node, in index order. */
    ghost function Prescribed(): (d: seq<FDouble>)
      reads this`nodes, nodes
      ensures |d| == |nodes|
    {
      DisplacementsOf(nodes)
    }

    /** The applied force of every node, in index order. */
    ghost function Loads(): (f: seq<real>)
      reads this`nodes, nodes
      ensures |f| == |nodes|
    {
      ForcesOf(nodes)
    }

    /** The results of a solve are present and belong to the current node list. */
    ghost predicate Solved()
      reads this, globalForceVector, globalStiffnessMatrix, globalDisplacementVector
    {
      globalForceVector != null && globalStiffnessMatrix != null && globalDisplacementVector != null &&
      globalStiffnessMatrix.Valid() &&
      globalStiffnessMatrix.rows == |nodes| && globalStiffnessMatrix.cols == |nodes| &&
      |globalDisplacementVector.v| == |nodes| && |globalForceVector.v| == |nodes|
    }

    /** A model without nodes, springs or results. */
    constructor()
      ensures Valid() && nodes == [] && springs == []
      ensures globalForceVector == null && globalStiffnessMatrix == null && globalDisplacementVector == null
    {
      nodes := [];
      springs := [];
      nodeIndexOf := map[];
      springIndexOf := map[];
      globalForceVector := null;
      globalStiffnessMatrix := null;
      globalDisplacementVector := null;
    }

    /** Every spring connects nodes of the model. */
    lemma ElementsConnect()
      requires Valid()
      ensures Connects(|nodes|, Elements())
    {
    }

    // -------------------------------------------------------------------
    // Building the model

    /**
     * addNode: a new node with the next index, no prescribed displacement
     * and no force; an id that is taken already is an error.
     */
    method AddNode(id: int) returns (out: Outcome<FemError>)
      requires Valid()
      modifies this
      ensures Valid()
      ensures out.Fail? <==> id in old(nodeIndexOf)
      ensures out.Fail? ==> out.error == DuplicateNode(id) && nodes == old(nodes) && nodeIndexOf == old(nodeIndexOf)
      ensures out.Pass? ==> (|nodes| == |old(nodes)| + 1 && nodes[..|old(nodes)|] == old(nodes) &&
        fresh(nodes[|old(nodes)|]) && nodes[|old(nodes)|].id == id &&
        nodeIndexOf == old(nodeIndexOf)[id := |old(nodes)|])
      ensures out.Pass? ==> (Prescribed() == old(Prescribed()) + [FDouble.Undefined()] &&
        Loads() == old(Loads()) + [0.0])
      ensures springs == old(springs) && springIndexOf == old(springIndexOf)
      ensures globalForceVector == old(globalForceVector) && globalStiffnessMatrix == old(globalStiffnessMatrix) &&
        globalDisplacementVector == old(globalDisplacementVector)
    {
      if id in nodeIndexOf {
        return Fail(DuplicateNode(id));
      }
      var index := |nodes|;
      IndexedAppend(nodeIndexOf, NodeIds(), id);
      nodeIndexOf := nodeIndexOf[id := index];
      var node := new Node(index, id);
      nodes := nodes + [node];
      assert NodeIds() == old(NodeIds()) + [id];
      assert Prescribed() == old(Prescribed()) + [FDouble.Undefined()];
      assert Loads() == old(Loads()) + [0.0];
      return Pass;
    }

    /** addDisplacement: prescribes the displacement of the node with that id. */
    method AddDisplacement(nodeID: int, displacement: real) returns (out: Outcome<FemError>)
      requires Valid()
      modifies nodes
      ensures out.Fail? <==> nodeID !in nodeIndexOf
      ensures out.Fail? ==> out.error == UnknownNode(nodeID) && Prescribed() == old(Prescribed())
      ensures out.Pass? ==> (nodeIndexOf[nodeID] < |nodes| &&
        Prescribed() == old(Prescribed())[nodeIndexOf[nodeID] := FDouble.Of(displacement)])
      ensures Loads() == old(Loads())
    {
      var r := GetNodeByID(nodeID);
      if r.Failure? {
        return Fail(r.error);
      }
      var node := r.value;
      node.AddDisplacement(displacement);
      assert Prescribed() == old(Prescribed())[nodeIndexOf[nodeID] := FDouble.Of(displacement)];
      return Pass;
    }

    /** addForce: sets the applied force of the node with that id. */
    method AddForce(nodeID: int, force: real) returns (out: Outcome<FemError>)
      requires Valid()
      modifies nodes
      ensures out.Fail? <==> nodeID !in nodeIndexOf
      ensures out.Fail? ==> out.error == UnknownNode(nodeID) && Loads() == old(Loads())
      ensures out.Pass? ==> (nodeIndexOf[nodeID] < |nodes| &&
        Loads() == old(Loads())[nodeIndexOf[nodeID] := force])
      ensures Prescribed() == old(Prescribed())
    {
      var r := GetNodeByID(nodeID);
      if r.Failure? {
        return Fail(r.error);
      }
      var node := r.value;
      node.AddForce(force);
      assert Loads() == old(Loads())[nodeIndexOf[nodeID] := force];
      return Pass;
    }

    /**
     * addSpring: a new spring with the next index between the nodes with
     * ids node1 and node2. A spring id that is taken is reported first,
     * then an unknown first node, then an unknown second node.
     */
    method AddSpring(id: int, node1: int, node2: int, springConstant: real) returns (out: Outcome<FemError>)
      requires Valid()
      modifies this
      ensures Valid()
      ensures out == (if id in old(springIndexOf) then Fail(DuplicateSpring(id))
        else if node1 !in nodeIndexOf then Fail(UnknownNode(node1))
        else if node2 !in nodeIndexOf then Fail(UnknownNode(node2))
        else Pass)
      ensures out.Fail? ==> springs == old(springs) && springIndexOf == old(springIndexOf)
      ensures out.Pass? ==> (springIndexOf == old(springIndexOf)[id := |old(springs)|] &&
        Elements() == old(Elements()) + [Element(nodeIndexOf[node1], nodeIndexOf[node2], springConstant)])
      ensures nodes == old(nodes) && nodeIndexOf == old(nodeIndexOf)
      ensures globalForceVector == old(globalForceVector) && globalStiffnessMatrix == old(globalStiffnessMatrix) &&
        globalDisplacementVector == old(globalDisplacementVector)
    {
      if id in springIndexOf {
        return Fail(DuplicateSpring(id));
      }
      var r1 := GetNodeByID(node1);
      if r1.Failure? {
        return Fail(r1.error);
      }
      var r2 := GetNodeByID(node2);
      if r2.Failure? {
        return Fail(r2.error);
      }
      var index := |springs|;
      IndexedAppend(springIndexOf, SpringIds(), id);
      springIndexOf := springIndexOf[id := index];
      var spring := Spring(index, id, r1.value, r2.value, springConstant);
      springs := springs + [spring];
      assert SpringIds() == old(SpringIds()) + [id];
      assert Elements() == old(Elements()) + [Element(nodeIndexOf[node1], nodeIndexOf[node2], springConstant)];
      return Pass;
    }

    // -------------------------------------------------------------------
    // Lookups

    /** getNodeByIndex: an index outside the node list is an error. */
    function GetNodeByIndex(i: int): (r: Result<Node, FemError>)
      reads this
      requires Valid()
      ensures r.Success? <==> 0 <= i < |nodes|
      ensures r.Success? ==> r.value == nodes[i] && r.value.index == i
      ensures r.Failure? ==> r.error == NoSuchNodeIndex(i)
    {
      if i < 0 || i >= |nodes| then Failure(NoSuchNodeIndex(i)) else Success(nodes[i])
    }

    /** getNodeByID: the node with that id; an unknown id is an error. */
    function GetNodeByID(id: int): (r: Result<Node, FemError>)
      reads this
      requires Valid()
      ensures r.Success? <==> id in nodeIndexOf
      ensures r.Success? ==> r.value.id == id && r.value.index < |nodes| && nodes[r.value.index] == r.value
      ensures r.Failure? ==> r.error == UnknownNode(id)
    {
      if id !in nodeIndexOf then Failure(UnknownNode(id))
      else
        assert NodeIds()[nodeIndexOf[id]] == id;
        GetNodeByIndex(nodeIndexOf[id])
    }

    function GetNumberOfNodes(): (n: nat)
      reads this
      requires Valid()
      ensures n == |nodes| == |NodeIds()|
    {
      |nodes|
    }

    /** getSpringByIndex: no range check in the original, so the index must be in range. */
    function GetSpringByIndex(i: int): (s: Spring)
      reads this
      requires Valid() && 0 <= i < |springs|
      ensures s.index == i && s.id == SpringIds()[i]
    {
      springs[i]
    }

    /** getSpringByID: the spring with that id, or nothing for an unknown id. */
    function GetSpringByID(id: int): (r: Option<Spring>)
      reads this
      requires Valid()
      ensures r.Some? <==> id in springIndexOf
      ensures r.Some? ==> r.value.id == id && r.value == springs[springIndexOf[id]]
    {
      if id !in springIndexOf then None
      else
        assert SpringIds()[springIndexOf[id]] == id;
        Some(GetSpringByIndex(springIndexOf[id]))
    }

    function GetNumberOfSprings(): (n: nat)
      reads this
      requires Valid()
      ensures n == |springs| == |Elements()|
    {
      |springs|
    }

    /** The size of the global system: one degree of freedom per node. */
    function DegreesOfFreedom(): (n: nat)
      reads this
      requires Valid()
      ensures n == |nodes| == |Prescribed()| == |Loads()|
    {
      dimension * GetNumberOfNodes()
    }

    // -------------------------------------------------------------------
    // Assembly

    /**
     * assembleGlobalStiffnessMatrix: the zero matrix of the system's size,
     * then every spring's local matrix added at its nodes' positions.
     */
    method AssembleGlobalStiffnessMatrix() returns (K: DMatrix)
      requires Valid()
      ensures fresh(K) && K.Valid() && K.rows == |nodes| && K.cols == |nodes|
      ensures Connects(|nodes|, Elements()) && K.Entries() == Assembled(|nodes|, Elements())
    {
      var n := DegreesOfFreedom();
      ElementsConnect();
      K := AssembleSprings(n, springs);
    }

    /** assembleGlobalDisplacementVector: the prescribed displacement of every node. */
    method AssembleGlobalDisplacementVector() returns (d: FVector)
      requires Valid()
      ensures fresh(d) && d.v == old(Prescribed())
    {
      var n := DegreesOfFreedom();
      d := new FVector(n);
      var i := 0;
      while i < |nodes|
        invariant 0 <= i <= |nodes| && |d.v| == n
        invariant d.v[..i] == Prescribed()[..i]
      {
        d.SetSlot(i, nodes[i].displacement);
        i := i + 1;
      }
      assert d.v == d.v[..i];
    }

    /** assembleGlobalForceVector: the applied force of every node. */
    method AssembleGlobalForceVector() returns (f: DVector)
      requires Valid()
      ensures fresh(f) && f.v == old(Loads())
    {
      var n := DegreesOfFreedom();
      f := new DVector.Zero(n);
      var i := 0;
      while i < |nodes|
        invariant 0 <= i <= |nodes| && |f.v| == n
        invariant f.v[..i] == Loads()[..i]
      {
        f.Set(i, nodes[i].force);
        i := i + 1;
      }
      assert f.v == f.v[..i];
    }

    // -------------------------------------------------------------------
    // Solution

    /** The three assembly steps of solve: the force vector, the stiffness matrix, the displacements. */
    method AssembleSystem() returns (f: DVector, K: DMatrix, d: FVector)
      requires Valid()
      ensures fresh(f) && fresh(K) && fresh(d)
      ensures f.v == old(Loads()) && d.v == old(Prescribed())
      ensures K.Valid() && K.rows == |nodes| && K.cols == |nodes|
      ensures Connects(|nodes|, Elements()) && K.Entries() == Assembled(|nodes|, Elements())
    {
      f := AssembleGlobalForceVector();
      K := AssembleGlobalStiffnessMatrix();
      d := AssembleGlobalDisplacementVector();
    }

    /**
     * applyBoundaryConditions: at every free row, the prescribed columns
     * times their displacements are moved to the right-hand side; then the
     * prescribed rows and columns are removed from the matrix and the
     * prescribed entries from the right-hand side.
     */
    static method ApplyBoundaryConditions(f: DVector, K: DMatrix, d: FVector)
      requires K.Valid() && K.rows == |d.v| && K.cols == |d.v| && |f.v| == |d.v|
      modifies f, K
      ensures K.Valid() && K.rows == |Free(d.v)| && K.cols == |Free(d.v)|
      ensures K.Entries() == FreeStiffness(old(K.Entries()), d.v)
      ensures f.v == FreeLoads(old(K.Entries()), old(f.v), d.v)
    {
      ghost var K0 := K.Entries();
      ghost var f0 := f.v;
      ghost var g := MovedLoads(K0, f0, d.v);
      var i := 0;
      while i < d.Size()
        invariant 0 <= i <= |d.v| && |f.v| == |d.v|
        invariant K.Valid() && K.rows == |d.v| && K.cols == |d.v| && K.Entries() == K0
        invariant forall k :: 0 <= k < |d.v| ==> f.v[k] == if k < i then g[k] else f0[k]
      {
        if !d.Get(i).IsDefined() {
          MoveKnownColumns(f, K, d, i);
        }
        i := i + 1;
      }
      K.DeleteRowsAndColumns(DefinedAt(d.v));
      f.DeleteElements(DefinedAt(d.v));
    }

    /**
     * solve: assemble, keep a copy of the stiffness matrix, reduce by the
     * boundary conditions, eliminate, merge the free displacements into the
     * prescribed ones and compute the nodal forces K u. A zero pivot is an
     * error. At least one node must be free.
     */
    method Solve() returns (out: Outcome<FemError>)
      requires Valid() && CountDefined(Prescribed()) < |nodes|
      modifies this`globalForceVector, this`globalStiffnessMatrix, this`globalDisplacementVector
      ensures Valid() && Connects(|nodes|, Elements())
      ensures globalStiffnessMatrix != null && fresh(globalStiffnessMatrix) && globalStiffnessMatrix.Valid() &&
        globalStiffnessMatrix.Entries() == Assembled(|nodes|, Elements())
      ensures var r := SolveModel(Assembled(|nodes|, Elements()), old(Loads()), old(Prescribed()));
        (out.Pass? <==> r.Success?) &&
        (out.Fail? ==> (out.error == Singular(r.error) &&
          globalForceVector == old(globalForceVector) && globalDisplacementVector == old(globalDisplacementVector)))
      ensures var r := SolveModel(Assembled(|nodes|, Elements()), old(Loads()), old(Prescribed()));
        out.Pass? ==> (Solved() && fresh(globalDisplacementVector) && fresh(globalForceVector) &&
          globalDisplacementVector.v == r.value &&
          globalForceVector.v == MatVec(Assembled(|nodes|, Elements()), globalDisplacementVector.v))
    {
      ElementsConnect();
      ghost var K0 := Assembled(|nodes|, Elements());
      ghost var r0 := SolveModel(K0, Loads(), Prescribed());
      var stored, res := ComputeSolution(K0, r0);
      StoreSolution(stored, res, K0, r0);
      out := if res.Failure? then Fail(Singular(res.error)) else Pass;
    }

    /**
     * The computation of solve, before its results are stored: the full
     * stiffness matrix K0 and, unless a pivot is zero, the displacements
     * and the nodal forces. K0 and r0 name the assembled matrix and the
     * expected outcome.
     */
    method ComputeSolution(ghost K0: Matrix, ghost r0: Result<seq<real>, nat>)
        returns (stored: DMatrix, res: Result<(DVector, DVector), nat>)
      requires Valid() && CountDefined(Prescribed()) < |nodes|
      requires Connects(|nodes|, Elements()) && K0 == Assembled(|nodes|, Elements())
      requires r0 == SolveModel(K0, Loads(), Prescribed())
      ensures nodes == old(nodes) && springs == old(springs)
      ensures fresh(stored) && stored.Valid() && stored.rows == |nodes| && stored.cols == |nodes|
      ensures stored.Entries() == K0
      ensures res.Failure? <==> r0.Failure?
      ensures res.Failure? ==> res.error == r0.error
      ensures res.Success? ==> (fresh(res.value.0) && fresh(res.value.1) &&
        res.value.0.v == r0.value && res.value.1.v == MatVec(K0, res.value.0.v))
    {
      ghost var f0, d0 := Loads(), Prescribed();
      var f, K, d := AssembleSystem();
      assert K.Entries() == K0 && f.v == f0 && d.v == d0;
      stored, res := SolveSystem(f, K, d, K0, f0, d0, r0);
    }

    /**
     * The stores at the end of solve: the stiffness matrix always, the two
     * vectors after a success.
     */
    method StoreSolution(stored: DMatrix, res: Result<(DVector, DVector), nat>,
        ghost K0: Matrix, ghost r0: Result<seq<real>, nat>)
      requires Valid() && stored.Valid() && stored.rows == |nodes| && stored.cols == |nodes| && stored.Entries() == K0
      requires res.Failure? <==> r0.Failure?
      requires res.Success? ==> (r0.Success? && res.value.0.v == r0.value && |r0.value| == |nodes| &&
        res.value.1.v == MatVec(K0, res.value.0.v) && |res.value.1.v| == |nodes|)
      modifies this`globalForceVector, this`globalStiffnessMatrix, this`globalDisplacementVector
      ensures Valid() && globalStiffnessMatrix == stored && nodes == old(nodes) && springs == old(springs)
      ensures stored.Valid() && stored.Entries() == K0
      ensures res.Failure? ==> (globalForceVector == old(globalForceVector) &&
        globalDisplacementVector == old(globalDisplacementVector))
      ensures res.Success? ==> (Solved() && globalDisplacementVector == res.value.0 && globalForceVector == res.value.1 &&
        globalDisplacementVector.v == r0.value && globalForceVector.v == MatVec(K0, globalDisplacementVector.v))
    {
      globalStiffnessMatrix := stored;
      if res.Success? {
        globalDisplacementVector := res.value.0;
        globalForceVector := res.value.1;
      }
    }

    // -------------------------------------------------------------------
    // Results

    /** getGlobalStiffnessMatrix: the stored (unreduced) stiffness matrix. */
    function GetGlobalStiffnessMatrix(): (K: Matrix)
      reads this, globalForceVector, globalStiffnessMatrix, globalDisplacementVector
      requires Solved()
      ensures IsMatrix(K, |nodes|, |nodes|) && K == globalStiffnessMatrix.Entries()
    {
      globalStiffnessMatrix.Entries()
    }

    /** getGlobalDisplacementVector: the displacement of every node. */
    function GetGlobalDisplacementVector(): (u: seq<real>)
      reads this, globalForceVector, globalStiffnessMatrix, globalDisplacementVector
      requires Solved()
      ensures |u| == |nodes| && u == globalDisplacementVector.v
    {
      globalDisplacementVector.v
    }

    /** getGlobalForceVector: the nodal force of every node. */
    function GetGlobalForceVector(): (f: seq<real>)
      reads this, globalForceVector, globalStiffnessMatrix, globalDisplacementVector
      requires Solved()
      ensures |f| == |nodes| && f == globalForceVector.v
    {
      globalForceVector.v
    }

    /**
     * getGlobalDisplacement, corrected: the displacement of the node with
     * that id; an unknown id is an error, as in getNodeByID.
     */
    function GetGlobalDisplacement(nodeID: int): (r: Result<real, FemError>)
      reads this, globalForceVector, globalStiffnessMatrix, globalDisplacementVector
      requires Valid() && Solved()
      ensures r.Failure? <==> nodeID !in nodeIndexOf
      ensures r.Failure? ==> r.error == UnknownNode(nodeID)
      ensures r.Success? ==> exists i :: (0 <= i < |nodes| && nodes[i].id == nodeID &&
        r.value == globalDisplacementVector.v[i])
    {
      if nodeID !in nodeIndexOf then Failure(UnknownNode(nodeID))
      else
        assert NodeIds()[nodeIndexOf[nodeID]] == nodeID;
        Success(globalDisplacementVector.v[nodeIndexOf[nodeID]])
    }

    /**
     * getGlobalForce, corrected: the nodal force of the node with that id;
     * an unknown id is an error, as in getNodeByID.
     */
    function GetGlobalForce(nodeID: int): (r: Result<real, FemError>)
      reads this, globalForceVector, globalStiffnessMatrix, globalDisplacementVector
      requires Valid() && Solved()
      ensures r.Failure? <==> nodeID !in nodeIndexOf
      ensures r.Failure? ==> r.error == UnknownNode(nodeID)
      ensures r.Success? ==> exists i :: (0 <= i < |nodes| && nodes[i].id == nodeID &&
        r.value == globalForceVector.v[i])
    {
      if nodeID !in nodeIndexOf then Failure(UnknownNode(nodeID))
      else
        assert NodeIds()[nodeIndexOf[nodeID]] == nodeID;
        Success(globalForceVector.v[nodeIndexOf[nodeID]])
    }

    /**
     * getGlobalDisplacement as written: the id is looked up with the map's
     * subscript operator, which inserts an unknown id with index 0.
     */
    method GetGlobalDisplacementAsWritten(nodeID: int) returns (x: real)
      requires Solved() && (nodeID in nodeIndexOf ==> nodeIndexOf[nodeID] < |nodes|)
      requires nodeID !in nodeIndexOf ==> |nodes| > 0
      modifies this`nodeIndexOf
      ensures nodeIndexOf == Subscript(old(nodeIndexOf), nodeID).0
      ensures x == globalDisplacementVector.v[Subscript(old(nodeIndexOf), nodeID).1]
    {
      var r := Subscript(nodeIndexOf, nodeID);
      nodeIndexOf := r.0;
      x := globalDisplacementVector.v[r.1];
    }

    /**
     * getGlobalForce as written: the id is looked up with the map's
     * subscript operator, which inserts an unknown id with index 0.
     */
    method GetGlobalForceAsWritten(nodeID: int) returns (x: real)
      requires Solved() && (nodeID in nodeIndexOf ==> nodeIndexOf[nodeID] < |nodes|)
      requires nodeID !in nodeIndexOf ==> |nodes| > 0
      modifies this`nodeIndexOf
      ensures nodeIndexOf == Subscript(old(nodeIndexOf), nodeID).0
      ensures x == globalForceVector.v[Subscript(old(nodeIndexOf), nodeID).1]
    {
      var r := Subscript(nodeIndexOf, nodeID);
      nodeIndexOf := r.0;
      x := globalForceVector.v[r.1];
    }

    /**
     * getLocalForces: the end forces of the spring with that id, its local
     * stiffness matrix times the displacements of its two nodes. The id
     * must be known (the original dereferences the null it gets otherwise).
     */
    method GetLocalForces(springID: int) returns (forces: DVector)
      requires Valid() && Solved() && springID in springIndexOf
      ensures fresh(forces)
      ensures springs[springIndexOf[springID]].node1.index < |globalDisplacementVector.v|
      ensures springs[springIndexOf[springID]].node2.index < |globalDisplacementVector.v|
      ensures var s := springs[springIndexOf[springID]];
        var u := globalDisplacementVector.v;
        forces.v == MatVec(LocalStiffness(s.k), [u[s.node1.index], u[s.node2.index]])
    {
      var spring := GetSpringByID(springID).value;
      var node1 := spring.node1.index;
      var node2 := spring.node2.index;
      var displacements := globalDisplacementVector;
      var displacements2 := new DVector.FromValues([displacements.Get(node1), displacements.Get(node2)]);
      var stiffnessMatrix := spring.StiffnessMatrix();
      forces := stiffnessMatrix.Multiply(displacements2);
    }
  }

  /** The prescribed displacement of every node of ns, in order. */
  ghost function DisplacementsOf(ns: seq<Node>): (d: seq<FDouble>)
    reads ns
    ensures |d| == |ns|
    ensures forall i :: 0 <= i < |ns| ==> d[i] == ns[i].displacement
    decreases |ns|
  {
    if |ns| == 0 then [] else DisplacementsOf(ns[..|ns| - 1]) + [ns[|ns| - 1].displacement]
  }

  /** The applied force of every node of ns, in order. */
  ghost function ForcesOf(ns: seq<Node>): (f: seq<real>)
    reads ns
    ensures |f| == |ns|
    ensures forall i :: 0 <= i < |ns| ==> f[i] == ns[i].force
    decreases |ns|
  {
    if |ns| == 0 then [] else ForcesOf(ns[..|ns| - 1]) + [ns[|ns| - 1].force]
  }

  /** Springs as the assembly sees them: end node indices and constant. */
  ghost function ElementsOf(ss: seq<Spring>): (els: seq<Element>)
    ensures |els| == |ss|
  {
    seq(|ss|, s requires 0 <= s < |ss| => Element(ss[s].node1.index, ss[s].node2.index, ss[s].k))
  }

  /**
   * The loop of assembleGlobalStiffnessMatrix: the n x n zero matrix, then
   * every spring's local matrix added at its nodes' positions, in order.
   */
  method AssembleSprings(n: nat, ss: seq<Spring>) returns (K: DMatrix)
    requires Connects(n, ElementsOf(ss))
    ensures fresh(K) && K.Valid() && K.rows == n && K.cols == n
    ensures K.Entries() == Assembled(n, ElementsOf(ss))
  {
    ghost var els := ElementsOf(ss);
    K := new DMatrix.Zero(n, n);
    var s := 0;
    while s < |ss|
      invariant 0 <= s <= |ss|
      invariant fresh(K) && K.Valid() && K.rows == n && K.cols == n
      invariant K.Entries() == Assembled(n, els[..s])
    {
      var spring := ss[s];
      var gOffset := [spring.node1.index, spring.node2.index];
      var m := spring.StiffnessMatrix();
      assert els[s] == Element(spring.node1.index, spring.node2.index, spring.k);
      AddLocalMatrix(K, n, gOffset, m, spring.k);
      assert els[..s + 1][..s] == els[..s];
      s := s + 1;
    }
    assert els[..s] == els;
  }

  /**
   * The double loop of the assembly for one spring: every entry of its
   * local matrix m, in row-major order, added at (g[i], g[j]).
   */
  method AddLocalMatrix(K: DMatrix, n: nat, g: seq<nat>, m: DMatrix, ghost k: real)
    requires K.Valid() && K.rows == n && K.cols == n && |g| == 2 && g[0] < n && g[1] < n
    requires m.Valid() && m.rows == 2 && m.cols == 2 && m.Entries() == LocalStiffness(k) && m != K
    modifies K
    ensures K.Valid() && K.rows == n && K.cols == n
    ensures K.Entries() == AddElement(old(K.Entries()), n, Element(g[0], g[1], k))
  {
    ghost var K0 := K.Entries();
    var i := 0;
    while i < 2
      invariant 0 <= i <= 2 && K.Valid() && K.rows == n && K.cols == n
      invariant K.Entries() == Scatter(K0, n, g, LocalStiffness(k), i, 0)
    {
      AddLocalRow(K, n, g, m, k, i, K0);
      i := i + 1;
    }
  }

  /** One row of the local matrix: the inner loop of the assembly. */
  method AddLocalRow(K: DMatrix, n: nat, g: seq<nat>, m: DMatrix, ghost k: real, i: nat, ghost K0: Matrix)
    requires K.Valid() && K.rows == n && K.cols == n && |g| == 2 && g[0] < n && g[1] < n && i < 2
    requires m.Valid() && m.rows == 2 && m.cols == 2 && m.Entries() == LocalStiffness(k) && m != K
    requires IsMatrix(K0, n, n) && K.Entries() == Scatter(K0, n, g, LocalStiffness(k), i, 0)
    modifies K
    ensures K.Valid() && K.rows == n && K.cols == n
    ensures K.Entries() == Scatter(K0, n, g, LocalStiffness(k), i, 2)
  {
    var j := 0;
    while j < 2
      invariant 0 <= j <= 2 && K.Valid() && K.rows == n && K.cols == n
      invariant K.Entries() == Scatter(K0, n, g, LocalStiffness(k), i, j)
    {
      var value := m.At(i, j);
      K.Set(g[i], g[j], K.At(g[i], g[j]) + value);
      j := j + 1;
    }
  }

  /**
   * The inner loop of applyBoundaryConditions for the free row i: every
   * prescribed column's entry times its displacement is subtracted from
   * f(i) in place.
   */
  method MoveKnownColumns(f: DVector, K: DMatrix, d: FVector, i: nat)
    requires K.Valid() && K.rows == |d.v| && K.cols == |d.v| && |f.v| == |d.v| && i < |d.v|
    modifies f
    ensures f.v == old(f.v)[i := old(f.v)[i] - Dot(K.Entries()[i], Known(d.v))]
  {
    ghost var row := K.Entries()[i];
    ghost var w := Known(d.v);
    ghost var f0 := f.v;
    var j := 0;
    while j < d.Size()
      invariant 0 <= j <= |d.v|
      invariant f.v == f0[i := f0[i] - Dot(row[..j], w[..j])]
    {
      DotLast(row, w, j + 1);
      if d.Get(j).IsDefined() {
        f.Set(i, f.Get(i) - Prod(K.At(i, j), d.Get(j).GetValue()));
      } else {
        assert Prod(row[j], w[j]) == 0.0;
      }
      j := j + 1;
    }
    assert row[..j] == row && w[..j] == w;
  }

  /**
   * solve after the assembly: keep a copy of the full stiffness matrix,
   * solve the reduced system, and compute the nodal forces as the stored
   * matrix times the full displacements. Returns the copy and, unless a
   * pivot was zero, the displacements and the forces.
   */
  method SolveSystem(f: DVector, K: DMatrix, d: FVector,
      ghost K0: Matrix, ghost f0: seq<real>, ghost d0: seq<FDouble>, ghost r0: Result<seq<real>, nat>)
      returns (stored: DMatrix, res: Result<(DVector, DVector), nat>)
    requires K.Valid() && K.rows == |d.v| && K.cols == |d.v| && |f.v| == |d.v| && CountDefined(d.v) < |d.v|
    requires K0 == K.Entries() && f0 == f.v && d0 == d.v && r0 == SolveModel(K0, f0, d0)
    modifies f, K
    ensures fresh(stored) && stored.Valid() && stored.rows == |d.v| && stored.cols == |d.v|
    ensures stored.Entries() == K0
    ensures res.Failure? <==> r0.Failure?
    ensures res.Failure? ==> res.error == r0.error
    ensures res.Success? ==> (fresh(res.value.0) && fresh(res.value.1) &&
      res.value.0.v == r0.value && res.value.1.v == MatVec(K0, res.value.0.v))
  {
    stored := new DMatrix.Copy(K);
    var x := SolveAssembled(f, K, d);
    if x.Failure? {
      return stored, Failure(x.error);
    }
    var u := new DVector.Copy(x.value);
    var F := stored.Multiply(u);
    var forces := new DVector.Copy(F);
    res := Success((u, forces));
  }

  /**
   * The part of solve after the assembly: reduce the system by the
   * boundary conditions, eliminate, and merge the free displacements into
   * the prescribed ones.
   */
  method SolveAssembled(f: DVector, K: DMatrix, d: FVector) returns (res: Result<DVector, nat>)
    requires K.Valid() && K.rows == |d.v| && K.cols == |d.v| && |f.v| == |d.v| && CountDefined(d.v) < |d.v|
    modifies f, K
    ensures res.Failure? <==> SolveModel(old(K.Entries()), old(f.v), d.v).Failure?
    ensures res.Failure? ==> res.error == SolveModel(old(K.Entries()), old(f.v), d.v).error
    ensures res.Success? ==> fresh(res.value) && res.value.v == SolveModel(old(K.Entries()), old(f.v), d.v).value
  {
    FreeSlotCount(d.v);
    FEM.ApplyBoundaryConditions(f, K, d);
    var x := K.GaussianElimination(f);
    if x.Failure? {
      return Failure(x.error);
    }
    var u := d.SetUndefinedElements(x.value);
    return Success(u);
  }
}
