/**
 * The mathematics behind the FEM orchestrator (src/FEM.cpp): the global
 * stiffness matrix assembled from the springs, the reduction of the system
 * by the prescribed displacements, and the full solution that the solver
 * reports. The methods of class FEM are proved against these functions.
 */
module FemModel {
  import opened Wrappers
  import opened LinearAlgebra
  import opened Indexing
  import opened FDoubles
  import opened FVectors
  import opened Elimination
  import opened Springs

  /** A spring as the assembly sees it: the indices of its end nodes and its constant. */
  datatype Element = Element(n1: nat, n2: nat, k: real)

  /** Every element connects nodes below n. */
  ghost predicate Connects(n: nat, els: seq<Element>) {
    forall e :: 0 <= e < |els| ==> els[e].n1 < n && els[e].n2 < n
  }

  /**
   * K with the local entries L[i'][j'] for the local positions before
   * (i, j) in row-major order added at the global positions (g[i'], g[j']):
   * the state of the assembly's double loop over the local matrix.
   */
  function Scatter(K: Matrix, n: nat, g: seq<nat>, L: Matrix, i: nat, j: nat): (K': Matrix)
    requires IsMatrix(K, n, n) && IsMatrix(L, 2, 2) && |g| == 2 && g[0] < n && g[1] < n
    requires (i < 2 && j <= 2) || (i == 2 && j == 0)
    ensures IsMatrix(K', n, n)
    decreases i, j
  {
    if j == 0 then
      if i == 0 then K else Scatter(K, n, g, L, i - 1, 2)
    else
      AddAt(Scatter(K, n, g, L, i, j - 1), g[i], g[j - 1], L[i][j - 1])
  }

  /** K after adding one spring's local stiffness matrix at its nodes. */
  function AddElement(K: Matrix, n: nat, e: Element): (K': Matrix)
    requires IsMatrix(K, n, n) && e.n1 < n && e.n2 < n
    ensures IsMatrix(K', n, n)
  {
    Scatter(K, n, [e.n1, e.n2], LocalStiffness(e.k), 2, 0)
  }

  /** The global stiffness matrix: the zero matrix plus every spring, in order. */
  function Assembled(n: nat, els: seq<Element>): (K: Matrix)
    requires Connects(n, els)
    ensures IsMatrix(K, n, n)
    decreases |els|
  {
    if |els| == 0 then ZeroMatrix(n, n)
    else AddElement(Assembled(n, els[..|els| - 1]), n, els[|els| - 1])
  }

  /** What one spring adds at the global position (r, c). */
  function Contribution(e: Element, r: nat, c: nat): real {
    (if r == e.n1 && c == e.n1 then e.k else 0.0) +
    (if r == e.n1 && c == e.n2 then -e.k else 0.0) +
    (if r == e.n2 && c == e.n1 then -e.k else 0.0) +
    (if r == e.n2 && c == e.n2 then e.k else 0.0)
  }

  /** The sum of the contributions of all springs at (r, c). */
  function TotalContribution(els: seq<Element>, r: nat, c: nat): real
    decreases |els|
  {
    if |els| == 0 then 0.0
    else TotalContribution(els[..|els| - 1], r, c) + Contribution(els[|els| - 1], r, c)
  }

  /** The four additions of AddElement, written out. */
  lemma AddElementUnfold(K: Matrix, n: nat, e: Element)
    requires IsMatrix(K, n, n) && e.n1 < n && e.n2 < n
    ensures AddElement(K, n, e) ==
      AddAt(AddAt(AddAt(AddAt(K, e.n1, e.n1, e.k), e.n1, e.n2, -e.k), e.n2, e.n1, -e.k), e.n2, e.n2, e.k)
  {
    var g := [e.n1, e.n2];
    var L := LocalStiffness(e.k);
    var K1 := AddAt(K, e.n1, e.n1, e.k);
    var K2 := AddAt(K1, e.n1, e.n2, -e.k);
    var K3 := AddAt(K2, e.n2, e.n1, -e.k);
    assert Scatter(K, n, g, L, 0, 1) == K1;
    assert Scatter(K, n, g, L, 1, 0) == K2;
    assert Scatter(K, n, g, L, 1, 1) == K3;
  }

  /** Adding a spring adds its contribution to every entry. */
  lemma AddElementEntry(K: Matrix, n: nat, e: Element, r: nat, c: nat)
    requires IsMatrix(K, n, n) && e.n1 < n && e.n2 < n && r < n && c < n
    ensures AddElement(K, n, e)[r][c] == K[r][c] + Contribution(e, r, c)
  {
    AddElementUnfold(K, n, e);
    var K1 := AddAt(K, e.n1, e.n1, e.k);
    var K2 := AddAt(K1, e.n1, e.n2, -e.k);
    var K3 := AddAt(K2, e.n2, e.n1, -e.k);
    AddAtEntry(K, e.n1, e.n1, e.k, r, c);
    AddAtEntry(K1, e.n1, e.n2, -e.k, r, c);
    AddAtEntry(K2, e.n2, e.n1, -e.k, r, c);
    AddAtEntry(K3, e.n2, e.n2, e.k, r, c);
  }

  /** Adding a spring leaves every row sum unchanged. */
  lemma AddElementRowSum(K: Matrix, n: nat, e: Element, r: nat)
    requires IsMatrix(K, n, n) && e.n1 < n && e.n2 < n && r < n
    ensures Sum(AddElement(K, n, e)[r]) == Sum(K[r])
  {
    AddElementUnfold(K, n, e);
    var K1 := AddAt(K, e.n1, e.n1, e.k);
    var K2 := AddAt(K1, e.n1, e.n2, -e.k);
    var K3 := AddAt(K2, e.n2, e.n1, -e.k);
    AddAtRowSum(K, e.n1, e.n1, e.k, r);
    AddAtRowSum(K1, e.n1, e.n2, -e.k, r);
    AddAtRowSum(K2, e.n2, e.n1, -e.k, r);
    AddAtRowSum(K3, e.n2, e.n2, e.k, r);
  }

  /**
   * The closed form of the assembly: entry (r, c) of the global stiffness
   * matrix is the sum over the springs of what each adds there.
   */
  lemma {:induction false} AssembledEntry(n: nat, els: seq<Element>, r: nat, c: nat)
    requires Connects(n, els) && r < n && c < n
    ensures Assembled(n, els)[r][c] == TotalContribution(els, r, c)
    decreases |els|
  {
    if |els| > 0 {
      var m := |els| - 1;
      AssembledEntry(n, els[..m], r, c);
      AddElementEntry(Assembled(n, els[..m]), n, els[m], r, c);
    }
  }

  /** The global stiffness matrix is symmetric. */
  lemma AssembledSymmetric(n: nat, els: seq<Element>)
    requires Connects(n, els)
    ensures Symmetric(Assembled(n, els))
  {
    forall r, c | 0 <= r < n && 0 <= c < n
      ensures Assembled(n, els)[r][c] == Assembled(n, els)[c][r]
    {
      AssembledEntry(n, els, r, c);
      AssembledEntry(n, els, c, r);
      TotalContributionSymmetric(els, r, c);
    }
  }

  lemma {:induction false} TotalContributionSymmetric(els: seq<Element>, r: nat, c: nat)
    ensures TotalContribution(els, r, c) == TotalContribution(els, c, r)
    decreases |els|
  {
    if |els| > 0 {
      TotalContributionSymmetric(els[..|els| - 1], r, c);
    }
  }

  /** Every row of the global stiffness matrix sums to 0. */
  lemma {:induction false} AssembledRowSums(n: nat, els: seq<Element>, r: nat)
    requires Connects(n, els) && r < n
    ensures Sum(Assembled(n, els)[r]) == 0.0
    decreases |els|
  {
    if |els| == 0 {
      SumZeros(ZeroMatrix(n, n)[r]);
    } else {
      var m := |els| - 1;
      AssembledRowSums(n, els[..m], r);
      AddElementRowSum(Assembled(n, els[..m]), n, els[m], r);
    }
  }

  /** A rigid translation of all nodes produces no nodal forces. */
  lemma RigidTranslation(n: nat, els: seq<Element>, u: seq<real>, x: real)
    requires Connects(n, els) && |u| == n
    requires forall i :: 0 <= i < n ==> u[i] == x
    ensures forall i :: 0 <= i < n ==> MatVec(Assembled(n, els), u)[i] == 0.0
  {
    var K := Assembled(n, els);
    forall i | 0 <= i < n
      ensures MatVec(K, u)[i] == 0.0
    {
      AssembledRowSums(n, els, i);
      DotConstant(K[i], u, x);
    }
  }

  // ---------------------------------------------------------------------
  // Boundary conditions

  /** The free (unconstrained) node indices, in increasing order. */
  function Free(d: seq<FDouble>): (s: seq<nat>)
    ensures forall a :: 0 <= a < |s| ==> s[a] < |d| && !d[s[a]].defined
  {
    Survivors(|d|, DefinedAt(d))
  }

  /** The prescribed displacements, with 0 at the free nodes. */
  function Known(d: seq<FDouble>): (w: seq<real>)
    ensures |w| == |d|
  {
    seq(|d|, j requires 0 <= j < |d| => if d[j].defined then d[j].value else 0.0)
  }

  /**
   * The loads after the boundary conditions: at a free node the applied
   * force minus what the prescribed displacements contribute to its row.
   */
  function MovedLoads(K: Matrix, f: seq<real>, d: seq<FDouble>): (g: seq<real>)
    requires IsMatrix(K, |d|, |d|) && |f| == |d|
    ensures |g| == |d|
  {
    seq(|d|, i requires 0 <= i < |d| => if d[i].defined then f[i] else f[i] - Dot(K[i], Known(d)))
  }

  /** The stiffness matrix of the free nodes. */
  function FreeStiffness(K: Matrix, d: seq<FDouble>): (A: Matrix)
    requires IsMatrix(K, |d|, |d|)
    ensures IsMatrix(A, |Free(d)|, |Free(d)|)
  {
    Submatrix(K, Free(d), Free(d))
  }

  /** The right-hand side of the free nodes. */
  function FreeLoads(K: Matrix, f: seq<real>, d: seq<FDouble>): (b: seq<real>)
    requires IsMatrix(K, |d|, |d|) && |f| == |d|
    ensures |b| == |Free(d)|
  {
    Pick(MovedLoads(K, f, d), Free(d))
  }

  /**
   * The physical meaning of a solution: u carries every prescribed
   * displacement, and at every free node the internal force K u balances
   * the applied force.
   */
  ghost predicate Equilibrium(K: Matrix, f: seq<real>, d: seq<FDouble>, u: seq<real>)
    requires IsMatrix(K, |d|, |d|) && |f| == |d|
  {
    |u| == |d| &&
    (forall i :: 0 <= i < |d| && d[i].defined ==> u[i] == d[i].value) &&
    (forall i :: 0 <= i < |d| && !d[i].defined ==> Dot(K[i], u) == f[i])
  }

  /**
   * What solve computes: eliminate the free system, then merge its
   * solution into the prescribed displacements. A failure names the
   * elimination step whose pivot was zero. At least one node must be free.
   */
  function SolveModel(K: Matrix, f: seq<real>, d: seq<FDouble>): (r: Result<seq<real>, nat>)
    requires IsMatrix(K, |d|, |d|) && |f| == |d| && CountDefined(d) < |d|
    ensures r.Success? ==> |r.value| == |d|
  {
    FreeSlotCount(d);
    match Solve(FreeStiffness(K, d), FreeLoads(K, f, d), |Free(d)|)
    case Failure(k) => Failure(k)
    case Success(x) => Success(Merge(d, x))
  }

  /**
   * A dot product against a vector that vanishes off the increasing
   * positions s only sees those positions.
   */
  lemma {:induction false} DotOverIndices(a: seq<real>, w: seq<real>, s: seq<nat>, m: nat)
    requires |a| == |w| && m <= |a|
    requires forall k :: 0 <= k < |s| ==> s[k] < m
    requires forall k, l :: 0 <= k < l < |s| ==> s[k] < s[l]
    requires forall j :: 0 <= j < m && j !in s ==> w[j] == 0.0
    ensures Dot(a[..m], w[..m]) == Dot(Pick(a, s), Pick(w, s))
    decreases m
  {
    if m > 0 {
      DotLast(a, w, m);
      if |s| > 0 && s[|s| - 1] == m - 1 {
        var s' := s[..|s| - 1];
        EarlierIndices(s, m);
        DotOverIndices(a, w, s', m - 1);
        PickedAppend(a, w, s', s, m - 1);
      } else {
        IndicesBelowLast(s, m);
        DotOverIndices(a, w, s, m - 1);
        assert Prod(a[m - 1], w[m - 1]) == 0.0;
      }
    }
  }

  /** When the last of the increasing positions s is m - 1, the earlier positions below m - 1 are all in its prefix. */
  lemma EarlierIndices(s: seq<nat>, m: nat)
    requires |s| > 0 && s[|s| - 1] == m - 1
    requires forall k, l :: 0 <= k < l < |s| ==> s[k] < s[l]
    ensures forall j :: 0 <= j < m - 1 && j in s ==> j in s[..|s| - 1]
  {
    forall j | 0 <= j < m - 1 && j in s
      ensures j in s[..|s| - 1]
    {
      var k :| 0 <= k < |s| && s[k] == j;
      assert s[..|s| - 1][k] == j;
    }
  }

  /** Increasing positions below m whose last one is not m - 1 are all below m - 1. */
  lemma IndicesBelowLast(s: seq<nat>, m: nat)
    requires m > 0 && forall k :: 0 <= k < |s| ==> s[k] < m
    requires forall k, l :: 0 <= k < l < |s| ==> s[k] < s[l]
    requires !(|s| > 0 && s[|s| - 1] == m - 1)
    ensures forall k :: 0 <= k < |s| ==> s[k] < m - 1
  {
    forall k | 0 <= k < |s|
      ensures s[k] < m - 1
    {
      if k < |s| - 1 {
        assert s[k] < s[|s| - 1];
      }
    }
  }

  /** A dot product against a vector that vanishes where p holds only sees the survivors of p. */
  lemma DotOverSurvivors(a: seq<real>, w: seq<real>, p: nat -> bool)
    requires |a| == |w|
    requires forall j :: 0 <= j < |w| && p(j) ==> w[j] == 0.0
    ensures Dot(a, w) == Dot(Pick(a, Survivors(|a|, p)), Pick(w, Survivors(|a|, p)))
  {
    var s := Survivors(|a|, p);
    SurvivorsIncreasing(|a|, p);
    forall j | 0 <= j < |a| && j !in s
      ensures w[j] == 0.0
    {
      SurvivorsMembership(|a|, p, j);
    }
    DotOverIndices(a, w, s, |a|);
    assert a[..|a|] == a && w[..|w|] == w;
  }

  /** Picking one more position extends the picked dot product by that position's product. */
  lemma PickedAppend(a: seq<real>, w: seq<real>, s: seq<nat>, t: seq<nat>, i: nat)
    requires |a| == |w| && i < |a|
    requires forall k :: 0 <= k < |t| ==> t[k] < |a|
    requires |t| == |s| + 1 && t[..|s|] == s && t[|s|] == i
    ensures Dot(Pick(a, t), Pick(w, t)) == Dot(Pick(a, s), Pick(w, s)) + Prod(a[i], w[i])
  {
    var pa, pw := Pick(a, t), Pick(w, t);
    assert pa[..|s|] == Pick(a, s) && pw[..|s|] == Pick(w, s);
    DotExtend(Pick(a, s), Pick(w, s), pa, pw);
  }

  lemma DotLast(a: seq<real>, b: seq<real>, m: nat)
    requires |a| == |b| && 0 < m <= |a|
    ensures Dot(a[..m], b[..m]) == Dot(a[..m - 1], b[..m - 1]) + Prod(a[m - 1], b[m - 1])
  {
    assert a[..m][..m - 1] == a[..m - 1] && b[..m][..m - 1] == b[..m - 1];
  }

  /** A dot product of two vectors one entry longer than a and b. */
  lemma DotExtend(a: seq<real>, b: seq<real>, a': seq<real>, b': seq<real>)
    requires |a'| == |b'| == |a| + 1 && |a| == |b|
    requires a'[..|a|] == a && b'[..|b|] == b
    ensures Dot(a', b') == Dot(a, b) + Prod(a'[|a|], b'[|b|])
  {
    assert a'[..|a'| - 1] == a && b'[..|b'| - 1] == b;
  }

  /**
   * Splitting a row's dot product at the constraints: for a u that carries
   * the prescribed displacements, the prescribed part plus the free part.
   */
  lemma SplitAtConstraints(row: seq<real>, d: seq<FDouble>, u: seq<real>)
    requires |row| == |d| == |u|
    requires forall j :: 0 <= j < |d| && d[j].defined ==> u[j] == d[j].value
    ensures Dot(row, u) == Dot(row, Known(d)) + Dot(Pick(row, Free(d)), Pick(u, Free(d)))
  {
    var w := seq(|d|, j requires 0 <= j < |d| => if d[j].defined then 0.0 else u[j]);
    DotAddRight(row, u, Known(d), w);
    DotOverSurvivors(row, w, DefinedAt(d));
    assert Pick(w, Free(d)) == Pick(u, Free(d));
  }

  /**
   * Row i of the full system and row rank(i) of the free system have the
   * same residual, for any u that carries the prescribed displacements.
   */
  lemma FreeRowResidual(K: Matrix, f: seq<real>, d: seq<FDouble>, u: seq<real>, i: nat)
    requires IsMatrix(K, |d|, |d|) && |f| == |d| == |u|
    requires forall j :: 0 <= j < |d| && d[j].defined ==> u[j] == d[j].value
    requires i < |d| && !d[i].defined
    ensures |Survivors(i, DefinedAt(d))| < |Free(d)|
    ensures Free(d)[|Survivors(i, DefinedAt(d))|] == i
    ensures Dot(K[i], u) - f[i] ==
      Dot(FreeStiffness(K, d)[|Survivors(i, DefinedAt(d))|], Pick(u, Free(d))) -
      FreeLoads(K, f, d)[|Survivors(i, DefinedAt(d))|]
  {
    var a := |Survivors(i, DefinedAt(d))|;
    SurvivorRank(|d|, DefinedAt(d), i);
    assert FreeStiffness(K, d)[a] == Pick(K[i], Free(d));
    SplitAtConstraints(K[i], d, u);
  }

  /**
   * Merging any solution of the free system into the prescribed
   * displacements gives a displacement field in equilibrium.
   */
  lemma MergeEquilibrium(K: Matrix, f: seq<real>, d: seq<FDouble>, x: seq<real>)
    requires IsMatrix(K, |d|, |d|) && |f| == |d| && |x| == |Free(d)|
    requires MatVec(FreeStiffness(K, d), x) == FreeLoads(K, f, d)
    ensures |d| == CountDefined(d) + |x|
    ensures Equilibrium(K, f, d, Merge(d, x))
  {
    FreeSlotCount(d);
    var u := Merge(d, x);
    MergeRoundTrip(d, x);
    forall i | 0 <= i < |d| && !d[i].defined
      ensures Dot(K[i], u) == f[i]
    {
      FreeRowResidual(K, f, d, u, i);
    }
  }

  /** A successful solve satisfies the boundary conditions and balances every free node. */
  lemma SolveModelSound(K: Matrix, f: seq<real>, d: seq<FDouble>)
    requires IsMatrix(K, |d|, |d|) && |f| == |d| && CountDefined(d) < |d|
    requires SolveModel(K, f, d).Success?
    ensures Equilibrium(K, f, d, SolveModel(K, f, d).value)
  {
    FreeSlotCount(d);
    SolveCorrect(FreeStiffness(K, d), FreeLoads(K, f, d), |Free(d)|);
    MergeEquilibrium(K, f, d, Solve(FreeStiffness(K, d), FreeLoads(K, f, d), |Free(d)|).value);
  }

  /**
   * A failed solve means the stiffness matrix of the free nodes is
   * singular: some nonzero free displacement produces no force at all.
   */
  lemma SolveModelFailureSingular(K: Matrix, f: seq<real>, d: seq<FDouble>) returns (y: seq<real>)
    requires IsMatrix(K, |d|, |d|) && |f| == |d| && CountDefined(d) < |d|
    requires SolveModel(K, f, d).Failure?
    ensures |y| == |Free(d)| && y != Zeros(|Free(d)|)
    ensures MatVec(FreeStiffness(K, d), y) == Zeros(|Free(d)|)
  {
    FreeSlotCount(d);
    y := SolveFailureNull(FreeStiffness(K, d), FreeLoads(K, f, d), |Free(d)|);
  }

  /**
   * After a failed solve no displacement field is the unique equilibrium:
   * any field in equilibrium has a different one beside it.
   */
  lemma SolveModelFailureNotUnique(K: Matrix, f: seq<real>, d: seq<FDouble>, u: seq<real>)
    returns (w: seq<real>)
    requires IsMatrix(K, |d|, |d|) && |f| == |d| && CountDefined(d) < |d|
    requires SolveModel(K, f, d).Failure? && Equilibrium(K, f, d, u)
    ensures w != u && Equilibrium(K, f, d, w)
  {
    var y := SolveModelFailureSingular(K, f, d);
    EquilibriumSolvesFree(K, f, d, u);
    var z := AddNullVector(FreeStiffness(K, d), FreeLoads(K, f, d), |Free(d)|, Pick(u, Free(d)), y);
    MergeEquilibrium(K, f, d, z);
    w := Merge(d, z);
    MergeRoundTrip(d, z);
  }

  /** A displacement field in equilibrium restricts to a solution of the free system. */
  lemma EquilibriumSolvesFree(K: Matrix, f: seq<real>, d: seq<FDouble>, u: seq<real>)
    requires IsMatrix(K, |d|, |d|) && |f| == |d| && Equilibrium(K, f, d, u)
    ensures MatVec(FreeStiffness(K, d), Pick(u, Free(d))) == FreeLoads(K, f, d)
  {
    var A := FreeStiffness(K, d);
    var b := FreeLoads(K, f, d);
    var y := Pick(u, Free(d));
    forall a | 0 <= a < |Free(d)|
      ensures MatVec(A, y)[a] == b[a]
    {
      RankOfSurvivor(|d|, DefinedAt(d), a);
      FreeRowResidual(K, f, d, u, Free(d)[a]);
    }
  }

  /** A successful solve is the only displacement field in equilibrium. */
  lemma SolveModelUnique(K: Matrix, f: seq<real>, d: seq<FDouble>, u: seq<real>)
    requires IsMatrix(K, |d|, |d|) && |f| == |d| && CountDefined(d) < |d|
    requires SolveModel(K, f, d).Success? && Equilibrium(K, f, d, u)
    ensures u == SolveModel(K, f, d).value
  {
    FreeSlotCount(d);
    EquilibriumSolvesFree(K, f, d, u);
    SolveUnique(FreeStiffness(K, d), FreeLoads(K, f, d), |Free(d)|, Pick(u, Free(d)));
    MergePick(d, u);
  }

  /**
   * Without any prescribed displacement the model can move as a rigid
   * body, so no solve succeeds: the free system is always singular.
   */
  lemma FreeFloatingRejected(n: nat, els: seq<Element>, f: seq<real>, d: seq<FDouble>)
    requires Connects(n, els) && |f| == n == |d| && n >= 1
    requires forall i :: 0 <= i < n ==> !d[i].defined
    ensures CountDefined(d) == 0 && SolveModel(Assembled(n, els), f, d).Failure?
  {
    NoneDefined(d);
    var K := Assembled(n, els);
    if SolveModel(K, f, d).Success? {
      var u := SolveModel(K, f, d).value;
      SolveModelSound(K, f, d);
      var v := Shifted(n, els, f, d, u);
      SolveModelUnique(K, f, d, v);
      assert false;
    }
  }

  /** Shifting an unconstrained equilibrium by a rigid translation keeps it in equilibrium. */
  lemma Shifted(n: nat, els: seq<Element>, f: seq<real>, d: seq<FDouble>, u: seq<real>)
    returns (v: seq<real>)
    requires Connects(n, els) && |f| == n == |d|
    requires forall i :: 0 <= i < n ==> !d[i].defined
    requires Equilibrium(Assembled(n, els), f, d, u)
    ensures |v| == n && forall i :: 0 <= i < n ==> v[i] == u[i] + 1.0
    ensures Equilibrium(Assembled(n, els), f, d, v)
  {
    var K := Assembled(n, els);
    var ones := seq(n, _ => 1.0);
    v := seq(n, i requires 0 <= i < n => u[i] + 1.0);
    forall i | 0 <= i < n
      ensures Dot(K[i], v) == f[i]
    {
      ShiftedRow(n, els, u, v, i);
    }
  }

  /** Row i of the stiffness matrix does not see a rigid translation. */
  lemma ShiftedRow(n: nat, els: seq<Element>, u: seq<real>, v: seq<real>, i: nat)
    requires Connects(n, els) && |u| == n == |v| && i < n
    requires forall j :: 0 <= j < n ==> v[j] == u[j] + 1.0
    ensures Dot(Assembled(n, els)[i], v) == Dot(Assembled(n, els)[i], u)
  {
    var K := Assembled(n, els);
    var ones := seq(n, _ => 1.0);
    DotAddRight(K[i], v, u, ones);
    AssembledRowSums(n, els, i);
    DotConstant(K[i], ones, 1.0);
  }
}
