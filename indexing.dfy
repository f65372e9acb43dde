/**
 * Index bookkeeping shared by the order-preserving deletions
 * (DVector.deleteElements, DMatrix.deleteRowsAndColumns) and the
 * partial-vector merge (FVector.setUndefinedElements).
 */
module Indexing {

  /** The indices below `n` that `p` does not reject, in increasing order. */
  function Survivors(n: nat, p: nat -> bool): (r: seq<nat>)
    ensures |r| <= n
    ensures forall k :: 0 <= k < |r| ==> r[k] < n && !p(r[k])
    decreases n
  {
    if n == 0 then [] else Survivors(n - 1, p) + (if p(n - 1) then [] else [n - 1])
  }

  /** The entries of `s` at the positions `idx`, in the order of `idx`. */
  function Pick<T>(s: seq<T>, idx: seq<nat>): (r: seq<T>)
    requires forall k :: 0 <= k < |idx| ==> idx[k] < |s|
    ensures |r| == |idx|
    ensures forall k :: 0 <= k < |idx| ==> r[k] == s[idx[k]]
  {
    seq(|idx|, k requires 0 <= k < |idx| => s[idx[k]])
  }

  /** An index survives exactly when it is in range and not rejected. */
  lemma {:induction false} SurvivorsMembership(n: nat, p: nat -> bool, i: nat)
    ensures i in Survivors(n, p) <==> i < n && !p(i)
    decreases n
  {
    if n > 0 {
      SurvivorsMembership(n - 1, p, i);
    }
  }

  /** The survivors below m are those below m - 1, then m - 1 unless it is rejected. */
  lemma SurvivorsLast(m: nat, p: nat -> bool)
    requires m > 0
    ensures p(m - 1) ==> Survivors(m, p) == Survivors(m - 1, p)
    ensures !p(m - 1) ==> |Survivors(m, p)| == |Survivors(m - 1, p)| + 1
    ensures !p(m - 1) ==> Survivors(m, p)[..|Survivors(m - 1, p)|] == Survivors(m - 1, p)
    ensures !p(m - 1) ==> Survivors(m, p)[|Survivors(m - 1, p)|] == m - 1
  {
    if p(m - 1) {
      assert Survivors(m - 1, p) + [] == Survivors(m - 1, p);
    } else {
      assert (Survivors(m - 1, p) + [m - 1])[..|Survivors(m - 1, p)|] == Survivors(m - 1, p);
    }
  }

  /** Survivors come in strictly increasing order. */
  lemma {:induction false} SurvivorsIncreasing(n: nat, p: nat -> bool)
    ensures forall a, b :: 0 <= a < b < |Survivors(n, p)| ==> Survivors(n, p)[a] < Survivors(n, p)[b]
    decreases n
  {
    if n > 0 {
      SurvivorsIncreasing(n - 1, p);
    }
  }

  /** The survivors below `m <= n` are a prefix of the survivors below `n`. */
  lemma {:induction false} SurvivorsPrefix(m: nat, n: nat, p: nat -> bool)
    requires m <= n
    ensures |Survivors(m, p)| <= |Survivors(n, p)|
    ensures Survivors(m, p) == Survivors(n, p)[..|Survivors(m, p)|]
    decreases n
  {
    if m < n {
      SurvivorsPrefix(m, n - 1, p);
    }
  }

  /** A surviving index `i` is the survivor whose rank is the number of survivors below `i`. */
  lemma SurvivorRank(n: nat, p: nat -> bool, i: nat)
    requires i < n && !p(i)
    ensures |Survivors(i, p)| < |Survivors(n, p)|
    ensures Survivors(n, p)[|Survivors(i, p)|] == i
  {
    SurvivorsPrefix(i + 1, n, p);
    assert Survivors(i + 1, p) == Survivors(i, p) + [i];
  }

  /** The k-th survivor has exactly k survivors below it. */
  lemma RankOfSurvivor(n: nat, p: nat -> bool, k: nat)
    requires k < |Survivors(n, p)|
    ensures |Survivors(Survivors(n, p)[k], p)| == k
  {
    var i := Survivors(n, p)[k];
    SurvivorRank(n, p, i);
    SurvivorsIncreasing(n, p);
  }

  /** Picking one more position appends that entry. */
  lemma PickAppend<T>(s: seq<T>, idx: seq<nat>, i: nat)
    requires forall k :: 0 <= k < |idx| ==> idx[k] < |s|
    requires i < |s|
    ensures Pick(s, idx + [i]) == Pick(s, idx) + [s[i]]
  {
  }
}
