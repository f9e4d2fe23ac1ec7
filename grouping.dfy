/**
 * The grouping `_detectCollidedNodes` computes, as a function of which
 * nodes overlap. Every node starts in a group of its own; then every pair
 * `i < j` is visited in order, and when the two overlap, the concatenation
 * of their groups becomes the group of both. Groups are lists of node
 * indices and may repeat an index, as the concatenations in the source do.
 *
 * The visit is defined over the set `touching` of index pairs `(i, j)`
 * such that node `i` overlaps node `j`; `OverlapPairs` builds it from the
 * nodes' discs.
 */
module Grouping {
  import opened Nodes

  type Groups = seq<seq<nat>>

  /** The pairs of indices of nodes that overlap, as `isOverlapped`
      decides. */
  function OverlapPairs(discs: seq<Disc>): (touching: set<(int, int)>)
    ensures forall i: nat, j: nat :: (i, j) in touching <==>
      i < |discs| && j < |discs| && Overlaps(discs[i], discs[j])
  {
    set i: nat, j: nat | i < |discs| && j < |discs| && Overlaps(discs[i], discs[j]) :: (i, j)
  }

  /** Node `i` overlaps node `j` exactly when `j` overlaps `i`. */
  ghost predicate Symmetric(touching: set<(int, int)>) {
    forall i, j :: (i, j) in touching ==> (j, i) in touching
  }

  lemma OverlapPairsSymmetric(discs: seq<Disc>)
    ensures Symmetric(OverlapPairs(discs))
  {
    forall i: nat, j: nat | (i, j) in OverlapPairs(discs)
      ensures (j, i) in OverlapPairs(discs)
    {
      OverlapsSymmetric(discs[i], discs[j]);
    }
  }

  /** Every node in a group holding only itself. */
  function Singletons(n: nat): (gs: Groups)
    ensures |gs| == n
    ensures forall k :: 0 <= k < n ==> gs[k] == [k]
  {
    seq(n, k => [k])
  }

  /** The visit of the pair `(i, j)`. */
  function PairStep(gs: Groups, touching: set<(int, int)>, i: nat, j: nat): Groups
    requires i < j < |gs|
  {
    if (i, j) in touching then
      var g := gs[i] + gs[j];
      gs[i := g][j := g]
    else
      gs
  }

  /** The pairs `(i, i + 1)`, ..., `(i, j - 1)` visited in order. */
  function Row(gs: Groups, touching: set<(int, int)>, i: nat, j: nat): (r: Groups)
    requires i < j <= |gs|
    ensures |r| == |gs|
    decreases j
  {
    if j == i + 1 then gs
    else PairStep(Row(gs, touching, i, j - 1), touching, i, j - 1)
  }

  /** Rows `0`, ..., `i - 1` of pairs visited in order. */
  function Rows(gs: Groups, touching: set<(int, int)>, i: nat): (r: Groups)
    requires i <= |gs|
    ensures |r| == |gs|
    decreases i
  {
    if i == 0 then gs
    else Row(Rows(gs, touching, i - 1), touching, i - 1, |gs|)
  }

  /** One more pair visited extends the row by one step. */
  lemma RowStep(gs: Groups, touching: set<(int, int)>, i: nat, j: nat)
    requires i < j < |gs|
    ensures Row(gs, touching, i, j + 1) == PairStep(Row(gs, touching, i, j), touching, i, j)
  {
  }

  /** One more row visited extends the rows by one. */
  lemma RowsStep(gs: Groups, touching: set<(int, int)>, i: nat)
    requires i < |gs|
    ensures Rows(gs, touching, i + 1) == Row(Rows(gs, touching, i), touching, i, |gs|)
  {
  }

  /** The groups every node holds once `_detectCollidedNodes` returns. */
  function GroupsOf(n: nat, touching: set<(int, int)>): (gs: Groups)
    ensures |gs| == n
  {
    Rows(Singletons(n), touching, n)
  }

  /** The pair `a < b` has been visited when the visit has reached the pair
      `(i, j)`. */
  predicate Visited(a: nat, b: nat, i: nat, j: nat) {
    a < i || (a == i && b < j)
  }

  /** Every visited overlapping pair is in each other's group. */
  predicate EdgesJoined(gs: Groups, touching: set<(int, int)>, i: nat, j: nat)
  {
    forall a, b :: 0 <= a < b < |gs| && Visited(a, b, i, j) && (a, b) in touching ==>
      b in gs[a] && a in gs[b]
  }

  /** No visited pair involving `k` overlaps. */
  predicate Untouched(n: nat, touching: set<(int, int)>, k: nat, i: nat, j: nat) {
    (forall m :: 0 <= m < k && Visited(m, k, i, j) ==> (m, k) !in touching) &&
    (forall m :: k < m < n && Visited(k, m, i, j) ==> (k, m) !in touching)
  }

  /** What holds of the groups once the visit has reached pair `(i, j)`. */
  predicate Inv(gs: Groups, touching: set<(int, int)>, i: nat, j: nat) {
    (forall k :: 0 <= k < |gs| ==> k in gs[k]) &&
    (forall k, e :: 0 <= k < |gs| && e in gs[k] ==> e < |gs|) &&
    EdgesJoined(gs, touching, i, j) &&
    (forall k :: 0 <= k < |gs| && Untouched(|gs|, touching, k, i, j) ==> gs[k] == [k])
  }

  lemma SingletonsInv(n: nat, touching: set<(int, int)>)
    ensures Inv(Singletons(n), touching, 0, 1)
  {
  }

  lemma {:induction false} PairStepInv(gs: Groups, touching: set<(int, int)>, i: nat, j: nat)
    requires i < j < |gs|
    requires Inv(gs, touching, i, j)
    ensures Inv(PairStep(gs, touching, i, j), touching, i, j + 1)
  {
    if (i, j) in touching {
      JoinedPairInv(gs, touching, i, j);
    } else {
      SkippedPairInv(gs, touching, i, j);
    }
  }

  /** Joining an overlapping pair keeps the invariant. */
  lemma JoinedPairInv(gs: Groups, touching: set<(int, int)>, i: nat, j: nat)
    requires i < j < |gs| && (i, j) in touching
    requires Inv(gs, touching, i, j)
    ensures Inv(gs[i := gs[i] + gs[j]][j := gs[i] + gs[j]], touching, i, j + 1)
  {
    var r := gs[i := gs[i] + gs[j]][j := gs[i] + gs[j]];
    JoinedKeepsMembers(gs, i, j, r);
    JoinedEdges(gs, touching, i, j, r);
    JoinedUntouched(gs, touching, i, j, r);
  }

  /** Joining keeps every entry of every group. */
  lemma JoinedKeepsMembers(gs: Groups, i: nat, j: nat, r: Groups)
    requires i < j < |gs|
    requires r == gs[i := gs[i] + gs[j]][j := gs[i] + gs[j]]
    requires forall k, e :: 0 <= k < |gs| && e in gs[k] ==> e < |gs|
    ensures |r| == |gs|
    ensures forall k, e :: 0 <= k < |gs| && e in gs[k] ==> e in r[k]
    ensures forall k, e :: 0 <= k < |r| && e in r[k] ==> e < |r|
  {
  }

  /** After joining `(i, j)`, every visited overlapping pair up to and
      including `(i, j)` is joined. */
  lemma JoinedEdges(gs: Groups, touching: set<(int, int)>, i: nat, j: nat, r: Groups)
    requires i < j < |gs| && (i, j) in touching
    requires (forall k :: 0 <= k < |gs| ==> k in gs[k]) && EdgesJoined(gs, touching, i, j)
    requires |r| == |gs| && forall k, e :: 0 <= k < |gs| && e in gs[k] ==> e in r[k]
    requires j in r[i] && i in r[j]
    ensures EdgesJoined(r, touching, i, j + 1)
  {
    forall a, b | 0 <= a < b < |r| && Visited(a, b, i, j + 1) && (a, b) in touching
      ensures b in r[a] && a in r[b]
    {
      if !(a == i && b == j) {
        assert Visited(a, b, i, j);
      }
    }
  }

  /** Joining `(i, j)` leaves every node no visited overlap touches alone. */
  lemma JoinedUntouched(gs: Groups, touching: set<(int, int)>, i: nat, j: nat, r: Groups)
    requires i < j < |gs| && (i, j) in touching
    requires r == gs[i := gs[i] + gs[j]][j := gs[i] + gs[j]]
    requires forall k :: 0 <= k < |gs| && Untouched(|gs|, touching, k, i, j) ==> gs[k] == [k]
    ensures forall k :: 0 <= k < |r| && Untouched(|r|, touching, k, i, j + 1) ==> r[k] == [k]
  {
    forall k | 0 <= k < |r| && Untouched(|r|, touching, k, i, j + 1)
      ensures r[k] == [k]
    {
      assert Untouched(|gs|, touching, k, i, j);
      assert k != i && k != j;
    }
  }

  /** Skipping a pair that does not overlap keeps the invariant. */
  lemma {:induction false} SkippedPairInv(gs: Groups, touching: set<(int, int)>, i: nat, j: nat)
    requires i < j < |gs| && (i, j) !in touching
    requires Inv(gs, touching, i, j)
    ensures Inv(gs, touching, i, j + 1)
  {
    forall k | 0 <= k < |gs| && Untouched(|gs|, touching, k, i, j + 1)
      ensures gs[k] == [k]
    {
      assert Untouched(|gs|, touching, k, i, j);
    }
  }

  lemma {:induction false} RowInv(gs: Groups, touching: set<(int, int)>, i: nat, j: nat)
    requires i < j <= |gs|
    requires Inv(gs, touching, i, i + 1)
    ensures Inv(Row(gs, touching, i, j), touching, i, j)
    decreases j
  {
    if j > i + 1 {
      var p := j - 1;
      var r := Row(gs, touching, i, p);
      RowInv(gs, touching, i, p);
      PairStepInv(r, touching, i, p);
      assert p + 1 == j;
      assert Row(gs, touching, i, j) == PairStep(r, touching, i, p);
    }
  }

  /** Finishing row `i` is starting row `i + 1`. */
  lemma {:induction false} NextRowInv(gs: Groups, touching: set<(int, int)>, i: nat)
    requires Inv(gs, touching, i, |gs|)
    ensures Inv(gs, touching, i + 1, i + 2)
  {
    assert forall a, b :: 0 <= a < b < |gs| ==> (Visited(a, b, i, |gs|) <==> Visited(a, b, i + 1, i + 2));
    forall k | 0 <= k < |gs| && Untouched(|gs|, touching, k, i + 1, i + 2)
      ensures gs[k] == [k]
    {
      assert Untouched(|gs|, touching, k, i, |gs|);
    }
  }

  lemma {:induction false} RowsInv(gs: Groups, touching: set<(int, int)>, i: nat)
    requires i <= |gs|
    requires Inv(gs, touching, 0, 1)
    ensures Inv(Rows(gs, touching, i), touching, i, i + 1)
    decreases i
  {
    if i > 0 {
      var p := i - 1;
      RowsInv(gs, touching, p);
      NextRowsInv(gs, touching, p);
      assert p + 1 == i;
    }
  }

  /** Visiting row `i` keeps the invariant. */
  lemma {:induction false} NextRowsInv(gs: Groups, touching: set<(int, int)>, i: nat)
    requires i < |gs|
    requires Inv(Rows(gs, touching, i), touching, i, i + 1)
    ensures Inv(Rows(gs, touching, i + 1), touching, i + 1, i + 1 + 1)
  {
    var before := Rows(gs, touching, i);
    RowInv(before, touching, i, |gs|);
    NextRowInv(Row(before, touching, i, |gs|), touching, i);
  }

  /** Once every pair has been visited, the invariant holds of the
      groups. */
  lemma GroupsOfInv(n: nat, touching: set<(int, int)>)
    ensures Inv(GroupsOf(n, touching), touching, n, n + 1)
  {
    SingletonsInv(n, touching);
    RowsInv(Singletons(n), touching, n);
  }

  /** For a symmetric overlap relation, each node's group holds itself and
      every node it overlaps, only valid indices, and more than one entry
      exactly when the node overlaps some other node. */
  lemma GroupsOfSpec(n: nat, touching: set<(int, int)>, k: nat)
    requires Symmetric(touching)
    requires k < n
    ensures var gs := GroupsOf(n, touching);
      k in gs[k] &&
      (forall e :: e in gs[k] ==> e < n) &&
      (forall m :: 0 <= m < n && (k, m) in touching ==> m in gs[k]) &&
      (|gs[k]| > 1 <==> exists m :: 0 <= m < n && m != k && (k, m) in touching)
  {
    GroupsOfInv(n, touching);
    FinishedGroup(GroupsOf(n, touching), touching, k);
  }

  /** What the invariant says of one node's group once every pair has
      been visited. */
  lemma FinishedGroup(gs: Groups, touching: set<(int, int)>, k: nat)
    requires Symmetric(touching)
    requires k < |gs|
    requires Inv(gs, touching, |gs|, |gs| + 1)
    ensures k in gs[k] &&
      (forall e :: e in gs[k] ==> e < |gs|) &&
      (forall m :: 0 <= m < |gs| && (k, m) in touching ==> m in gs[k]) &&
      (|gs[k]| > 1 <==> exists m :: 0 <= m < |gs| && m != k && (k, m) in touching)
  {
    FinishedEdges(gs, touching, k);
    FinishedLonely(gs, touching, k);
  }

  /** Every node a finished group's owner overlaps is in the group. */
  lemma FinishedEdges(gs: Groups, touching: set<(int, int)>, k: nat)
    requires Symmetric(touching)
    requires k < |gs|
    requires Inv(gs, touching, |gs|, |gs| + 1)
    ensures forall m :: 0 <= m < |gs| && (k, m) in touching ==> m in gs[k]
  {
    assert EdgesJoined(gs, touching, |gs|, |gs| + 1);
    forall m | 0 <= m < |gs| && (k, m) in touching
      ensures m in gs[k]
    {
      if m < k {
        EdgeJoined(gs, touching, |gs|, |gs| + 1, m, k);
      } else if k < m {
        EdgeJoined(gs, touching, |gs|, |gs| + 1, k, m);
      }
    }
  }

  lemma EdgeJoined(gs: Groups, touching: set<(int, int)>, i: nat, j: nat, a: nat, b: nat)
    requires EdgesJoined(gs, touching, i, j)
    requires a < b < |gs| && Visited(a, b, i, j) && (a, b) in touching
    ensures b in gs[a] && a in gs[b]
  {
  }

  /** A finished group has more than one entry exactly when its owner
      overlaps another node. */
  lemma FinishedLonely(gs: Groups, touching: set<(int, int)>, k: nat)
    requires Symmetric(touching)
    requires k < |gs|
    requires Inv(gs, touching, |gs|, |gs| + 1)
    requires forall m :: 0 <= m < |gs| && (k, m) in touching ==> m in gs[k]
    ensures |gs[k]| > 1 <==> exists m :: 0 <= m < |gs| && m != k && (k, m) in touching
  {
    var n := |gs|;
    if |gs[k]| > 1 {
      assert gs[k] != [k];
      assert !Untouched(n, touching, k, n, n + 1);
      var m :| (0 <= m < k && Visited(m, k, n, n + 1) && (m, k) in touching) ||
               (k < m < n && Visited(k, m, n, n + 1) && (k, m) in touching);
      assert (m, k) in touching ==> (k, m) in touching;
      assert m != k && (k, m) in touching;
    }
    if exists m :: 0 <= m < n && m != k && (k, m) in touching {
      var m :| 0 <= m < n && m != k && (k, m) in touching;
      assert k in gs[k] && m in gs[k];
      TwoDistinctMembers(gs[k], k, m);
    }
  }

  lemma TwoDistinctMembers(g: seq<nat>, a: nat, b: nat)
    requires a in g && b in g && a != b
    ensures |g| > 1
  {
  }

  /** `_detectCollidedNodes` on the nodes' discs: each node's group holds
      itself and every node whose disc overlaps its own, and more than one
      entry exactly when its disc overlaps the disc of another node. */
  lemma GroupsOfDiscs(discs: seq<Disc>, k: nat)
    requires k < |discs|
    ensures var gs := GroupsOf(|discs|, OverlapPairs(discs));
      k in gs[k] &&
      (forall e :: e in gs[k] ==> e < |discs|) &&
      (forall m :: 0 <= m < |discs| && Overlaps(discs[k], discs[m]) ==> m in gs[k]) &&
      (|gs[k]| > 1 <==> exists m :: 0 <= m < |discs| && m != k && Overlaps(discs[k], discs[m]))
  {
    var touching := OverlapPairs(discs);
    OverlapPairsSymmetric(discs);
    GroupsOfSpec(|discs|, touching, k);
    if |GroupsOf(|discs|, touching)[k]| > 1 {
      var m :| 0 <= m < |discs| && m != k && (k, m) in touching;
      assert Overlaps(discs[k], discs[m]);
    }
  }
}
