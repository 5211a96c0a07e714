/** Exactly when a payload passed along the answers of searches can come back to a relay it has left. */
module FreeRings {
  import opened Answers
  import opened Bytes
  import opened Delivery
  import opened Graph
  import opened Matrix
  import opened Router

  /** A closed walk of at least two nodes, none of them twice. */
  ghost predicate Closed(g: Weights, ring: seq<Node>) {
    |ring| >= 3 && IsWalk(g, ring) && ring[0] == ring[|ring| - 1] && NoRepeats(ring[..|ring| - 1])
  }

  /** A closed walk of weight 0 that avoids `dest`, at each node of which a search may answer the next one. */
  ghost predicate AnswerRing(g: Weights, dest: Node, ring: seq<Node>) {
    && Closed(g, ring) && Cost(g, ring) == 0 && dest !in ring
    && forall k :: 0 <= k < |ring| - 1 ==> AnswerHop(g, ring[k], dest, ring[k + 1])
  }

  ghost predicate HasAnswerRing(g: Weights, dest: Node) {
    exists ring :: AnswerRing(g, dest, ring)
  }

  /** The nodes a payload visits when every relay passes it on as its search over the matrix `m` answers. */
  ghost predicate Handed(m: Entries, dest: Node, trail: seq<Node>) {
    && |trail| > 0
    && (|trail| > 1 ==>
          && Handed(m, dest, trail[..|trail| - 1])
          && trail[|trail| - 2] != dest
          && MayAnswerHop(m, trail[|trail| - 2], dest, trail[|trail| - 1]))
  }

  lemma {:induction false} HandedIsRelayed(m: Entries, dest: Node, trail: seq<Node>)
    requires Handed(m, dest, trail)
    ensures Relayed(WeightsOf(m), dest, trail)
    decreases |trail|
  {
    hide MayHop, MayAnswerHop, AnswerHop;
    if |trail| > 1 {
      HandedIsRelayed(m, dest, trail[..|trail| - 1]);
      HopsExactly(m, trail[|trail| - 2], dest, trail[|trail| - 1]);
      AnswerMayHop(WeightsOf(m), trail[|trail| - 2], dest, trail[|trail| - 1]);
    }
  }

  lemma {:induction false} HandedHops(m: Entries, dest: Node, trail: seq<Node>, i: nat)
    requires Handed(m, dest, trail) && i + 1 < |trail|
    ensures trail[i] != dest && AnswerHop(WeightsOf(m), trail[i], dest, trail[i + 1])
    decreases |trail|
  {
    hide MayAnswerHop, AnswerHop;
    if i + 2 < |trail| {
      HandedHops(m, dest, trail[..|trail| - 1], i);
    } else {
      HopsExactly(m, trail[i], dest, trail[i + 1]);
    }
  }

  // ----- a payload that comes back has found a ring -----

  lemma FreeStretch(g: Weights, ring: seq<Node>, i: nat, j: nat)
    requires IsWalk(g, ring) && Cost(g, ring) == 0 && i <= j < |ring|
    ensures Joins(g, ring[i..j + 1], ring[i], ring[j]) && Cost(g, ring[i..j + 1]) == 0
  {
    Split(g, ring, j);
    Split(g, ring[..j + 1], i);
    assert ring[..j + 1][i..] == ring[i..j + 1];
  }

  lemma {:induction false} FirstReturn(p: seq<Node>) returns (i: nat, j: nat)
    requires !NoRepeats(p)
    ensures i < j < |p| && p[i] == p[j] && NoRepeats(p[..j])
    decreases |p|
  {
    var init := p[..|p| - 1];
    if NoRepeats(init) {
      i, j :| 0 <= i < j < |p| && p[i] == p[j];
      assert p[..j] == init[..j];
    } else {
      i, j := FirstReturn(init);
      assert init[..j] == p[..j];
    }
  }

  lemma {:induction false} TrailHops(g: Weights, dest: Node, trail: seq<Node>, i: nat)
    requires Relayed(g, dest, trail) && i + 1 < |trail|
    ensures trail[i] != dest && MayHop(g, trail[i], dest, trail[i + 1])
    decreases |trail|
  {
    hide MayHop;
    if i + 2 < |trail| {
      TrailHops(g, dest, trail[..|trail| - 1], i);
    }
  }

  lemma HopLeaves(g: Weights, u: Node, dest: Node, v: Node)
    requires MayHop(g, u, dest, v)
    ensures u != v
  {
  }

  /** Where a trail comes back to a node for the first time, it closes a ring of weight 0. */
  lemma ReturnClosesRing(g: Weights, dest: Node, trail: seq<Node>) returns (i: nat, j: nat)
    requires Relayed(g, dest, trail) && !NoRepeats(trail)
    ensures i < j < |trail| && dest !in trail[i..j + 1]
    ensures Closed(g, trail[i..j + 1]) && Cost(g, trail[i..j + 1]) == 0
  {
    hide MayHop, Relayed, DistanceIs, NoRepeats;
    i, j := FirstReturn(trail);
    var ring := trail[i..j + 1];
    TrailHops(g, dest, trail, 0);
    MayHopMoves(g, trail[0], dest, trail[1]);
    var c: nat :| c < U64_MAX && DistanceIs(g, trail[0], dest, c);
    RevisitIsFree(g, dest, trail, c, i, j);
    forall k | 0 <= k < |ring| - 1 ensures ring[k] != dest {
      TrailHops(g, dest, trail, i + k);
    }
    TrailHops(g, dest, trail, i);
    HopLeaves(g, ring[0], dest, ring[1]);
    TailNoRepeats(trail[..j], i);
    assert ring[..|ring| - 1] == trail[..j][i..];
    assert ring[|ring| - 1] == ring[0];
  }

  lemma ReturnFindsRing(m: Entries, dest: Node, trail: seq<Node>)
    requires Handed(m, dest, trail) && !NoRepeats(trail)
    ensures HasAnswerRing(WeightsOf(m), dest)
  {
    hide AnswerHop, Handed, NoRepeats, Relayed;
    HandedIsRelayed(m, dest, trail);
    var i, j := ReturnClosesRing(WeightsOf(m), dest, trail);
    var ring := trail[i..j + 1];
    forall k | 0 <= k < |ring| - 1 ensures AnswerHop(WeightsOf(m), ring[k], dest, ring[k + 1]) {
      HandedHops(m, dest, trail, i + k);
    }
    assert AnswerRing(WeightsOf(m), dest, ring);
  }

  lemma TailNoRepeats(p: seq<Node>, i: nat)
    requires NoRepeats(p) && i <= |p|
    ensures NoRepeats(p[i..])
  {
  }

  // ----- endless forwarding -----

  ghost function AllNodes(g: Weights): set<Node> {
    (set k | k in g :: k.0) + (set k | k in g :: k.1)
  }

  lemma {:induction false} DistinctNodes(p: seq<Node>, all: set<Node>)
    requires NoRepeats(p) && forall i :: 0 <= i < |p| ==> p[i] in all
    ensures |p| <= |all|
    decreases |p|
  {
    if p != [] {
      var last := p[|p| - 1];
      DistinctNodes(p[..|p| - 1], all - {last});
    }
  }

  lemma HopIsEdge(g: Weights, u: Node, dest: Node, v: Node)
    requires MayHop(g, u, dest, v)
    ensures (u, v) in g
  {
    var p :| IsShortest(g, p, u, dest) && Cost(g, p) < U64_MAX && NoRepeats(p) && |p| >= 2 && p[1] == v;
    Uncons(g, p);
  }

  lemma TrailNodes(g: Weights, dest: Node, trail: seq<Node>, i: nat)
    requires Relayed(g, dest, trail) && |trail| >= 2 && i < |trail|
    ensures trail[i] in AllNodes(g)
  {
    hide MayHop, Relayed;
    var k := if i == 0 then 0 else i - 1;
    TrailHops(g, dest, trail, k);
    HopIsEdge(g, trail[k], dest, trail[k + 1]);
    assert (trail[k], trail[k + 1]) in g;
  }

  /** Without an answer ring no trail repeats a node or is longer than there are nodes. */
  lemma TrailIsShort(m: Entries, dest: Node, trail: seq<Node>)
    requires Handed(m, dest, trail) && |trail| >= 2 && !HasAnswerRing(WeightsOf(m), dest)
    ensures NoRepeats(trail) && |trail| <= |AllNodes(WeightsOf(m))|
  {
    hide Handed, Relayed, NoRepeats, AllNodes, HasAnswerRing;
    HandedIsRelayed(m, dest, trail);
    if !NoRepeats(trail) {
      ReturnFindsRing(m, dest, trail);
    }
    forall i | 0 <= i < |trail| ensures trail[i] in AllNodes(WeightsOf(m)) {
      TrailNodes(WeightsOf(m), dest, trail, i);
    }
    DistinctNodes(trail, AllNodes(WeightsOf(m)));
  }

  /** `n` hops round the ring. */
  function Rounds(ring: seq<Node>, n: nat): (trail: seq<Node>)
    requires |ring| >= 2
    ensures |trail| == n + 1
  {
    seq(n + 1, (i: nat) => ring[i % (|ring| - 1)])
  }

  lemma {:induction false} RoundsAreTrails(m: Entries, dest: Node, ring: seq<Node>, n: nat)
    requires AnswerRing(WeightsOf(m), dest, ring)
    ensures Handed(m, dest, Rounds(ring, n)) && dest !in Rounds(ring, n)
    decreases n
  {
    hide MayAnswerHop, AnswerHop;
    var trail := Rounds(ring, n);
    if n > 0 {
      RoundsAreTrails(m, dest, ring, n - 1);
      assert trail[..n] == Rounds(ring, n - 1);
      var size := |ring| - 1;
      var k := (n - 1) % size;
      HopsExactly(m, ring[k], dest, ring[k + 1]);
      NextInRing(n - 1, size);
      assert trail[n - 1] == ring[k] && trail[n] == ring[k + 1];
    }
  }

  lemma NextInRing(i: nat, size: nat)
    requires size > 0
    ensures (i + 1) % size == if i % size + 1 == size then 0 else i % size + 1
  {
    var q, r := i / size, i % size;
    assert i == size * q + r;
    if r + 1 == size {
      assert i + 1 == size * (q + 1) + 0;
      ModUnique(i + 1, size, q + 1, 0);
    } else {
      ModUnique(i + 1, size, q, r + 1);
    }
  }

  ghost predicate MayReturn(m: Entries, dest: Node) {
    exists trail :: Handed(m, dest, trail) && !NoRepeats(trail)
  }

  /** There are trails of any length that do not arrive. */
  ghost predicate Endless(m: Entries, dest: Node) {
    forall n: nat :: TrailOf(m, dest, n)
  }

  ghost predicate TrailOf(m: Entries, dest: Node, n: nat) {
    exists trail :: |trail| == n + 1 && Handed(m, dest, trail) && dest !in trail
  }

  /** Searches over one matrix can bring a payload back to a relay exactly when its weights have an answer ring:
      they need not be positive, as long as no search goes round for nothing. */
  lemma ReturnsExactly(m: Entries, dest: Node)
    ensures MayReturn(m, dest) <==> HasAnswerRing(WeightsOf(m), dest)
  {
    hide Handed, AnswerRing, NoRepeats;
    if trail :| Handed(m, dest, trail) && !NoRepeats(trail) {
      ReturnFindsRing(m, dest, trail);
    }
    if ring :| AnswerRing(WeightsOf(m), dest, ring) {
      RingShape(WeightsOf(m), dest, ring);
      RoundsAreTrails(m, dest, ring, |ring| - 1);
      RoundRepeats(ring);
    }
  }

  lemma RoundRepeats(ring: seq<Node>)
    requires |ring| >= 2
    ensures !NoRepeats(Rounds(ring, |ring| - 1))
  {
    var trail := Rounds(ring, |ring| - 1);
    assert trail[0] == trail[|ring| - 1];
  }

  /** And every payload with a route arrives, after fewer hops than there are nodes, exactly when there is none;
      with one, searches can pass a payload on for ever. */
  lemma EndlessExactly(m: Entries, dest: Node)
    ensures Endless(m, dest) <==> HasAnswerRing(WeightsOf(m), dest)
  {
    hide Handed, AllNodes, AnswerRing;
    if Endless(m, dest) {
      var n := |AllNodes(WeightsOf(m))| + 1;
      assert TrailOf(m, dest, n);
      var trail :| |trail| == n + 1 && Handed(m, dest, trail) && dest !in trail;
      if !HasAnswerRing(WeightsOf(m), dest) {
        TrailIsShort(m, dest, trail);
      }
    }
    if ring :| AnswerRing(WeightsOf(m), dest, ring) {
      forall n: nat ensures TrailOf(m, dest, n) {
        RingShape(WeightsOf(m), dest, ring);
        RoundsAreTrails(m, dest, ring, n);
      }
    }
  }

  lemma RingShape(g: Weights, dest: Node, ring: seq<Node>)
    requires AnswerRing(g, dest, ring)
    ensures |ring| >= 3
  {
  }

  // ----- a simpler sign -----

  /** A cheapest walk from `z`, without repeats, that never meets the ring again. */
  ghost predicate IsExit(g: Weights, dest: Node, ring: seq<Node>, z: Node, p: seq<Node>) {
    && IsShortest(g, p, z, dest) && Cost(g, p) < U64_MAX && NoRepeats(p)
    && forall i :: 0 < i < |p| ==> p[i] !in ring
  }

  ghost predicate Leaves(g: Weights, dest: Node, ring: seq<Node>, z: Node) {
    exists p :: IsExit(g, dest, ring, z, p)
  }

  /** A closed walk of weight 0 that avoids `dest`, with cheapest walks to `dest` leaving it at its first node
      and at another one. */
  ghost predicate FreeRing(g: Weights, dest: Node, ring: seq<Node>, e: nat) {
    && Closed(g, ring) && Cost(g, ring) == 0 && dest !in ring
    && 0 < e < |ring| - 1 && Leaves(g, dest, ring, ring[0]) && Leaves(g, dest, ring, ring[e])
  }

  ghost predicate HasFreeRing(g: Weights, dest: Node) {
    exists ring, e :: FreeRing(g, dest, ring, e)
  }

  /** The last place where a walk is on the ring. */
  lemma {:induction false} LastOnRing(p: seq<Node>, ring: seq<Node>, k: nat) returns (m: nat)
    requires k < |p| && p[k] in ring
    ensures k <= m < |p| && p[m] in ring && forall i :: m < i < |p| ==> p[i] !in ring
    decreases |p| - k
  {
    if i :| k < i < |p| && p[i] in ring {
      m := LastOnRing(p, ring, i);
    } else {
      m := k;
    }
  }

  lemma {:induction false} TailShortest(g: Weights, p: seq<Node>, a: Node, b: Node, m: nat)
    requires IsShortest(g, p, a, b) && m < |p|
    ensures IsShortest(g, p[m..], p[m], b) && Cost(g, p[m..]) <= Cost(g, p)
    decreases m
  {
    if m == 0 {
      assert p[0..] == p;
    } else {
      SuffixShortest(g, p, a, b);
      TailShortest(g, p[1..], p[1], b, m - 1);
      assert p[1..][m - 1..] == p[m..];
    }
  }

  /** Where the router may answer the ring's next node, the ring can be left at some other node. */
  lemma ExitElsewhere(g: Weights, dest: Node, ring: seq<Node>, k: nat) returns (f: nat)
    requires Closed(g, ring) && dest !in ring && k < |ring| - 1 && MayHop(g, ring[k], dest, ring[k + 1])
    ensures f < |ring| - 1 && f != k && Leaves(g, dest, ring, ring[f])
  {
    var p :| IsShortest(g, p, ring[k], dest) && Cost(g, p) < U64_MAX && NoRepeats(p) && |p| >= 2 && p[1] == ring[k + 1];
    var m := LastOnRing(p, ring, 1);
    TailShortest(g, p, ring[k], dest, m);
    assert IsExit(g, dest, ring, p[m], p[m..]);
    var i: nat :| i < |ring| && ring[i] == p[m];
    f := if i == |ring| - 1 then 0 else i;
    assert p[m] != p[0];
  }

  function Rotated(ring: seq<Node>, e: nat): (r: seq<Node>)
    requires 0 < |ring| && e < |ring|
    ensures |r| == |ring|
  {
    ring[e..|ring| - 1] + ring[..e + 1]
  }

  lemma RotatedAt(ring: seq<Node>, e: nat, i: nat)
    requires 0 < |ring| && e < |ring| && i < |ring|
    ensures Rotated(ring, e)[i] == if i < |ring| - 1 - e then ring[e + i] else ring[i - (|ring| - 1 - e)]
  {
  }

  lemma RotatedDistinct(ring: seq<Node>, e: nat)
    requires e < |ring| - 1 && NoRepeats(ring[..|ring| - 1])
    ensures NoRepeats(Rotated(ring, e)[..|ring| - 1])
  {
    hide Rotated;
    var n, r := |ring| - 1, Rotated(ring, e);
    forall i, j | 0 <= i < j < n ensures r[i] != r[j] {
      RotatedAt(ring, e, i);
      RotatedAt(ring, e, j);
      assert r[i] == ring[..n][if i < n - e then e + i else i - (n - e)];
      assert r[j] == ring[..n][if j < n - e then e + j else j - (n - e)];
    }
  }

  lemma RotatedNodes(ring: seq<Node>, e: nat, x: Node)
    requires e < |ring| - 1 && ring[0] == ring[|ring| - 1]
    ensures x in Rotated(ring, e) <==> x in ring
  {
    hide Rotated;
    var n, r := |ring| - 1, Rotated(ring, e);
    if i :| 0 <= i < |ring| && ring[i] == x {
      var at := if e <= i < n then i - e else n - e + (if i == n then 0 else i);
      RotatedAt(ring, e, at);
      assert r[at] == x;
    }
    if i :| 0 <= i < |r| && r[i] == x {
      RotatedAt(ring, e, i);
    }
  }

  lemma RotatedComposes(ring: seq<Node>, e: nat)
    requires 0 < |ring| && e < |ring| && ring[0] == ring[|ring| - 1]
    ensures Rotated(ring, e) == ring[e..|ring|] + ring[0..e + 1][1..]
  {
    var n := |ring| - 1;
    assert ring[e..n + 1] == ring[e..n] + [ring[0]];
    assert ring[..e + 1] == [ring[0]] + ring[0..e + 1][1..];
  }

  lemma RotatedCloses(g: Weights, ring: seq<Node>, e: nat)
    requires Closed(g, ring) && Cost(g, ring) == 0 && e < |ring| - 1
    ensures Closed(g, Rotated(ring, e)) && Cost(g, Rotated(ring, e)) == 0
  {
    hide NoRepeats, Cost, Rotated;
    var n := |ring| - 1;
    FreeStretch(g, ring, e, n);
    FreeStretch(g, ring, 0, e);
    Compose(g, ring[e..n + 1], ring[0..e + 1]);
    RotatedComposes(ring, e);
    RotatedDistinct(ring, e);
    RotatedAt(ring, e, 0);
    RotatedAt(ring, e, n);
  }

  lemma RotatedLeaves(g: Weights, dest: Node, ring: seq<Node>, ring': seq<Node>, z: Node)
    requires Leaves(g, dest, ring, z) && forall x :: x in ring' <==> x in ring
    ensures Leaves(g, dest, ring', z)
  {
    var p :| IsExit(g, dest, ring, z, p);
    assert IsExit(g, dest, ring', z, p);
  }

  /** A ring whose every edge the router may answer can be left at two of its nodes. */
  lemma RingOfHops(g: Weights, dest: Node, ring: seq<Node>)
    requires Closed(g, ring) && Cost(g, ring) == 0 && dest !in ring
    requires forall k :: 0 <= k < |ring| - 1 ==> MayHop(g, ring[k], dest, ring[k + 1])
    ensures HasFreeRing(g, dest)
  {
    hide MayHop, Leaves;
    var n := |ring| - 1;
    var e := ExitElsewhere(g, dest, ring, 0);
    var f := ExitElsewhere(g, dest, ring, e);
    var r := Rotated(ring, e);
    RotatedCloses(g, ring, e);
    forall x ensures x in r <==> x in ring {
      RotatedNodes(ring, e, x);
    }
    RotatedLeaves(g, dest, ring, r, ring[e]);
    RotatedLeaves(g, dest, ring, r, ring[f]);
    var at := if f > e then f - e else f + n - e;
    RotatedAt(ring, e, 0);
    RotatedAt(ring, e, at);
    assert FreeRing(g, dest, r, at);
  }

  /** An answer ring is a free ring, so no payload returns where cheapest walks leave each free closed walk at one
      node only. */
  lemma AnswerRingIsFree(g: Weights, dest: Node)
    requires HasAnswerRing(g, dest)
    ensures HasFreeRing(g, dest)
  {
    hide AnswerHop, MayHop;
    var ring :| AnswerRing(g, dest, ring);
    forall k | 0 <= k < |ring| - 1 ensures MayHop(g, ring[k], dest, ring[k + 1]) {
      AnswerMayHop(g, ring[k], dest, ring[k + 1]);
    }
    RingOfHops(g, dest, ring);
  }

  /** Positive weights rule free rings out, and answer rings with them. */
  lemma PositiveHasNoRing(g: Weights, dest: Node)
    requires AllPositive(g)
    ensures !HasFreeRing(g, dest) && !HasAnswerRing(g, dest)
  {
    forall ring, e | FreeRing(g, dest, ring, e) ensures false {
      PositiveCost(g, ring);
    }
    forall ring | AnswerRing(g, dest, ring) ensures false {
      PositiveCost(g, ring);
    }
  }
}
