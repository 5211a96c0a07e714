/** What repeating the next-hop decision at every relay achieves, when all relays share one matrix. */
module Delivery {
  import opened Bytes
  import opened Graph
  import opened Matrix
  import opened Router
  import A = Answers
  import E = Ewma

  /** `v` is a next hop the router at `u` may choose: the second node of some cheapest route. */
  ghost predicate MayHop(g: Weights, u: Node, dest: Node, v: Node) {
    exists p :: IsShortest(g, p, u, dest) && Cost(g, p) < U64_MAX && NoRepeats(p) && |p| >= 2 && p[1] == v
  }

  /** The nodes a payload visits when every relay forwards it to one of its own next hops. */
  ghost predicate Relayed(g: Weights, dest: Node, trail: seq<Node>) {
    && |trail| > 0
    && (|trail| > 1 ==>
          && Relayed(g, dest, trail[..|trail| - 1])
          && trail[|trail| - 2] != dest
          && MayHop(g, trail[|trail| - 2], dest, trail[|trail| - 1]))
  }

  ghost predicate AllPositive(g: Weights) {
    forall k :: k in g ==> g[k] >= 1
  }

  /** Every answer of `MeshRouter.NextHop` is such a hop. */
  lemma NextHopMayHop(m: Entries, u: Node, dest: Node, r: RouteEntry)
    requires IsBestRoute(m, u, dest, r)
    ensures MayHop(WeightsOf(m), u, dest, r.nextHop)
  {
  }

  lemma AnswerMayHop(g: Weights, u: Node, dest: Node, v: Node)
    requires A.AnswerHop(g, u, dest, v)
    ensures MayHop(g, u, dest, v)
  {
    hide A.Overtakes;
  }

  lemma DistanceUnique(g: Weights, u: Node, dest: Node, c: nat, c': nat)
    requires DistanceIs(g, u, dest, c) && DistanceIs(g, u, dest, c')
    ensures c == c'
  {
  }

  /** One hop takes exactly the weight of its edge off the remaining distance. */
  lemma HopProgress(g: Weights, u: Node, dest: Node, v: Node, c: nat)
    requires DistanceIs(g, u, dest, c) && MayHop(g, u, dest, v)
    ensures (u, v) in g && g[(u, v)] <= c && DistanceIs(g, v, dest, c - g[(u, v)])
  {
    var p :| IsShortest(g, p, u, dest) && Cost(g, p) < U64_MAX && NoRepeats(p) && |p| >= 2 && p[1] == v;
    DistanceUnique(g, u, dest, c, Cost(g, p));
    SuffixShortest(g, p, u, dest);
  }

  /** A trail is a walk, and what it cost plus what remains is always the source's distance. */
  lemma {:induction false} TrailConserves(g: Weights, dest: Node, trail: seq<Node>, c: nat)
    requires Relayed(g, dest, trail) && DistanceIs(g, trail[0], dest, c)
    ensures IsWalk(g, trail) && Cost(g, trail) <= c
    ensures DistanceIs(g, trail[|trail| - 1], dest, c - Cost(g, trail))
    decreases |trail|
  {
    if |trail| > 1 {
      var t := trail[..|trail| - 1];
      TrailConserves(g, dest, t, c);
      var u, v := trail[|trail| - 2], trail[|trail| - 1];
      assert MayHop(g, u, dest, v);
      HopProgress(g, u, dest, v, c - Cost(g, t));
    }
  }

  lemma {:induction false} PositiveCost(g: Weights, p: seq<Node>)
    requires IsWalk(g, p) && AllPositive(g)
    ensures Cost(g, p) >= |p| - 1
    decreases |p|
  {
    if |p| > 1 {
      PositiveCost(g, p[..|p| - 1]);
    }
  }

  lemma DestinationDistance(g: Weights, dest: Node, c: nat)
    requires DistanceIs(g, dest, dest, c)
    ensures c == 0
  {
    assert Joins(g, [dest], dest, dest);
  }

  lemma {:induction false} TrailPrefix(g: Weights, dest: Node, trail: seq<Node>, i: nat)
    requires Relayed(g, dest, trail) && i < |trail|
    ensures Relayed(g, dest, trail[..i + 1])
    decreases |trail|
  {
    if i == |trail| - 1 {
      assert trail[..i + 1] == trail;
    } else {
      TrailPrefix(g, dest, trail[..|trail| - 1], i);
      assert trail[..|trail| - 1][..i + 1] == trail[..i + 1];
    }
  }

  /** The distance that remains at the i-th node of a trail. */
  lemma RemainingAt(g: Weights, dest: Node, trail: seq<Node>, c: nat, i: nat)
    requires Relayed(g, dest, trail) && DistanceIs(g, trail[0], dest, c) && i < |trail|
    ensures IsWalk(g, trail[..i + 1]) && Cost(g, trail[..i + 1]) <= c
    ensures DistanceIs(g, trail[i], dest, c - Cost(g, trail[..i + 1]))
  {
    TrailPrefix(g, dest, trail, i);
    TrailConserves(g, dest, trail[..i + 1], c);
  }

  /** A trail that comes back to a node has gone round for nothing: that part of it cost 0. */
  lemma RevisitIsFree(g: Weights, dest: Node, trail: seq<Node>, c: nat, i: nat, j: nat)
    requires Relayed(g, dest, trail) && DistanceIs(g, trail[0], dest, c) && i < j < |trail| && trail[i] == trail[j]
    ensures IsWalk(g, trail[i..j + 1]) && Cost(g, trail[i..j + 1]) == 0
  {
    hide DistanceIs, Relayed;
    RemainingAt(g, dest, trail, c, i);
    RemainingAt(g, dest, trail, c, j);
    var t := trail[..j + 1];
    Split(g, t, i);
    assert t[..i + 1] == trail[..i + 1] && t[i..] == trail[i..j + 1];
    DistanceUnique(g, trail[i], dest, c - Cost(g, trail[..i + 1]), c - Cost(g, t));
  }

  /** Cutting a loop out of a walk leaves a cheaper walk between the same nodes. */
  lemma CutIsCheaper(g: Weights, p: seq<Node>, i: nat, j: nat) returns (cut: seq<Node>)
    requires AllPositive(g) && IsWalk(g, p) && i < j < |p| && p[i] == p[j]
    ensures Joins(g, cut, p[0], p[|p| - 1]) && Cost(g, cut) < Cost(g, p)
  {
    Split(g, p, j);
    var q := p[..j + 1];
    Split(g, q, i);
    assert q[..i + 1] == p[..i + 1];
    PositiveCost(g, q[i..]);
    Compose(g, p[..i + 1], p[j..]);
    cut := p[..i + 1] + p[j..][1..];
  }

  /** With positive weights a cheapest walk repeats no node. */
  lemma ShortestIsSimple(g: Weights, p: seq<Node>, a: Node, b: Node)
    requires AllPositive(g) && IsShortest(g, p, a, b)
    ensures NoRepeats(p)
  {
    forall i, j | 0 <= i < j < |p| ensures p[i] != p[j] {
      if p[i] == p[j] {
        var cut := CutIsCheaper(g, p, i, j);
      }
    }
  }

  /** Where there is a route there is a next hop, strictly closer. */
  lemma HopExists(g: Weights, u: Node, dest: Node, c: nat) returns (v: Node)
    requires AllPositive(g) && DistanceIs(g, u, dest, c) && c < U64_MAX && u != dest
    ensures MayHop(g, u, dest, v) && (u, v) in g && 1 <= g[(u, v)] <= c && DistanceIs(g, v, dest, c - g[(u, v)])
  {
    var p :| IsShortest(g, p, u, dest) && Cost(g, p) == c;
    ShortestIsSimple(g, p, u, dest);
    v := p[1];
    assert MayHop(g, u, dest, v);
    HopProgress(g, u, dest, v, c);
  }

  /** Hop-by-hop delivery: no trail visits a node twice or is longer than the source's distance, and one that
      has arrived cost exactly that distance. */
  lemma HopByHopDelivery(g: Weights, dest: Node, trail: seq<Node>, c: nat)
    requires AllPositive(g) && Relayed(g, dest, trail) && DistanceIs(g, trail[0], dest, c) && c < U64_MAX
    ensures NoRepeats(trail) && |trail| <= c + 1
    ensures trail[|trail| - 1] == dest ==> IsWalk(g, trail) && Cost(g, trail) == c
  {
    var u := trail[|trail| - 1];
    TrailConserves(g, dest, trail, c);
    PositiveCost(g, trail);
    forall i, j | 0 <= i < j < |trail| ensures trail[i] != trail[j] {
      if trail[i] == trail[j] {
        RevisitIsFree(g, dest, trail, c, i, j);
        PositiveCost(g, trail[i..j + 1]);
      }
    }
    if u == dest {
      DestinationDistance(g, dest, c - Cost(g, trail));
    }
  }

  /** And a trail that has not arrived can go on, by any answer the router may give, of which there is one: so
      every trail arrives. */
  lemma TrailGoesOn(g: Weights, dest: Node, trail: seq<Node>, c: nat) returns (v: Node)
    requires AllPositive(g) && Relayed(g, dest, trail) && DistanceIs(g, trail[0], dest, c) && c < U64_MAX
    requires trail[|trail| - 1] != dest
    ensures MayHop(g, trail[|trail| - 1], dest, v)
    ensures forall w :: MayHop(g, trail[|trail| - 1], dest, w) ==> Relayed(g, dest, trail + [w])
  {
    hide MayHop, DistanceIs;
    TrailConserves(g, dest, trail, c);
    v := HopExists(g, trail[|trail| - 1], dest, c - Cost(g, trail));
    forall w | MayHop(g, trail[|trail| - 1], dest, w) ensures Relayed(g, dest, trail + [w]) {
      assert (trail + [w])[..|trail|] == trail;
    }
  }

  lemma MayHopMoves(g: Weights, u: Node, dest: Node, v: Node)
    requires MayHop(g, u, dest, v)
    ensures u != dest
    ensures exists c: nat :: c < U64_MAX && DistanceIs(g, u, dest, c)
  {
    var p :| IsShortest(g, p, u, dest) && Cost(g, p) < U64_MAX && NoRepeats(p) && |p| >= 2 && p[1] == v;
    assert p[0] != p[|p| - 1];
    assert DistanceIs(g, u, dest, Cost(g, p));
  }

  /** A trail that has reached its destination ran along a route of least cost. */
  lemma ArrivedTrail(g: Weights, dest: Node, trail: seq<Node>)
    requires Relayed(g, dest, trail) && |trail| >= 2 && trail[|trail| - 1] == dest
    ensures IsWalk(g, trail) && DistanceIs(g, trail[0], dest, Cost(g, trail))
  {
    TrailPrefix(g, dest, trail, 1);
    assert trail[..2][..1] == [trail[0]];
    assert MayHop(g, trail[..2][0], dest, trail[..2][1]);
    MayHopMoves(g, trail[0], dest, trail[1]);
    var c: nat :| c < U64_MAX && DistanceIs(g, trail[0], dest, c);
    TrailConserves(g, dest, trail, c);
    DestinationDistance(g, dest, c - Cost(g, trail));
  }

  /** Weights are positive whenever every sample ever folded into the matrix was at least 1 us (and below
      2^64 us). */
  lemma SampledWeightsArePositive(m: Entries, histories: map<(Node, Node), seq<(Nanos, Nanos)>>)
    requires forall k :: k in m ==>
      k in histories && histories[k] != [] && m[k] == E.Track(histories[k]).value
      && forall i :: 0 <= i < |histories[k]| ==> 1 <= WholeMicros(histories[k][i].0) <= U64_MAX
    ensures AllPositive(WeightsOf(m))
  {
    forall k | k in m ensures Micros(m[k].smoothedRtt) >= 1 {
      E.WeightStaysPositive(histories[k]);
    }
  }
}
