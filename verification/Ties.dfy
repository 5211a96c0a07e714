/** Matrices that show what ties and truncated microseconds can do: relays that pass a payload back and forth,
    relays that cannot although both might, and routes that are 999 ns a hop slower than others. */
module Ties {
  import opened Answers
  import opened Bytes
  import opened Graph
  import opened Matrix
  import opened Router
  import FreeRings

  const NODE_A := Node([0])
  const NODE_B := Node([1])
  const NODE_P := Node([2])
  const NODE_Q := Node([3])
  const NODE_X := Node([4])
  const NODE_D := Node([5])

  function Measured(rtt: Nanos): LatencyEntry {
    LatencyEntry(rtt, 0, 0, 1)
  }

  // ----- walks and answers in small graphs -----

  /** No walk costs less than the drop of a potential that no edge undercuts. */
  lemma {:induction false} PotentialBound(g: Weights, phi: Node -> nat, p: seq<Node>)
    requires IsWalk(g, p) && forall k :: k in g ==> phi(k.0) <= g[k] + phi(k.1)
    ensures phi(p[0]) <= Cost(g, p) + phi(p[|p| - 1])
    decreases |p|
  {
    if |p| > 1 {
      PotentialBound(g, phi, p[..|p| - 1]);
    }
  }

  /** A walk that costs just the drop of such a potential is shortest. */
  lemma ShortestByPotential(g: Weights, phi: Node -> nat, p: seq<Node>, a: Node, b: Node)
    requires Joins(g, p, a, b) && (forall k :: k in g ==> phi(k.0) <= g[k] + phi(k.1)) && phi(b) == 0
    requires Cost(g, p) == phi(a)
    ensures IsShortest(g, p, a, b) && DistanceIs(g, a, b, phi(a))
  {
    forall q | Joins(g, q, a, b) ensures phi(a) <= Cost(g, q) {
      PotentialBound(g, phi, q);
    }
  }

  /** What would have to be nearer than it can be, and is not further up the walk, does not overtake. */
  lemma NotOvertaken(g: Weights, p: seq<Node>, i: nat, y: Node)
    requires IsWalk(g, p) && i + 1 < |p|
    requires (y, p[i + 1]) in g ==> CostTo(g, p, i) + g[(y, p[i + 1])] <= CostTo(g, p, i + 1) && y !in p[..i]
    ensures !Overtakes(g, p, i, y)
  {
    hide CostTo;
  }

  lemma OneNode(g: Weights, u: Node)
    ensures IsWalk(g, [u]) && Cost(g, [u]) == 0
  {
  }

  lemma TwoHops(g: Weights, u: Node, v: Node, w: Node)
    requires (u, v) in g && (v, w) in g
    ensures IsWalk(g, [u, v]) && Cost(g, [u, v]) == g[(u, v)]
    ensures Joins(g, [u, v, w], u, w) && Cost(g, [u, v, w]) == g[(u, v)] + g[(v, w)]
  {
    hide IsWalk, Cost;
    OneNode(g, u);
    Snoc(g, [u], v);
    Snoc(g, [u] + [v], w);
    assert [u] + [v] == [u, v] && [u, v] + [w] == [u, v, w];
  }

  lemma ThreeHops(g: Weights, u: Node, v: Node, w: Node, x: Node)
    requires (u, v) in g && (v, w) in g && (w, x) in g
    ensures var p := [u, v, w, x];
            && Joins(g, p, u, x) && Cost(g, p) == g[(u, v)] + g[(v, w)] + g[(w, x)]
            && CostTo(g, p, 0) == 0 && CostTo(g, p, 1) == g[(u, v)] && CostTo(g, p, 2) == g[(u, v)] + g[(v, w)]
            && CostTo(g, p, 3) == Cost(g, p)
  {
    hide IsWalk, Cost;
    TwoHops(g, u, v, w);
    OneNode(g, u);
    Snoc(g, [u, v, w], x);
    var p := [u, v, w, x];
    assert [u, v, w] + [x] == p;
    assert p[..1] == [u] && p[..2] == [u, v] && p[..3] == [u, v, w] && p[..4] == p;
  }

  // ----- two relays joined for free -----

  /** `a` and `b` are joined for free; `a` reaches `d` by way of `p` and `b` by way of `q`. */
  datatype Roles = Roles(a: Node, b: Node, p: Node, q: Node, d: Node)
  {
    predicate Distinct() {
      a !in {b, p, q, d} && b !in {p, q, d} && p !in {q, d} && q != d
    }

    function Swapped(): Roles {
      Roles(b, a, q, p, d)
    }

    function Matrix(): Entries {
      map[(a, b) := Measured(0), (a, p) := Measured(1000), (b, a) := Measured(0), (b, q) := Measured(1000),
          (p, d) := Measured(1000), (q, d) := Measured(1000)]
    }
  }

  lemma WeightsOfRoles(r: Roles)
    requires r.Distinct()
    ensures WeightsOf(r.Matrix()) == map[(r.a, r.b) := 0, (r.a, r.p) := 1, (r.b, r.a) := 0, (r.b, r.q) := 1,
                                         (r.p, r.d) := 1, (r.q, r.d) := 1]
  {
  }

  lemma AnswersOther(r: Roles)
    requires r.Distinct()
    ensures MayAnswer(r.Matrix(), r.a, r.d, [r.a, r.b, r.q, r.d])
  {
    WeightsOfRoles(r);
    hide IsWalk, Cost, CostTo, MayAnswer, WeightsOf, Roles.Matrix;
    var g, p := WeightsOf(r.Matrix()), [r.a, r.b, r.q, r.d];
    ThreeHops(g, r.a, r.b, r.q, r.d);
    ShortestByPotential(g, v => if v in {r.a, r.b} then 2 else if v == r.d then 0 else 1, p, r.a, r.d);
    forall i, y {:trigger Overtakes(g, p, i, y)} | 0 <= i < |p| - 1 ensures !Overtakes(g, p, i, y) {
      NotOvertaken(g, p, i, y);
    }
    FirstIsAnswered(r.Matrix(), r.a, r.d, p);
  }

  lemma SwappedMatrix(r: Roles)
    requires r.Distinct()
    ensures r.Swapped().Distinct() && r.Swapped().Matrix() == r.Matrix()
  {
  }

  lemma NodesDiffer()
    ensures Roles(NODE_A, NODE_B, NODE_P, NODE_Q, NODE_D).Distinct()
  {
    assert NODE_A.name[0] == 0 && NODE_B.name[0] == 1 && NODE_P.name[0] == 2 && NODE_Q.name[0] == 3;
    assert NODE_X.name[0] == 4 && NODE_D.name[0] == 5;
  }

  /** Positivity is needed: over this matrix, which routes to D from everywhere, a search at A may answer B,
      and a search at B may answer A. */
  lemma ZeroWeightsMayLoop()
    ensures var m := Roles(NODE_A, NODE_B, NODE_P, NODE_Q, NODE_D).Matrix();
            && MayAnswer(m, NODE_A, NODE_D, [NODE_A, NODE_B, NODE_Q, NODE_D])
            && MayAnswer(m, NODE_B, NODE_D, [NODE_B, NODE_A, NODE_P, NODE_D])
            && FreeRings.Handed(m, NODE_D, [NODE_A, NODE_B, NODE_A])
  {
    hide MayAnswer, Roles.Matrix, FreeRings.Handed;
    var r := Roles(NODE_A, NODE_B, NODE_P, NODE_Q, NODE_D);
    NodesDiffer();
    SwappedMatrix(r);
    AnswersOther(r);
    AnswersOther(r.Swapped());
    BackAndForth(r.Matrix(), NODE_D, [NODE_A, NODE_B, NODE_Q, NODE_D], [NODE_B, NODE_A, NODE_P, NODE_D]);
  }

  lemma BackAndForth(m: Entries, dest: Node, p: seq<Node>, q: seq<Node>)
    requires |p| >= 2 && |q| >= 2 && p[0] == q[1] && q[0] == p[1] && p[0] != dest && q[0] != dest
    requires MayAnswer(m, p[0], dest, p) && MayAnswer(m, q[0], dest, q)
    ensures FreeRings.Handed(m, dest, [p[0], q[0], p[0]])
  {
    hide MayAnswer;
    var u, v := p[0], q[0];
    assert [u, v, u][..2] == [u, v] && [u, v][..1] == [u];
    assert MayAnswerHop(m, u, dest, v) && MayAnswerHop(m, v, dest, u);
    assert FreeRings.Handed(m, dest, [u]);
    assert FreeRings.Handed(m, dest, [u, v]);
  }

  // ----- a free ring that no search goes round -----

  /** As before, but what `b` offers is expanded too late: `q` is farther than `p`. */
  function OneSided(): Weights {
    map[(NODE_A, NODE_B) := 0, (NODE_B, NODE_A) := 0, (NODE_A, NODE_P) := 1, (NODE_P, NODE_D) := 2,
        (NODE_B, NODE_Q) := 2, (NODE_Q, NODE_D) := 1]
  }

  lemma OneSidedExits()
    ensures OneSided().Keys >= {(NODE_A, NODE_B), (NODE_B, NODE_A)}
    ensures IsShortest(OneSided(), [NODE_A, NODE_P, NODE_D], NODE_A, NODE_D)
    ensures IsShortest(OneSided(), [NODE_B, NODE_Q, NODE_D], NODE_B, NODE_D)
    ensures Cost(OneSided(), [NODE_A, NODE_P, NODE_D]) == Cost(OneSided(), [NODE_B, NODE_Q, NODE_D]) == 3
    ensures IsWalk(OneSided(), [NODE_A, NODE_B, NODE_A]) && Cost(OneSided(), [NODE_A, NODE_B, NODE_A]) == 0
  {
    NodesDiffer();
    hide IsWalk, Cost;
    var g := OneSided();
    var phi := (v: Node) =>
      if v in {NODE_A, NODE_B} then 3 else if v == NODE_P then 2 else if v == NODE_Q then 1 else 0;
    TwoHops(g, NODE_A, NODE_B, NODE_A);
    TwoHops(g, NODE_A, NODE_P, NODE_D);
    TwoHops(g, NODE_B, NODE_Q, NODE_D);
    ShortestByPotential(g, phi, [NODE_A, NODE_P, NODE_D], NODE_A, NODE_D);
    ShortestByPotential(g, phi, [NODE_B, NODE_Q, NODE_D], NODE_B, NODE_D);
  }

  lemma OneSidedRing()
    ensures FreeRings.FreeRing(OneSided(), NODE_D, [NODE_A, NODE_B, NODE_A], 1)
  {
    NodesDiffer();
    OneSidedExits();
    hide IsWalk, Cost, OneSided, IsShortest;
    var g, ring := OneSided(), [NODE_A, NODE_B, NODE_A];
    assert FreeRings.IsExit(g, NODE_D, ring, NODE_A, [NODE_A, NODE_P, NODE_D]);
    assert FreeRings.IsExit(g, NODE_D, ring, NODE_B, [NODE_B, NODE_Q, NODE_D]);
    assert ring[..2] == [NODE_A, NODE_B];
  }

  /** P, at distance 1, overtakes Q, at distance 2, on the way to D. */
  lemma OneSidedAnswer(p: seq<Node>)
    requires IsAnswer(OneSided(), NODE_A, NODE_D, p) && |p| >= 2
    ensures p[1] != NODE_B
  {
    NodesDiffer();
    var g := OneSided();
    if p[1] == NODE_B {
      EdgeAt(g, p, 1);
      assert p[0] != p[2];
      EdgeAt(g, p, 2);
      assert p[3] == NODE_D == p[|p| - 1];
      assert p == [NODE_A, NODE_B, NODE_Q, NODE_D];
      OneSidedOvertakes();
    }
  }

  /** Every step of a walk is an edge. */
  lemma EdgeAt(g: Weights, p: seq<Node>, i: nat)
    requires IsWalk(g, p) && i < |p|
    ensures i + 1 < |p| ==> (p[i], p[i + 1]) in g
  {
    if i + 1 < |p| {
      CostToNext(g, p, i);
    }
  }

  lemma OneSidedOvertakes()
    ensures IsWalk(OneSided(), [NODE_A, NODE_B, NODE_Q, NODE_D])
    ensures Overtakes(OneSided(), [NODE_A, NODE_B, NODE_Q, NODE_D], 2, NODE_P)
  {
    NodesDiffer();
    hide IsWalk, Cost, CostTo;
    var g := OneSided();
    ThreeHops(g, NODE_A, NODE_B, NODE_Q, NODE_D);
    TwoHops(g, NODE_A, NODE_P, NODE_D);
    ShortestByPotential(g, v => if v in {NODE_A, NODE_B} then 1 else 0, [NODE_A, NODE_P], NODE_A, NODE_P);
  }

  /** A free ring need not be an answer ring: here no search at A answers B, so no payload comes back. */
  lemma FreeRingMayNotTurn()
    ensures FreeRings.HasFreeRing(OneSided(), NODE_D) && !FreeRings.HasAnswerRing(OneSided(), NODE_D)
  {
    OneSidedRing();
    forall ring ensures !FreeRings.AnswerRing(OneSided(), NODE_D, ring) {
      NotRound(ring);
    }
  }

  lemma FreeStep(ring: seq<Node>, i: nat)
    requires IsWalk(OneSided(), ring) && Cost(OneSided(), ring) == 0 && i + 1 < |ring|
    ensures (ring[i], ring[i + 1]) in {(NODE_A, NODE_B), (NODE_B, NODE_A)}
  {
    NodesDiffer();
    FreeRings.FreeStretch(OneSided(), ring, i, i + 1);
    var step := ring[i..i + 2];
    assert step[..1] == [ring[i]];
  }

  lemma NoHopToB()
    ensures !AnswerHop(OneSided(), NODE_A, NODE_D, NODE_B)
  {
    hide IsAnswer;
    forall p | IsAnswer(OneSided(), NODE_A, NODE_D, p) && |p| >= 2 ensures p[1] != NODE_B {
      OneSidedAnswer(p);
    }
  }

  lemma NotRound(ring: seq<Node>)
    ensures !FreeRings.AnswerRing(OneSided(), NODE_D, ring)
  {
    hide AnswerHop, IsWalk, Cost;
    NoHopToB();
    if FreeRings.Closed(OneSided(), ring) && Cost(OneSided(), ring) == 0 {
      FreeStep(ring, 0);
      FreeStep(ring, 1);
      NodesDiffer();
      var k := if ring[0] == NODE_A then 0 else 1;
      assert ring[k] == NODE_A && ring[k + 1] == NODE_B;
    }
  }

  // ----- truncated microseconds -----

  function NodeAt(i: nat): Node {
    Node(seq(i, _ => 0))
  }

  /** The route of `n` hops N0, N1, ..., Nn. */
  function Chain(n: nat): (p: seq<Node>)
    ensures |p| == n + 1
  {
    seq(n + 1, (i: nat) => NodeAt(i))
  }

  /** Edges of 2999 ns along the chain, which are 2 us to the search. */
  function ChainEntries(n: nat): Entries {
    if n == 0 then map[] else ChainEntries(n - 1)[(NodeAt(n - 1), NodeAt(n)) := Measured(2999)]
  }

  /** And a detour by X, without fractions, that takes as many whole microseconds. */
  function Truncating(n: nat): Entries
    requires n >= 1
  {
    ChainEntries(n)[(NodeAt(0), NODE_X) := Measured(1000 * (2 * n - 1))][(NODE_X, NodeAt(n)) := Measured(1000)]
  }

  lemma NodesAtDiffer(i: nat, j: nat)
    ensures NodeAt(i) == NodeAt(j) <==> i == j
    ensures NodeAt(i) != NODE_X
  {
    assert |NodeAt(i).name| == i && |NodeAt(j).name| == j;
    assert NODE_X.name[0] == 4;
    assert i == 1 ==> NodeAt(i).name[0] == 0;
  }

  lemma {:induction false} ChainEdges(n: nat, k: (Node, Node))
    ensures k in ChainEntries(n) <==> exists i: nat :: i < n && k == (NodeAt(i), NodeAt(i + 1))
    ensures k in ChainEntries(n) ==> ChainEntries(n)[k] == Measured(2999)
  {
    hide NodeAt;
    if n > 0 {
      ChainEdges(n - 1, k);
    }
  }

  lemma TruncatingEdges(n: nat, k: (Node, Node))
    requires 1 <= n && 2 * n < U64_MAX
    ensures var g := WeightsOf(Truncating(n));
            && (k in g <==> (exists i: nat :: i < n && k == (NodeAt(i), NodeAt(i + 1)))
                            || k == (NodeAt(0), NODE_X) || k == (NODE_X, NodeAt(n)))
            && (k in g ==> g[k] == if k == (NodeAt(0), NODE_X) then 2 * n - 1 else if k.0 == NODE_X then 1 else 2)
  {
    NodesAtDiffer(0, n);
    ChainEdges(n, k);
    forall i: nat ensures NodeAt(i) != NODE_X {
      NodesAtDiffer(i, i);
    }
    hide NodeAt;
  }

  lemma TruncatingEdge(n: nat, i: nat)
    requires 1 <= n && 2 * n < U64_MAX && i < n
    ensures (NodeAt(i), NodeAt(i + 1)) in WeightsOf(Truncating(n))
    ensures WeightsOf(Truncating(n))[(NodeAt(i), NodeAt(i + 1))] == 2
  {
    TruncatingEdges(n, (NodeAt(i), NodeAt(i + 1)));
    NodesAtDiffer(i, i);
    NodesAtDiffer(i + 1, i + 1);
    hide NodeAt;
  }

  lemma {:induction false} ChainCost(n: nat, i: nat)
    requires 1 <= n && 2 * n < U64_MAX && i <= n
    ensures IsWalk(WeightsOf(Truncating(n)), Chain(i)) && Cost(WeightsOf(Truncating(n)), Chain(i)) == 2 * i
    ensures NanosAlong(Truncating(n), Chain(i)) == 2999 * i
  {
    hide NodeAt, Truncating;
    var g := WeightsOf(Truncating(n));
    if i == 0 {
      OneNode(g, NodeAt(0));
      assert Chain(0) == [NodeAt(0)];
    } else {
      ChainCost(n, i - 1);
      TruncatingEdge(n, i - 1);
      Snoc(g, Chain(i - 1), NodeAt(i));
      assert Chain(i) == Chain(i - 1) + [NodeAt(i)];
      assert Chain(i)[..i] == Chain(i - 1);
      ChainNanos(n, i - 1);
    }
  }

  lemma ChainNanos(n: nat, i: nat)
    requires i < n
    ensures (NodeAt(i), NodeAt(i + 1)) in Truncating(n)
    ensures Truncating(n)[(NodeAt(i), NodeAt(i + 1))].smoothedRtt == 2999
  {
    ChainEdges(n, (NodeAt(i), NodeAt(i + 1)));
    NodesAtDiffer(i, i);
    NodesAtDiffer(i + 1, i + 1);
    hide NodeAt;
  }

  /** What the drop to the end of the chain is from each node. */
  function Drop(n: nat, v: Node): nat {
    if v == NODE_X then 1 else if |v.name| <= n then 2 * (n - |v.name|) else 0
  }

  lemma DropsFit(n: nat, k: (Node, Node))
    requires 1 <= n && 2 * n < U64_MAX && k in WeightsOf(Truncating(n))
    ensures Drop(n, k.0) <= WeightsOf(Truncating(n))[k] + Drop(n, k.1)
  {
    TruncatingEdges(n, k);
    forall i: nat ensures NodeAt(i) != NODE_X {
      NodesAtDiffer(i, i);
    }
    hide Truncating;
  }

  lemma ChainIsAnswered(n: nat)
    requires 1 <= n && 2 * n < U64_MAX
    ensures MayAnswer(Truncating(n), NodeAt(0), NodeAt(n), Chain(n))
  {
    hide Truncating, MayAnswer;
    var g, p := WeightsOf(Truncating(n)), Chain(n);
    ChainCost(n, n);
    forall k | k in g ensures Drop(n, k.0) <= g[k] + Drop(n, k.1) {
      DropsFit(n, k);
    }
    NodesAtDiffer(0, 0);
    NodesAtDiffer(n, n);
    ShortestByPotential(g, v => Drop(n, v), p, NodeAt(0), NodeAt(n));
    forall i, j | 0 <= i < j < |p| ensures p[i] != p[j] {
      NodesAtDiffer(i, j);
    }
    forall i, y {:trigger Overtakes(g, p, i, y)} | 0 <= i < |p| - 1 ensures !Overtakes(g, p, i, y) {
      ChainNotOvertaken(n, i, y);
    }
    FirstIsAnswered(Truncating(n), NodeAt(0), NodeAt(n), p);
  }

  lemma ChainNotOvertaken(n: nat, i: nat, y: Node)
    requires 1 <= n && 2 * n < U64_MAX && i < n && IsWalk(WeightsOf(Truncating(n)), Chain(n))
    ensures !Overtakes(WeightsOf(Truncating(n)), Chain(n), i, y)
  {
    var g, p := WeightsOf(Truncating(n)), Chain(n);
    ChainCost(n, i);
    ChainCost(n, i + 1);
    assert p[..i + 1] == Chain(i) && p[..i + 2] == Chain(i + 1);
    TruncatingEdges(n, (y, NodeAt(i + 1)));
    NodesAtDiffer(i + 1, 0);
    hide IsWalk, Cost, Truncating;
    forall j: nat ensures NodeAt(j) == NodeAt(i + 1) <==> j == i + 1 {
      NodesAtDiffer(j, i + 1);
    }
    forall j: nat ensures NodeAt(j) == NodeAt(i) <==> j == i {
      NodesAtDiffer(j, i);
    }
    forall j: nat ensures NodeAt(j) != NODE_X {
      NodesAtDiffer(j, j);
    }
    NotOvertaken(g, p, i, y);
  }

  /** The bound of `SubMicrosecondRegret` is met for every number of hops: the search answers a route of `n` hops
      that is 999 ns a hop slower than another. */
  lemma RegretIsMet(n: nat)
    requires 1 <= n && 2 * n < U64_MAX
    ensures var (m, detour) := (Truncating(n), [NodeAt(0), NODE_X, NodeAt(n)]);
            && FitsU64(m) && MayAnswer(m, NodeAt(0), NodeAt(n), Chain(n)) && |Chain(n)| == n + 1
            && Joins(WeightsOf(m), detour, NodeAt(0), NodeAt(n))
            && NanosAlong(m, Chain(n)) == NanosAlong(m, detour) + 999 * n
  {
    ChainIsAnswered(n);
    ChainCost(n, n);
    DetourCost(n);
    hide MayAnswer, NanosAlong;
    forall k | k in Truncating(n) ensures WholeMicros(Truncating(n)[k].smoothedRtt) < U64 {
      ChainEdges(n, k);
    }
  }

  lemma DetourCost(n: nat)
    requires 1 <= n && 2 * n < U64_MAX
    ensures Joins(WeightsOf(Truncating(n)), [NodeAt(0), NODE_X, NodeAt(n)], NodeAt(0), NodeAt(n))
    ensures NanosAlong(Truncating(n), [NodeAt(0), NODE_X, NodeAt(n)]) == 2000 * n
  {
    var u, v := NodeAt(0), NodeAt(n);
    NodesAtDiffer(0, n);
    NodesAtDiffer(n, n);
    TwoHops(WeightsOf(Truncating(n)), u, NODE_X, v);
    assert [u, NODE_X, v][..2] == [u, NODE_X] && [u, NODE_X][..1] == [u];
    assert NanosAlong(Truncating(n), [u]) == 0;
    assert NanosAlong(Truncating(n), [u, NODE_X]) == 1000 * (2 * n - 1);
  }
}
