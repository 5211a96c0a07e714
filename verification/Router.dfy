/** `MeshRouter`: next hops and ranked alternatives over a snapshot of the latency matrix. */
module Router {
  import opened Bytes
  import opened Graph
  import opened Matrix
  import opened Search

  datatype RouteEntry = RouteEntry(nextHop: Node, totalRtt: Nanos, path: seq<Node>)

  type Entries = map<(Node, Node), LatencyEntry>

  /** Untruncated round-trip time along a walk. */
  ghost function NanosAlong(m: Entries, p: seq<Node>): Nanos {
    if |p| < 2 then 0
    else NanosAlong(m, p[..|p| - 1]) +
         (if (p[|p| - 2], p[|p| - 1]) in m then m[(p[|p| - 2], p[|p| - 1])].smoothedRtt else 0)
  }

  /** A next-hop answer: a cheapest route, without repeated nodes, and its untruncated time. */
  ghost predicate IsBestRoute(m: Entries, local: Node, dest: Node, r: RouteEntry) {
    var g := WeightsOf(m);
    && IsShortest(g, r.path, local, dest) && Cost(g, r.path) < U64_MAX
    && NoRepeats(r.path) && |r.path| >= 2
    && r.nextHop == r.path[1]
    && r.totalRtt == NanosAlong(m, r.path)
  }

  /** A walk whose first edge is the one from `local` to `via`; it may come back to `local` later. */
  ghost predicate LeavesVia(g: Weights, p: seq<Node>, local: Node, via: Node, dest: Node) {
    Joins(g, p, local, dest) && |p| >= 2 && p[1] == via
  }

  ghost predicate ReachesVia(g: Weights, local: Node, via: Node, dest: Node) {
    exists p :: LeavesVia(g, p, local, via, dest) && Cost(g, p) < U64_MAX
  }

  /** A ranked alternative: cheapest among all walks that leave through its own next hop. */
  ghost predicate IsBestVia(g: Weights, local: Node, dest: Node, r: RouteEntry) {
    && LeavesVia(g, r.path, local, r.nextHop, dest)
    && (forall p :: LeavesVia(g, p, local, r.nextHop, dest) ==> Cost(g, r.path) <= Cost(g, p))
    && r.totalRtt == 1000 * Cost(g, r.path)
    && NoRepeats(r.path[1..])
  }

  /** `p` leaves through a neighbour that has no entry in `rs`. */
  ghost predicate Uncovered(g: Weights, local: Node, dest: Node, rs: seq<RouteEntry>, p: seq<Node>) {
    && Joins(g, p, local, dest) && |p| >= 2 && Cost(g, p) < U64_MAX
    && (forall i :: 0 <= i < |rs| ==> rs[i].nextHop != p[1])
  }

  ghost predicate DistinctHops(rs: seq<RouteEntry>) {
    forall i, j :: 0 <= i < j < |rs| ==> rs[i].nextHop != rs[j].nextHop
  }

  ghost predicate Ascending(rs: seq<RouteEntry>) {
    forall i, j :: 0 <= i < j < |rs| ==> rs[i].totalRtt <= rs[j].totalRtt
  }

  /** The best `n` alternatives: nothing left out is cheaper, and nothing is left out unless `n` are kept. */
  ghost predicate IsRanking(g: Weights, local: Node, dest: Node, n: nat, rs: seq<RouteEntry>) {
    && |rs| <= n && DistinctHops(rs) && Ascending(rs)
    && (forall i :: 0 <= i < |rs| ==> IsBestVia(g, local, dest, rs[i]))
    && (forall p :: Uncovered(g, local, dest, rs, p) ==>
          |rs| == n && forall i :: 0 <= i < |rs| ==> rs[i].totalRtt <= 1000 * Cost(g, p))
  }

  // ----- what a finished search means for the router -----

  lemma ListedDenotes(edges: seq<Edge>, m: Entries)
    requires ListsOnce(edges, m)
    ensures Denotes(edges, WeightsOf(m))
  {
  }

  lemma WeightOf(m: Entries, u: Node, v: Node)
    ensures (u, v) in WeightsOf(m) <==> (u, v) in m
    ensures (u, v) in m ==> WeightsOf(m)[(u, v)] == Micros(m[(u, v)].smoothedRtt) <= U64_MAX
  {
  }

  lemma FoundIsBest(q: Problem, s: Progress, dest: Node)
    requires Found(q, s, dest) && q.startCost == 0
    ensures dest in s.tree <==> Reaches(q.g, q.start, dest)
    ensures dest in s.tree ==>
      IsShortest(q.g, s.tree[dest], q.start, dest) && Cost(q.g, s.tree[dest]) < U64_MAX && NoRepeats(s.tree[dest])
  {
    if dest in s.tree {
      assert Branch(q, s, dest) && Branch(q, s, q.start);
      assert Joins(q.g, s.tree[dest], q.start, dest);
    }
  }

  /** Some search, with some listing of the edges and some order among ties, ends with `path`. */
  ghost predicate MayAnswer(m: Entries, local: Node, dest: Node, path: seq<Node>) {
    exists edges, s ::
      && ListsOnce(edges, m) && Searched(edges, dest, Initial(Ends(m), local, 0), s)
      && dest in s.tree && s.tree[dest] == path
  }

  /** Whatever a search may answer is a best route. */
  lemma AnswerIsBest(m: Entries, local: Node, dest: Node, path: seq<Node>)
    requires MayAnswer(m, local, dest, path)
    ensures IsShortest(WeightsOf(m), path, local, dest) && Cost(WeightsOf(m), path) < U64_MAX && NoRepeats(path)
  {
    hide Found, Searched;
    var edges, s :| ListsOnce(edges, m) && Searched(edges, dest, Initial(Ends(m), local, 0), s)
                    && dest in s.tree && s.tree[dest] == path;
    var q := Problem(WeightsOf(m), local, 0);
    ListedDenotes(edges, m);
    SearchedIsFound(q, edges, Ends(m), dest, s);
    FoundIsBest(q, s, dest);
  }

  lemma FoundViaIsBest(q: Problem, s: Progress, local: Node, dest: Node)
    requires Found(q, s, dest) && (local, q.start) in q.g && q.startCost == q.g[(local, q.start)] <= U64_MAX
    ensures dest in s.tree <==>
      (q.start == dest || ReachesVia(q.g, local, q.start, dest))
    ensures dest in s.tree <==> dest in s.prev || q.start == dest
    ensures dest in s.tree ==>
      IsBestVia(q.g, local, dest, RouteEntry(q.start, 1000 * s.D(dest), [local] + s.tree[dest]))
  {
    var via := q.start;
    forall p | LeavesVia(q.g, p, local, via, dest)
      ensures Cost(q.g, p) < U64_MAX ==> dest in s.tree
      ensures dest in s.tree ==> s.D(dest) <= Cost(q.g, p)
    {
      Uncons(q.g, p);
      assert Joins(q.g, p[1..], via, dest);
      if dest in s.tree {
        assert Branch(q, s, dest);
      }
    }
    if dest in s.tree {
      assert Branch(q, s, dest);
      Cons(q.g, local, s.tree[dest]);
      var path := [local] + s.tree[dest];
      assert path[1..] == s.tree[dest];
      assert LeavesVia(q.g, path, local, via, dest) && Cost(q.g, path) == s.D(dest);
    }
  }

  // ----- ranking -----

  /** Where the stable sort puts `r`: behind every entry that is no slower. */
  function Position(rs: seq<RouteEntry>, r: RouteEntry): (k: nat)
    ensures k <= |rs|
  {
    if rs == [] || r.totalRtt < rs[0].totalRtt then 0 else 1 + Position(rs[1..], r)
  }

  lemma {:induction false} PositionSplits(rs: seq<RouteEntry>, r: RouteEntry)
    requires Ascending(rs)
    ensures forall i :: 0 <= i < Position(rs, r) ==> rs[i].totalRtt <= r.totalRtt
    ensures forall i :: Position(rs, r) <= i < |rs| ==> r.totalRtt < rs[i].totalRtt
  {
    if !(rs == [] || r.totalRtt < rs[0].totalRtt) {
      var tail := rs[1..];
      PositionSplits(tail, r);
      forall i | 0 <= i < |rs|
        ensures i < Position(rs, r) ==> rs[i].totalRtt <= r.totalRtt
        ensures Position(rs, r) <= i ==> r.totalRtt < rs[i].totalRtt
      {
        if i > 0 { assert rs[i] == tail[i - 1]; }
      }
    }
  }

  lemma InsertionKeepsOrder(rs: seq<RouteEntry>, r: RouteEntry, k: nat)
    requires Ascending(rs) && k == Position(rs, r)
    ensures Ascending(rs[..k] + [r] + rs[k..])
  {
    PositionSplits(rs, r);
    var rs' := rs[..k] + [r] + rs[k..];
    assert forall i :: 0 <= i < |rs'| ==> rs'[i] == if i < k then rs[i] else if i == k then r else rs[i - 1];
  }

  lemma InsertionKeepsElements(rs: seq<RouteEntry>, all: seq<RouteEntry>, i: nat, k: nat)
    requires i < |all| && k <= |rs| && multiset(rs) == multiset(all[..i])
    ensures multiset(rs[..k] + [all[i]] + rs[k..]) == multiset(all[..i + 1])
  {
    assert all[..i + 1] == all[..i] + [all[i]];
    assert rs == rs[..k] + rs[k..];
  }

  lemma InsertionKeepsDistinct(rs: seq<RouteEntry>, all: seq<RouteEntry>, i: nat, k: nat)
    requires DistinctHops(all) && DistinctHops(rs) && i < |all| && k <= |rs|
    requires multiset(rs) == multiset(all[..i])
    ensures DistinctHops(rs[..k] + [all[i]] + rs[k..])
  {
    forall j | 0 <= j < |rs| ensures rs[j].nextHop != all[i].nextHop {
      assert rs[j] in multiset(all[..i]);
    }
  }

  method Insert(rs: seq<RouteEntry>, ghost all: seq<RouteEntry>, ghost i: nat, r: RouteEntry)
    returns (longer: seq<RouteEntry>)
    requires Ascending(rs) && i < |all| && r == all[i] && multiset(rs) == multiset(all[..i])
    ensures Ascending(longer) && multiset(longer) == multiset(all[..i + 1])
    ensures DistinctHops(all) && DistinctHops(rs) ==> DistinctHops(longer)
  {
    hide Ascending, DistinctHops;
    var k := Position(rs, r);
    InsertionKeepsElements(rs, all, i, k);
    InsertionKeepsOrder(rs, r, k);
    if DistinctHops(all) && DistinctHops(rs) {
      InsertionKeepsDistinct(rs, all, i, k);
    }
    longer := rs[..k] + [r] + rs[k..];
  }

  method SortByRtt(rs: seq<RouteEntry>) returns (sorted: seq<RouteEntry>)
    ensures Ascending(sorted)
    ensures multiset(sorted) == multiset(rs)
    ensures DistinctHops(rs) ==> DistinctHops(sorted)
  {
    sorted := [];
    assert Ascending(sorted) && DistinctHops(sorted);
    hide Ascending, DistinctHops;
    for i := 0 to |rs|
      invariant Ascending(sorted)
      invariant multiset(sorted) == multiset(rs[..i])
      invariant DistinctHops(rs) ==> DistinctHops(sorted)
    {
      sorted := Insert(sorted, rs, i, rs[i]);
    }
    assert rs[..|rs|] == rs;
  }

  lemma BestViaBound(g: Weights, local: Node, dest: Node, r: RouteEntry, p: seq<Node>)
    requires IsBestVia(g, local, dest, r) && LeavesVia(g, p, local, r.nextHop, dest)
    ensures r.totalRtt <= 1000 * Cost(g, p)
  {
  }

  lemma PermutationKeepsBest(g: Weights, local: Node, dest: Node, all: seq<RouteEntry>, sorted: seq<RouteEntry>)
    requires forall i :: 0 <= i < |all| ==> IsBestVia(g, local, dest, all[i])
    requires multiset(sorted) == multiset(all)
    ensures forall i :: 0 <= i < |sorted| ==> IsBestVia(g, local, dest, sorted[i])
  {
    hide IsBestVia;
    forall i | 0 <= i < |sorted| ensures IsBestVia(g, local, dest, sorted[i]) {
      assert sorted[i] in multiset(all);
    }
  }

  lemma TruncationRanks(g: Weights, local: Node, dest: Node, n: nat, all: seq<RouteEntry>,
                        sorted: seq<RouteEntry>, kept: seq<RouteEntry>)
    requires forall i :: 0 <= i < |all| ==> IsBestVia(g, local, dest, all[i])
    requires forall p :: !Uncovered(g, local, dest, all, p)
    requires multiset(sorted) == multiset(all) && Ascending(sorted) && DistinctHops(sorted)
    requires kept == if |sorted| > n then sorted[..n] else sorted
    ensures IsRanking(g, local, dest, n, kept)
  {
    hide IsBestVia;
    PermutationKeepsBest(g, local, dest, all, sorted);
    forall p | Uncovered(g, local, dest, kept, p)
      ensures |kept| == n && forall i :: 0 <= i < |kept| ==> kept[i].totalRtt <= 1000 * Cost(g, p)
    {
      assert !Uncovered(g, local, dest, all, p);
      var j :| 0 <= j < |all| && all[j].nextHop == p[1];
      assert all[j] in multiset(sorted);
      var k :| 0 <= k < |sorted| && sorted[k] == all[j];
      BestViaBound(g, local, dest, sorted[k], p);
    }
  }

  lemma UncoveredStartsOnEdge(m: Entries, local: Node, dest: Node, rs: seq<RouteEntry>, p: seq<Node>)
    requires Uncovered(WeightsOf(m), local, dest, rs, p)
    ensures |p| >= 2 && (local, p[1]) in m
  {
    Uncons(WeightsOf(m), p);
  }

  /** Once `via` is tried, no uncovered walk leaves through it. */
  lemma UncoveredShrinks(g: Weights, local: Node, dest: Node, before: seq<RouteEntry>, after: seq<RouteEntry>,
                         via: Node, p: seq<Node>)
    requires Uncovered(g, local, dest, after, p)
    requires after == before ||
      (|after| == |before| + 1 && after[..|before|] == before && after[|before|].nextHop == via)
    requires after == before ==> !ReachesVia(g, local, via, dest)
    ensures Uncovered(g, local, dest, before, p) && p[1] != via
  {
    forall i | 0 <= i < |before| ensures before[i].nextHop != p[1] {
      assert before[i] == after[i];
    }
    assert p[1] == via ==> LeavesVia(g, p, local, via, dest);
  }

  class MeshRouter {
    const localNode: Node
    const matrix: LatencyMatrix

    constructor (localNode: Node, matrix: LatencyMatrix)
      ensures this.localNode == localNode && this.matrix == matrix
    {
      this.localNode := localNode;
      this.matrix := matrix;
    }

    method NextHop(dest: Node) returns (r: Option<RouteEntry>)
      ensures r.Some? <==> dest != localNode && Reaches(WeightsOf(matrix.entries), localNode, dest)
      ensures r.Some? ==>
        IsBestRoute(matrix.entries, localNode, dest, r.value)
        && MayAnswer(matrix.entries, localNode, dest, r.value.path)
    {
      if dest == localNode {
        return None;
      }
      var path := Dijkstra(dest);
      if path.None? {
        return None;
      }
      if |path.value| < 2 {
        return None;
      }
      var totalRtt := PathCost(path.value);
      return Some(RouteEntry(path.value[1], totalRtt, path.value));
    }

    method Dijkstra(dest: Node) returns (path: Option<seq<Node>>)
      ensures path.Some? <==> Reaches(WeightsOf(matrix.entries), localNode, dest)
      ensures path.Some? ==> var g := WeightsOf(matrix.entries);
        IsShortest(g, path.value, localNode, dest) && Cost(g, path.value) < U64_MAX && NoRepeats(path.value)
        && MayAnswer(matrix.entries, localNode, dest, path.value)
    {
      ghost var g := WeightsOf(matrix.entries);
      var edges := matrix.AllEdges();
      var nodes := matrix.Nodes();
      ListedDenotes(edges, matrix.entries);
      var dist, prev, s := Run(edges, nodes, dest, localNode, 0, g);
      ghost var q := Problem(g, localNode, 0);
      var back := Backtrack(prev, dest, localNode, q, s);
      FoundIsBest(q, s, dest);
      if back.None? {
        return None;
      }
      return Some(Reversed(back.value));
    }

    method DijkstraVia(via: Node, dest: Node) returns (r: Option<RouteEntry>)
      ensures r.Some? <==>
        ((localNode, via) in matrix.entries &&
         (via == dest || ReachesVia(WeightsOf(matrix.entries), localNode, via, dest)))
      ensures r.Some? ==> r.value.nextHop == via && IsBestVia(WeightsOf(matrix.entries), localNode, dest, r.value)
    {
      hide IsBestVia, ReachesVia, TreeOk, WeightsOf;
      ghost var g := WeightsOf(matrix.entries);
      var firstHopCost := matrix.GetRtt(localNode, via);
      if firstHopCost.None? {
        return None;
      }
      var edges := matrix.AllEdges();
      var nodes := matrix.Nodes();
      ListedDenotes(edges, matrix.entries);
      var initialCost := Micros(firstHopCost.value);
      WeightOf(matrix.entries, localNode, via);
      var dist, prev, s := Run(edges, nodes, dest, via, initialCost, g);
      ghost var q := Problem(g, via, initialCost);
      FoundViaIsBest(q, s, localNode, dest);
      if dest !in prev && via != dest {
        return None;
      }
      var back := Backtrack(prev, dest, via, q, s);
      if back.None? {
        return None;
      }
      ReversedSnoc(back.value, localNode);
      var path := Reversed(back.value + [localNode]);
      assert path[1..] == s.tree[dest];
      return Some(RouteEntry(via, 1000 * DistOf(dist, dest), path));
    }

    method PathCost(path: seq<Node>) returns (total: Nanos)
      ensures total == NanosAlong(matrix.entries, path)
    {
      total := 0;
      if |path| < 2 {
        return;
      }
      for i := 0 to |path| - 1
        invariant total == NanosAlong(matrix.entries, path[..i + 1])
      {
        assert path[..i + 2][..i + 1] == path[..i + 1];
        var rtt := matrix.GetRtt(path[i], path[i + 1]);
        if rtt.Some? {
          total := total + rtt.value;
        }
      }
      assert path[..|path|] == path;
    }

    method Neighbors() returns (neighbors: set<Node>)
      ensures forall v :: v in neighbors <==> (localNode, v) in matrix.entries
    {
      var edges := matrix.AllEdges();
      neighbors := {};
      for i := 0 to |edges|
        invariant forall v :: v in neighbors <==>
          exists j :: 0 <= j < i && edges[j].from == localNode && edges[j].to == v
      {
        if edges[i].from == localNode {
          neighbors := neighbors + {edges[i].to};
        }
      }
    }

    method TopPaths(dest: Node, n: nat) returns (routes: seq<RouteEntry>)
      ensures dest == localNode ==> routes == []
      ensures dest != localNode ==> IsRanking(WeightsOf(matrix.entries), localNode, dest, n, routes)
    {
      if dest == localNode {
        return [];
      }
      hide IsBestVia, ReachesVia, Uncovered, WeightsOf;
      ghost var g := WeightsOf(matrix.entries);
      var neighbors := Neighbors();
      routes := [];
      forall p | Uncovered(g, localNode, dest, routes, p) ensures p[1] in neighbors {
        UncoveredStartsOnEdge(matrix.entries, localNode, dest, routes, p);
      }
      var todo := neighbors;
      while todo != {}
        invariant todo <= neighbors
        invariant forall i :: 0 <= i < |routes| ==>
          routes[i].nextHop in neighbors - todo && IsBestVia(g, localNode, dest, routes[i])
        invariant DistinctHops(routes)
        invariant forall p :: Uncovered(g, localNode, dest, routes, p) ==> |p| >= 2 && p[1] in todo
      {
        var via :| via in todo;
        todo := todo - {via};
        var r := DijkstraVia(via, dest);
        ghost var before := routes;
        if r.Some? {
          routes := routes + [r.value];
        }
        forall p | Uncovered(g, localNode, dest, routes, p) ensures |p| >= 2 && p[1] in todo {
          UncoveredShrinks(g, localNode, dest, before, routes, via, p);
        }
      }
      ghost var all := routes;
      routes := SortByRtt(routes);
      ghost var sorted := routes;
      if |routes| > n {
        routes := routes[..n];
      }
      TruncationRanks(g, localNode, dest, n, all, sorted, routes);
    }
  }

  // ----- properties -----

  /** The best-ranked alternative costs exactly what `NextHop`'s route costs. */
  lemma BestAlternativeAgreesWithNextHop(m: Entries, local: Node, dest: Node, n: nat, rs: seq<RouteEntry>,
                                         r: RouteEntry)
    requires local != dest && n >= 1
    requires IsRanking(WeightsOf(m), local, dest, n, rs) && IsBestRoute(m, local, dest, r)
    ensures |rs| >= 1 && rs[0].totalRtt == 1000 * Cost(WeightsOf(m), r.path)
  {
    var g := WeightsOf(m);
    if Uncovered(g, local, dest, rs, r.path) {
      assert LeavesVia(g, rs[0].path, local, rs[0].nextHop, dest);
    } else {
      var i :| 0 <= i < |rs| && rs[i].nextHop == r.path[1];
      assert LeavesVia(g, r.path, local, rs[i].nextHop, dest);
      assert rs[i].totalRtt <= 1000 * Cost(g, r.path);
      assert rs[0].totalRtt <= rs[i].totalRtt;
    }
    assert IsBestVia(g, local, dest, rs[0]);
    assert Joins(g, rs[0].path, local, dest);
  }

  /** No edge is so slow that its microsecond count leaves 64 bits. */
  ghost predicate FitsU64(m: Entries) {
    forall k :: k in m ==> WholeMicros(m[k].smoothedRtt) < U64
  }

  lemma {:induction false} NanosWithinCost(m: Entries, p: seq<Node>)
    requires IsWalk(WeightsOf(m), p) && FitsU64(m)
    ensures 1000 * Cost(WeightsOf(m), p) <= NanosAlong(m, p) <= 1000 * Cost(WeightsOf(m), p) + 999 * (|p| - 1)
    decreases |p|
  {
    if |p| > 1 {
      NanosWithinCost(m, p[..|p| - 1]);
      var d := m[(p[|p| - 2], p[|p| - 1])].smoothedRtt;
      assert d == 1000 * WholeMicros(d) + d % 1000;
    }
  }

  /** Comparing truncated microseconds costs at most 999 ns a hop against the true optimum. */
  lemma SubMicrosecondRegret(m: Entries, local: Node, dest: Node, r: RouteEntry, p: seq<Node>)
    requires FitsU64(m) && IsBestRoute(m, local, dest, r) && Joins(WeightsOf(m), p, local, dest)
    ensures r.totalRtt <= NanosAlong(m, p) + 999 * (|r.path| - 1)
    ensures 1000 * Cost(WeightsOf(m), r.path) <= r.totalRtt <= 1000 * Cost(WeightsOf(m), r.path) + 999 * (|r.path| - 1)
  {
    NanosWithinCost(m, p);
    NanosWithinCost(m, r.path);
  }
}
