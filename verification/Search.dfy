/** The heap search shared by `dijkstra` and `dijkstra_via`, and the backward walk over `prev`. */
module Search {
  import opened Bytes
  import opened Graph
  import opened Matrix

  /** The heap orders entries by cost alone, so ties are popped in any order. */
  datatype HeapEntry = HeapEntry(cost: nat, node: Node)

  /** `dist.get(v).unwrap_or(&u64::MAX)`. */
  function DistOf(dist: map<Node, nat>, v: Node): nat {
    if v in dist then dist[v] else U64_MAX
  }

  ghost predicate Denotes(edges: seq<Edge>, g: Weights) {
    && (forall i :: 0 <= i < |edges| ==>
          (edges[i].from, edges[i].to) in g && g[(edges[i].from, edges[i].to)] == Micros(edges[i].rtt))
    && (forall k :: k in g ==> exists i :: 0 <= i < |edges| && edges[i].from == k.0 && edges[i].to == k.1)
  }

  // ----- invariant -----

  /** One search: the weights, where it starts and what reaching the start already cost. */
  datatype Problem = Problem(g: Weights, start: Node, startCost: nat)

  /** The search's variables, with the nodes already expanded, the last popped cost and, for every node
      reached, the walk that `prev` spells out. */
  datatype Progress = Progress(dist: map<Node, nat>, prev: map<Node, Node>, heap: multiset<HeapEntry>,
                               settled: set<Node>, floor: nat, tree: map<Node, seq<Node>>)
  {
    ghost function D(v: Node): nat { DistOf(dist, v) }
  }

  ghost predicate Branch(q: Problem, s: Progress, v: Node)
    requires v in s.tree
  {
    && Joins(q.g, s.tree[v], q.start, v)
    && s.D(v) == q.startCost + Cost(q.g, s.tree[v]) <= U64_MAX
    && NoRepeats(s.tree[v])
    && (forall i :: 0 <= i < |s.tree[v]| - 1 ==> s.tree[v][i] in s.settled)
    && (v != q.start ==>
          && s.D(v) < U64_MAX
          && v in s.prev && s.prev[v] in s.settled && s.prev[v] in s.tree
          && s.tree[v] == s.tree[s.prev[v]] + [v])
  }

  ghost predicate TreeOk(q: Problem, s: Progress) {
    && q.start in s.tree && s.tree[q.start] == [q.start] && q.start !in s.prev
    && (forall v {:trigger Branch(q, s, v)} :: v in s.tree ==> Branch(q, s, v))
    && (forall v :: v !in s.tree ==> s.D(v) == U64_MAX && v !in s.prev)
  }

  ghost predicate HeapOk(s: Progress) {
    && (forall e :: e in s.heap ==>
          && e.node in s.tree && s.floor <= e.cost && s.D(e.node) <= e.cost
          && (e.node in s.settled ==> s.D(e.node) < e.cost))
    && (forall v :: v in s.tree && v !in s.settled ==> s.heap[HeapEntry(s.D(v), v)] == 1)
  }

  /** Settled nodes are final, and every edge out of one is relaxed, except those still in `open`. */
  ghost predicate SettledOk(g: Weights, s: Progress, open: set<(Node, Node)>) {
    && (forall v :: v in s.settled ==> v in s.tree && s.D(v) <= s.floor)
    && (forall k :: k in g && k.0 in s.settled && k !in open ==> s.D(k.1) <= SatAdd(s.D(k.0), g[k]))
  }

  ghost predicate Inv(q: Problem, s: Progress, open: set<(Node, Node)>) {
    TreeOk(q, s) && HeapOk(s) && SettledOk(q.g, s, open)
  }

  /** Nothing costs less than the frontier, unless it ends inside the settled nodes. */
  lemma {:induction false} FrontierBound(q: Problem, s: Progress, c: nat, p: seq<Node>)
    requires TreeOk(q, s) && SettledOk(q.g, s, {})
    requires c <= U64_MAX && forall x :: x in s.tree && x !in s.settled ==> c <= s.D(x)
    requires IsWalk(q.g, p) && p[0] == q.start
    ensures var v := p[|p| - 1];
            c <= q.startCost + Cost(q.g, p) || (v in s.settled && s.D(v) <= q.startCost + Cost(q.g, p))
    decreases |p|
  {
    if |p| == 1 {
      assert Branch(q, s, q.start);
    } else {
      var p', y, v := p[..|p| - 1], p[|p| - 2], p[|p| - 1];
      FrontierBound(q, s, c, p');
      if q.startCost + Cost(q.g, p') < c {
        assert (y, v) in q.g && y in s.settled;
        assert v !in s.tree ==> s.D(v) == U64_MAX;
      }
    }
  }

  /** The heap entry popped first for an unexpanded node carries the least cost of any walk to it. */
  lemma PoppedIsOptimal(q: Problem, s: Progress, e: HeapEntry, p: seq<Node>)
    requires Inv(q, s, {})
    requires e in s.heap && (forall f :: f in s.heap ==> e.cost <= f.cost) && e.node !in s.settled
    requires Joins(q.g, p, q.start, e.node)
    ensures e.cost == s.D(e.node) <= SatAdd(q.startCost, Cost(q.g, p))
  {
    forall x | x in s.tree && x !in s.settled ensures e.cost <= s.D(x) {
      assert HeapEntry(s.D(x), x) in s.heap;
    }
    assert Branch(q, s, e.node);
    FrontierBound(q, s, e.cost, p);
  }

  /** If the heap runs empty first, no walk to an unexpanded node costs less than infinity. */
  lemma EmptyHeapIsOptimal(q: Problem, s: Progress, target: Node, p: seq<Node>)
    requires Inv(q, s, {}) && s.heap == multiset{} && target !in s.settled && Joins(q.g, p, q.start, target)
    ensures s.D(target) <= SatAdd(q.startCost, Cost(q.g, p))
  {
    forall x | x in s.tree ensures x in s.settled {
      assert x !in s.settled ==> HeapEntry(s.D(x), x) in s.heap;
    }
    FrontierBound(q, s, U64_MAX, p);
  }

  lemma SettlingKeepsTree(q: Problem, s: Progress, s': Progress)
    requires TreeOk(q, s)
    requires s'.dist == s.dist && s'.prev == s.prev && s'.tree == s.tree && s.settled <= s'.settled
    ensures TreeOk(q, s')
  {
    forall v | v in s'.tree ensures Branch(q, s', v) {
      assert Branch(q, s, v);
    }
  }

  lemma PopKeepsHeap(s: Progress, e: HeapEntry)
    requires HeapOk(s) && e in s.heap && (forall f :: f in s.heap ==> e.cost <= f.cost)
    ensures e.cost > s.D(e.node) ==> HeapOk(s.(heap := s.heap - multiset{e}))
    ensures e.cost == s.D(e.node) ==>
      e.node !in s.settled &&
      HeapOk(s.(settled := s.settled + {e.node}, floor := e.cost, heap := s.heap - multiset{e}))
  {
    var heap' := s.heap - multiset{e};
    assert forall f :: heap'[f] == if f == e then s.heap[f] - 1 else s.heap[f];
    if e.cost == s.D(e.node) {
      assert e == HeapEntry(s.D(e.node), e.node);
    }
  }

  lemma SettleKeeps(q: Problem, s: Progress, e: HeapEntry)
    requires Inv(q, s, {})
    requires e in s.heap && (forall f :: f in s.heap ==> e.cost <= f.cost) && e.cost <= s.D(e.node)
    ensures e.cost == s.D(e.node) && e.node in s.tree && e.node !in s.settled
    ensures Inv(q, s.(settled := s.settled + {e.node}, floor := e.cost, heap := s.heap - multiset{e}),
                set k | k in q.g && k.0 == e.node)
  {
    var s' := s.(settled := s.settled + {e.node}, floor := e.cost, heap := s.heap - multiset{e});
    assert e.cost == s.D(e.node) && e.node in s.tree && s.floor <= e.cost;
    hide TreeOk, HeapOk, SettledOk;
    PopKeepsHeap(s, e);
    SettlingKeepsTree(q, s, s');
    SettlingKeepsSettled(q.g, s, e);
  }

  lemma SettlingKeepsSettled(g: Weights, s: Progress, e: HeapEntry)
    requires SettledOk(g, s, {}) && e.node in s.tree && s.D(e.node) == e.cost && s.floor <= e.cost
    ensures SettledOk(g, s.(settled := s.settled + {e.node}, floor := e.cost, heap := s.heap - multiset{e}),
                      set k | k in g && k.0 == e.node)
  {
  }

  lemma StaleKeeps(q: Problem, s: Progress, e: HeapEntry)
    requires Inv(q, s, {}) && e in s.heap && e.cost > s.D(e.node) && (forall f :: f in s.heap ==> e.cost <= f.cost)
    ensures Inv(q, s.(heap := s.heap - multiset{e}), {})
  {
    SettlingKeepsTree(q, s, s.(heap := s.heap - multiset{e}));
    PopKeepsHeap(s, e);
  }

  /** An edge that improves nothing is simply done with. */
  lemma SkipKeeps(q: Problem, s: Progress, open: set<(Node, Node)>, u: Node, x: Node)
    requires Inv(q, s, open) && s.D(u) == s.floor && (u, x) in q.g && SatAdd(s.floor, q.g[(u, x)]) >= s.D(x)
    ensures Inv(q, s, open - {(u, x)})
  {
  }

  ghost function Relaxed(s: Progress, u: Node, x: Node, c: nat): Progress
    requires u in s.tree
  {
    s.(dist := s.dist[x := c], prev := s.prev[x := u], heap := s.heap + multiset{HeapEntry(c, x)},
       tree := s.tree[x := s.tree[u] + [x]])
  }

  lemma RelaxKeepsBranch(q: Problem, s: Progress, u: Node, x: Node, c: nat, v: Node)
    requires u in s.tree && v in s.tree && v != x && Branch(q, s, v) && x !in s.settled
    ensures Branch(q, Relaxed(s, u, x, c), v)
  {
    assert Relaxed(s, u, x, c).D(v) == s.D(v);
  }

  lemma RelaxGrowsBranch(q: Problem, s: Progress, u: Node, x: Node, c: nat)
    requires u in s.tree && u in s.settled && Branch(q, s, u) && x !in s.settled && (u, x) in q.g
    requires c == s.D(u) + q.g[(u, x)] < U64_MAX && x != q.start
    ensures Branch(q, Relaxed(s, u, x, c), x)
  {
    var t := s.tree[u];
    Snoc(q.g, t, x);
    assert t == t[..|t| - 1] + [u];
    assert forall i :: 0 <= i < |t| ==> t[i] in s.settled;
  }

  lemma RelaxKeepsTree(q: Problem, s: Progress, u: Node, x: Node, c: nat)
    requires TreeOk(q, s) && u in s.tree && u in s.settled && x !in s.settled && (u, x) in q.g
    requires c == s.D(u) + q.g[(u, x)] < U64_MAX && x != q.start
    ensures TreeOk(q, Relaxed(s, u, x, c))
  {
    hide Branch;
    var s' := Relaxed(s, u, x, c);
    forall v | v in s'.tree ensures Branch(q, s', v) {
      if v != x {
        assert Branch(q, s, v);
        RelaxKeepsBranch(q, s, u, x, c, v);
      } else {
        assert Branch(q, s, u);
        RelaxGrowsBranch(q, s, u, x, c);
      }
    }
    forall v | v !in s'.tree ensures s'.D(v) == U64_MAX && v !in s'.prev {
      assert s'.D(v) == s.D(v);
    }
  }

  lemma RelaxKeepsHeap(s: Progress, u: Node, x: Node, c: nat)
    requires HeapOk(s) && u in s.tree && x !in s.settled && s.floor <= c < s.D(x)
    ensures HeapOk(Relaxed(s, u, x, c))
  {
    var s' := Relaxed(s, u, x, c);
    assert HeapEntry(c, x) !in s.heap;
    forall v | v in s'.tree && v !in s'.settled ensures s'.heap[HeapEntry(s'.D(v), v)] == 1 {
      if v != x {
        assert s'.D(v) == s.D(v) && HeapEntry(s.D(v), v) != HeapEntry(c, x);
      }
    }
    forall e | e in s'.heap
      ensures e.node in s'.tree && s'.floor <= e.cost && s'.D(e.node) <= e.cost
      ensures e.node in s'.settled ==> s'.D(e.node) < e.cost
    {
      if e != HeapEntry(c, x) {
        assert e in s.heap;
      }
    }
  }

  lemma RelaxKeepsSettled(g: Weights, s: Progress, open: set<(Node, Node)>, u: Node, x: Node, c: nat)
    requires SettledOk(g, s, open) && u in s.tree && x !in s.settled && u in s.settled && (u, x) in g
    requires c == SatAdd(s.D(u), g[(u, x)]) < s.D(x)
    ensures SettledOk(g, Relaxed(s, u, x, c), open - {(u, x)})
  {
    var s' := Relaxed(s, u, x, c);
    assert forall v :: s'.D(v) == if v == x then c else s.D(v);
  }

  lemma RelaxKeeps(q: Problem, s: Progress, open: set<(Node, Node)>, u: Node, x: Node)
    requires Inv(q, s, open) && u in s.settled && s.D(u) == s.floor && (u, x) in q.g
    requires SatAdd(s.floor, q.g[(u, x)]) < s.D(x)
    ensures x !in s.settled && u in s.tree
    ensures Inv(q, Relaxed(s, u, x, SatAdd(s.floor, q.g[(u, x)])), open - {(u, x)})
    ensures Relaxed(s, u, x, SatAdd(s.floor, q.g[(u, x)])).D(u) == s.D(u)
  {
    var c := SatAdd(s.floor, q.g[(u, x)]);
    assert x !in s.settled && u in s.tree by {
      assert u in s.tree && Branch(q, s, u);
    }
    RelaxTarget(q, s, u, x);
    hide TreeOk, HeapOk, SettledOk;
    RelaxKeepsTree(q, s, u, x, c);
    RelaxKeepsHeap(s, u, x, c);
    RelaxKeepsSettled(q.g, s, open, u, x, c);
  }

  /** Only a node other than the start is ever improved, and to a finite distance. */
  lemma RelaxTarget(q: Problem, s: Progress, u: Node, x: Node)
    requires TreeOk(q, s) && (u, x) in q.g && SatAdd(s.floor, q.g[(u, x)]) < s.D(x)
    requires x in s.tree || s.D(x) == U64_MAX
    requires u in s.tree && s.D(u) == s.floor
    ensures x != q.start && SatAdd(s.floor, q.g[(u, x)]) == s.floor + q.g[(u, x)] < U64_MAX
  {
    assert Branch(q, s, q.start) && Branch(q, s, u);
    if x in s.tree {
      assert Branch(q, s, x);
    }
  }

  // ----- code -----

  lemma {:induction false} MinExists(heap: multiset<HeapEntry>) returns (e: HeapEntry)
    requires |heap| > 0
    ensures e in heap && forall f :: f in heap ==> e.cost <= f.cost
    decreases |heap|
  {
    e :| e in heap;
    var rest := heap - multiset{e};
    if |rest| > 0 {
      var y := MinExists(rest);
      assert forall f :: f in heap && f != e ==> f in rest;
      e := if e.cost <= y.cost then e else y;
    } else {
      assert forall f :: f in heap && f != e ==> f in rest;
    }
  }

  method PopMin(heap: multiset<HeapEntry>) returns (e: HeapEntry, rest: multiset<HeapEntry>)
    requires |heap| > 0
    ensures e in heap && forall f :: f in heap ==> e.cost <= f.cost
    ensures rest == heap - multiset{e}
  {
    ghost var w := MinExists(heap);
    e :| e in heap && forall f | f in heap :: e.cost <= f.cost;
    rest := heap - multiset{e};
  }

  // ----- the loop as a step relation -----

  /** One edge of the inner loop. */
  ghost function Improved(s: Progress, u: Node, cost: nat, e: Edge): (r: Progress)
    requires u in s.tree
    ensures u in r.tree
  {
    var c := SatAdd(cost, Micros(e.rtt));
    if e.from == u && c < s.D(e.to) then Relaxed(s, u, e.to, c) else s
  }

  /** The inner loop: `u`, popped at `cost`, improves what it can along the edges, in their order. */
  ghost function Expanded(s: Progress, u: Node, cost: nat, edges: seq<Edge>): (r: Progress)
    requires u in s.tree
    ensures u in r.tree
  {
    if edges == [] then s
    else Improved(Expanded(s, u, cost, edges[..|edges| - 1]), u, cost, edges[|edges| - 1])
  }

  /** The entries the heap may give next. */
  ghost predicate Popped(s: Progress, e: HeapEntry) {
    e in s.heap && forall f :: f in s.heap ==> e.cost <= f.cost
  }

  ghost function Settled(s: Progress, e: HeapEntry): Progress {
    s.(settled := s.settled + {e.node}, floor := e.cost, heap := s.heap - multiset{e})
  }

  /** A stale entry is dropped; any other settles its node and expands it. */
  ghost function AfterPop(edges: seq<Edge>, s: Progress, e: HeapEntry): Progress
    requires e.node in s.tree
  {
    if e.cost > s.D(e.node) then s.(heap := s.heap - multiset{e})
    else Expanded(Settled(s, e), e.node, e.cost, edges)
  }

  /** One turn of the outer loop, with any of the cheapest entries. */
  ghost predicate Turn(edges: seq<Edge>, target: Node, s: Progress, s': Progress) {
    exists e :: Popped(s, e) && e.node != target && e.node in s.tree && s' == AfterPop(edges, s, e)
  }

  ghost predicate Turns(edges: seq<Edge>, target: Node, s: Progress, s': Progress, n: nat)
    decreases n
  {
    if n == 0 then s' == s
    else exists mid :: Turns(edges, target, s, mid, n - 1) && Turn(edges, target, mid, s')
  }

  /** A whole search: it ends when the target is popped, or with the heap empty. */
  ghost predicate Searched(edges: seq<Edge>, target: Node, s: Progress, s': Progress) {
    && (exists n: nat :: Turns(edges, target, s, s', n))
    && (s'.heap == multiset{} || exists e :: Popped(s', e) && e.node == target)
  }

  function InitialDist(nodes: set<Node>, start: Node, startCost: nat): map<Node, nat> {
    (map n | n in nodes :: U64_MAX)[start := startCost]
  }

  ghost function Initial(nodes: set<Node>, start: Node, startCost: nat): Progress {
    Progress(InitialDist(nodes, start, startCost), map[], multiset{HeapEntry(startCost, start)}, {}, startCost,
             map[start := [start]])
  }

  /** The edges out of `u` that are not among `edges`. */
  ghost function Unseen(g: Weights, u: Node, edges: seq<Edge>): set<(Node, Node)> {
    if edges == [] then set k | k in g && k.0 == u
    else
      var e := edges[|edges| - 1];
      Unseen(g, u, edges[..|edges| - 1]) - (if e.from == u then {(u, e.to)} else {})
  }

  lemma {:induction false} SeenOnce(g: Weights, u: Node, edges: seq<Edge>, i: nat)
    requires i < |edges| && edges[i].from == u
    ensures (u, edges[i].to) !in Unseen(g, u, edges)
    decreases |edges|
  {
    if i < |edges| - 1 {
      SeenOnce(g, u, edges[..|edges| - 1], i);
    }
  }

  lemma {:induction false} UnseenLeave(g: Weights, u: Node, edges: seq<Edge>)
    ensures forall k :: k in Unseen(g, u, edges) ==> k in g && k.0 == u
    decreases |edges|
  {
    if edges != [] {
      UnseenLeave(g, u, edges[..|edges| - 1]);
    }
  }

  lemma AllSeen(g: Weights, u: Node, edges: seq<Edge>)
    requires Denotes(edges, g)
    ensures Unseen(g, u, edges) == {}
  {
    UnseenLeave(g, u, edges);
    forall k | k in Unseen(g, u, edges) ensures false {
      var i :| 0 <= i < |edges| && edges[i].from == k.0 && edges[i].to == k.1;
      SeenOnce(g, u, edges, i);
    }
  }

  lemma ImprovedKeeps(q: Problem, s: Progress, u: Node, cost: nat, e: Edge, open: set<(Node, Node)>)
    requires Inv(q, s, open) && u in s.settled && u in s.tree && s.D(u) == s.floor == cost
    requires e.from == u ==> (u, e.to) in q.g && q.g[(u, e.to)] == Micros(e.rtt)
    ensures var s' := Improved(s, u, cost, e);
            Inv(q, s', open - (if e.from == u then {(u, e.to)} else {}))
            && s'.settled == s.settled && s'.floor == s.floor && s'.D(u) == cost
            && s.tree.Keys <= s'.tree.Keys <= s.tree.Keys + (set k | k in q.g :: k.1)
  {
    hide Inv;
    if e.from == u {
      if SatAdd(cost, Micros(e.rtt)) < s.D(e.to) {
        RelaxKeeps(q, s, open, u, e.to);
        assert e.to in (set k | k in q.g :: k.1) by { assert (u, e.to) in q.g; }
      } else {
        SkipKeeps(q, s, open, u, e.to);
      }
    } else {
      assert open - {} == open;
    }
  }

  lemma {:induction false} ExpandedKeeps(q: Problem, s: Progress, u: Node, cost: nat, edges: seq<Edge>)
    requires Inv(q, s, set k | k in q.g && k.0 == u) && u in s.settled && u in s.tree && s.D(u) == s.floor == cost
    requires forall i :: 0 <= i < |edges| ==>
      (edges[i].from, edges[i].to) in q.g && q.g[(edges[i].from, edges[i].to)] == Micros(edges[i].rtt)
    ensures var s' := Expanded(s, u, cost, edges);
            Inv(q, s', Unseen(q.g, u, edges))
            && s'.settled == s.settled && s'.floor == s.floor && s'.D(u) == cost
            && s.tree.Keys <= s'.tree.Keys <= s.tree.Keys + (set k | k in q.g :: k.1)
    decreases |edges|
  {
    hide Inv, Improved;
    if edges != [] {
      var init, e := edges[..|edges| - 1], edges[|edges| - 1];
      ExpandedKeeps(q, s, u, cost, init);
      ImprovedKeeps(q, Expanded(s, u, cost, init), u, cost, e, Unseen(q.g, u, init));
    }
  }

  /** Every turn keeps the invariant, whichever of the cheapest entries is popped and however the edges are
      listed. */
  lemma TurnKeeps(q: Problem, edges: seq<Edge>, s: Progress, e: HeapEntry)
    requires Inv(q, s, {}) && Denotes(edges, q.g) && Popped(s, e)
    ensures e.node in s.tree
    ensures var s' := AfterPop(edges, s, e);
            Inv(q, s', {}) && s.tree.Keys <= s'.tree.Keys <= s.tree.Keys + (set k | k in q.g :: k.1)
            && (if e.cost > s.D(e.node) then s'.settled == s.settled
                else s'.settled == s.settled + {e.node} && e.node !in s.settled)
  {
    assert e.node in s.tree;
    hide Inv, Expanded;
    if e.cost > s.D(e.node) {
      StaleKeeps(q, s, e);
    } else {
      SettleKeeps(q, s, e);
      ExpandedKeeps(q, Settled(s, e), e.node, e.cost, edges);
      AllSeen(q.g, e.node, edges);
    }
  }

  lemma NoTurns(edges: seq<Edge>, target: Node, s: Progress)
    ensures Turns(edges, target, s, s, 0)
  {
  }

  lemma OneMoreTurn(edges: seq<Edge>, target: Node, s: Progress, mid: Progress, e: HeapEntry, n: nat)
    requires Turns(edges, target, s, mid, n) && Popped(mid, e) && e.node != target && e.node in mid.tree
    ensures Turns(edges, target, s, AfterPop(edges, mid, e), n + 1)
  {
    hide AfterPop;
    assert Turn(edges, target, mid, AfterPop(edges, mid, e));
  }

  lemma InitiallyInv(q: Problem, nodes: set<Node>)
    requires q.startCost <= U64_MAX
    ensures Inv(q, Initial(nodes, q.start, q.startCost), {})
  {
  }

  lemma OneTurnKeeps(q: Problem, edges: seq<Edge>, target: Node, s: Progress, s': Progress)
    requires Inv(q, s, {}) && target !in s.settled && Denotes(edges, q.g) && Turn(edges, target, s, s')
    ensures Inv(q, s', {}) && target !in s'.settled
  {
    hide Inv, AfterPop, Denotes;
    var e :| Popped(s, e) && e.node != target && e.node in s.tree && s' == AfterPop(edges, s, e);
    TurnKeeps(q, edges, s, e);
  }

  lemma {:induction false} TurnsKeep(q: Problem, edges: seq<Edge>, target: Node, s: Progress, s': Progress, n: nat)
    requires Inv(q, s, {}) && target !in s.settled && Denotes(edges, q.g) && Turns(edges, target, s, s', n)
    ensures Inv(q, s', {}) && target !in s'.settled
    decreases n
  {
    hide Inv, Turn, Denotes;
    if n > 0 {
      var mid :| Turns(edges, target, s, mid, n - 1) && Turn(edges, target, mid, s');
      TurnsKeep(q, edges, target, s, mid, n - 1);
      OneTurnKeeps(q, edges, target, mid, s');
    }
  }

  /** What a finished search leaves for the path reconstruction: the target's distance is a lower bound
      of every walk to it, and the tree has a walk of exactly that cost if it was reached. */
  ghost predicate Found(q: Problem, s: Progress, target: Node) {
    TreeOk(q, s) && forall p :: Joins(q.g, p, q.start, target) ==> s.D(target) <= SatAdd(q.startCost, Cost(q.g, p))
  }

  lemma FoundAtPop(q: Problem, s: Progress, e: HeapEntry)
    requires Inv(q, s, {}) && Popped(s, e) && e.node !in s.settled
    ensures Found(q, s, e.node)
  {
    hide HeapOk, SettledOk, Branch;
    forall p | Joins(q.g, p, q.start, e.node) ensures s.D(e.node) <= SatAdd(q.startCost, Cost(q.g, p)) {
      PoppedIsOptimal(q, s, e, p);
    }
  }

  lemma FoundAtEnd(q: Problem, s: Progress, target: Node)
    requires Inv(q, s, {}) && s.heap == multiset{} && target !in s.settled
    ensures Found(q, s, target)
  {
    hide HeapOk, SettledOk, Branch;
    forall p | Joins(q.g, p, q.start, target) ensures s.D(target) <= SatAdd(q.startCost, Cost(q.g, p)) {
      EmptyHeapIsOptimal(q, s, target, p);
    }
  }

  /** Every search, whatever its ties and the order of its edges and nodes, finds the least cost. */
  lemma SearchedIsFound(q: Problem, edges: seq<Edge>, nodes: set<Node>, target: Node, s: Progress)
    requires Denotes(edges, q.g) && q.startCost <= U64_MAX
    requires Searched(edges, target, Initial(nodes, q.start, q.startCost), s)
    ensures Found(q, s, target)
  {
    hide Inv, Found;
    InitiallyInv(q, nodes);
    var n: nat :| Turns(edges, target, Initial(nodes, q.start, q.startCost), s, n);
    TurnsKeep(q, edges, target, Initial(nodes, q.start, q.startCost), s, n);
    if s.heap == multiset{} {
      FoundAtEnd(q, s, target);
    } else {
      var e :| Popped(s, e) && e.node == target;
      FoundAtPop(q, s, e);
    }
  }

  /** What `Found` says of the distance alone. */
  ghost predicate Least(q: Problem, dist: map<Node, nat>, target: Node) {
    && (forall p :: Joins(q.g, p, q.start, target) ==> DistOf(dist, target) <= SatAdd(q.startCost, Cost(q.g, p)))
    && (target == q.start || DistOf(dist, target) < U64_MAX ==>
          exists p :: Joins(q.g, p, q.start, target) && q.startCost + Cost(q.g, p) == DistOf(dist, target))
  }

  lemma FoundIsLeast(q: Problem, s: Progress, target: Node)
    requires Found(q, s, target)
    ensures Least(q, s.dist, target)
  {
    if target == q.start || s.D(target) < U64_MAX {
      assert target in s.tree && Branch(q, s, target);
    }
  }

  lemma Finishes(q: Problem, edges: seq<Edge>, nodes: set<Node>, target: Node, s: Progress, n: nat)
    requires Denotes(edges, q.g) && q.startCost <= U64_MAX
    requires Turns(edges, target, Initial(nodes, q.start, q.startCost), s, n)
    requires s.heap == multiset{} || exists e :: Popped(s, e) && e.node == target
    ensures Searched(edges, target, Initial(nodes, q.start, q.startCost), s)
    ensures Found(q, s, target) && Least(q, s.dist, target)
  {
    hide Turns, Denotes, Initial, Found, Least;
    SearchedIsFound(q, edges, nodes, target, s);
    FoundIsLeast(q, s, target);
  }

  /** Relaxes every edge out of the node `u`, just settled at `cost`. */
  method RelaxAll(edges: seq<Edge>, u: Node, cost: nat, dist0: map<Node, nat>, prev0: map<Node, Node>,
                  heap0: multiset<HeapEntry>, ghost s0: Progress)
    returns (dist: map<Node, nat>, prev: map<Node, Node>, heap: multiset<HeapEntry>, ghost s: Progress)
    requires s0.dist == dist0 && s0.prev == prev0 && s0.heap == heap0 && u in s0.tree
    ensures s == Expanded(s0, u, cost, edges)
    ensures s.dist == dist && s.prev == prev && s.heap == heap
  {
    dist, prev, heap, s := dist0, prev0, heap0, s0;
    for j := 0 to |edges|
      invariant s == Expanded(s0, u, cost, edges[..j])
      invariant s.dist == dist && s.prev == prev && s.heap == heap
    {
      var e := edges[j];
      assert edges[..j + 1][..j] == edges[..j];
      s := Improved(s, u, cost, e);
      if e.from == u {
        var newCost := SatAdd(cost, Micros(e.rtt));
        if newCost < DistOf(dist, e.to) {
          dist := dist[e.to := newCost];
          prev := prev[e.to := u];
          heap := heap + multiset{HeapEntry(newCost, e.to)};
        }
      }
    }
    assert edges[..|edges|] == edges;
  }

  /** The search loop: lazy deletion of stale heap entries, and an exit as soon as the target is popped. */
  method Run(edges: seq<Edge>, nodes: set<Node>, target: Node, start: Node, startCost: nat, ghost g: Weights)
    returns (dist: map<Node, nat>, prev: map<Node, Node>, ghost s: Progress)
    requires Denotes(edges, g) && startCost <= U64_MAX
    ensures s.dist == dist && s.prev == prev
    ensures Searched(edges, target, Initial(nodes, start, startCost), s)
    ensures Found(Problem(g, start, startCost), s, target)
    ensures Least(Problem(g, start, startCost), dist, target)
  {
    hide Inv, Found, Least, Turns, Expanded, Denotes, Searched;
    ghost var q := Problem(g, start, startCost);
    dist := map n | n in nodes :: U64_MAX;
    dist := dist[start := startCost];
    prev := map[];
    var heap := multiset{HeapEntry(startCost, start)};
    ghost var initial := Initial(nodes, start, startCost);
    s := initial;
    InitiallyInv(q, nodes);
    ghost var universe := {start} + set k | k in g :: k.1;
    ghost var turns: nat := 0;
    NoTurns(edges, target, initial);
    while |heap| > 0
      invariant s.dist == dist && s.prev == prev && s.heap == heap
      invariant Inv(q, s, {}) && Turns(edges, target, initial, s, turns)
      invariant s.tree.Keys <= universe && s.settled <= s.tree.Keys
      decreases universe - s.settled, |heap|
    {
      var e, rest := PopMin(heap);
      assert Popped(s, e);
      if e.node == target {
        Finishes(q, edges, nodes, target, s, turns);
        return;
      }
      ghost var before := s;
      TurnKeeps(q, edges, s, e);
      if e.cost > DistOf(dist, e.node) {
        heap := rest;
        s := s.(heap := rest);
      } else {
        s := Settled(s, e);
        dist, prev, heap, s := RelaxAll(edges, e.node, e.cost, dist, prev, rest, s);
      }
      OneMoreTurn(edges, target, initial, before, e, turns);
      turns := turns + 1;
    }
    Finishes(q, edges, nodes, target, s, turns);
  }

  function Reversed(p: seq<Node>): (r: seq<Node>)
    ensures |r| == |p|
  {
    if p == [] then [] else Reversed(p[1..]) + [p[0]]
  }

  lemma {:induction false} ReversedSnoc(p: seq<Node>, v: Node)
    ensures Reversed(p + [v]) == [v] + Reversed(p)
  {
    if p != [] {
      assert (p + [v])[1..] == p[1..] + [v];
      ReversedSnoc(p[1..], v);
    }
  }

  lemma Parent(q: Problem, s: Progress, v: Node)
    requires TreeOk(q, s)
    ensures q.start in s.tree && s.tree[q.start] == [q.start]
    ensures v !in s.tree ==> v != q.start && v !in s.prev
    ensures v in s.tree ==> |s.tree[v]| > 0 && s.tree[v][|s.tree[v]| - 1] == v
    ensures v in s.tree && v != q.start ==>
      v in s.prev && s.prev[v] in s.tree && s.tree[v] == s.tree[s.prev[v]] + [v]
  {
    assert v in s.tree ==> Branch(q, s, v);
  }

  /** The walk to the target is the walk to `current` followed by what was collected, backwards. */
  ghost predicate Collected(s: Progress, target: Node, current: Node, back: seq<Node>) {
    if target in s.tree then
      current in s.tree && |s.tree[current]| > 0 &&
      s.tree[target] == s.tree[current][..|s.tree[current]| - 1] + Reversed(back)
    else current == target
  }

  lemma CollectOne(q: Problem, s: Progress, target: Node)
    requires TreeOk(q, s)
    ensures Collected(s, target, target, [target])
  {
    Parent(q, s, target);
  }

  lemma CollectMore(q: Problem, s: Progress, target: Node, current: Node, back: seq<Node>)
    requires TreeOk(q, s) && Collected(s, target, current, back) && current != q.start && current in s.prev
    ensures var p := s.prev[current];
            Collected(s, target, p, back + [p]) && current in s.tree && p in s.tree && |s.tree[p]| < |s.tree[current]|
  {
    hide TreeOk;
    var p := s.prev[current];
    Parent(q, s, current);
    Parent(q, s, p);
    ReversedSnoc(back, p);
    if target in s.tree {
      var t, t' := s.tree[current], s.tree[p];
      assert t[..|t| - 1] == t' == t'[..|t'| - 1] + [p];
    }
  }

  lemma CollectedAll(q: Problem, s: Progress, target: Node, back: seq<Node>)
    requires TreeOk(q, s) && Collected(s, target, q.start, back)
    ensures target in s.tree && Reversed(back) == s.tree[target]
  {
    hide TreeOk;
    Parent(q, s, target);
    assert s.tree[q.start][..0] + Reversed(back) == Reversed(back);
  }

  /** Follows `prev` from `target` until `stop`, with no cycle check; the path comes out backwards. */
  method Backtrack(prev: map<Node, Node>, target: Node, stop: Node, ghost q: Problem, ghost s: Progress)
    returns (path: Option<seq<Node>>)
    requires TreeOk(q, s) && s.prev == prev && q.start == stop
    ensures path.Some? <==> target in s.tree
    ensures path.Some? ==> Reversed(path.value) == s.tree[target]
  {
    hide TreeOk, Reversed;
    var back := [target];
    var current := target;
    CollectOne(q, s, target);
    while current != stop
      invariant Collected(s, target, current, back)
      decreases if current in s.tree then |s.tree[current]| else 0
    {
      Parent(q, s, current);
      if current !in prev {
        return None;
      }
      CollectMore(q, s, target, current, back);
      back := back + [prev[current]];
      current := prev[current];
    }
    CollectedAll(q, s, target, back);
    return Some(back);
  }
}
