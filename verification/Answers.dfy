/** Exactly the routes a search may answer: among the cheapest ones without repeats, those that reach each of
    their nodes from the first of its best predecessors to be expanded. */
module Answers {
  import opened Bytes
  import opened Graph
  import opened Matrix
  import opened Search
  import opened Router

  /** What the walk has cost when it is at its i-th node. */
  ghost function CostTo(g: Weights, p: seq<Node>, i: nat): nat
    requires IsWalk(g, p) && i < |p|
  {
    Split(g, p, i);
    Cost(g, p[..i + 1])
  }

  /** `y` reaches `p[i + 1]` as cheaply as `p[i]` does, and any search expands it first: it is nearer to the start,
      or as near and further up the walk. */
  ghost predicate Overtakes(g: Weights, p: seq<Node>, i: nat, y: Node)
    requires IsWalk(g, p) && i + 1 < |p|
  {
    && (y, p[i + 1]) in g
    && exists c: nat :: DistanceIs(g, p[0], y, c) && c + g[(y, p[i + 1])] == CostTo(g, p, i + 1)
                   && (c < CostTo(g, p, i) || (c == CostTo(g, p, i) && y in p[..i]))
  }

  ghost predicate IsAnswer(g: Weights, u: Node, dest: Node, p: seq<Node>) {
    && IsShortest(g, p, u, dest) && Cost(g, p) < U64_MAX && NoRepeats(p)
    && (forall i, y {:trigger Overtakes(g, p, i, y)} :: 0 <= i < |p| - 1 ==> !Overtakes(g, p, i, y))
  }

  // ----- distances of settled nodes -----

  lemma Unsettled(s: Progress, x: Node)
    requires HeapOk(s) && x in s.tree && x !in s.settled
    ensures s.floor <= s.D(x)
  {
    assert HeapEntry(s.D(x), x) in s.heap;
  }

  lemma BranchCost(q: Problem, s: Progress, v: Node)
    requires TreeOk(q, s) && v in s.tree && q.startCost == 0
    ensures Joins(q.g, s.tree[v], q.start, v) && s.D(v) == Cost(q.g, s.tree[v]) && NoRepeats(s.tree[v])
    ensures s.D(v) <= U64_MAX
    ensures forall i :: 0 <= i < |s.tree[v]| - 1 ==> s.tree[v][i] in s.settled
  {
    assert Branch(q, s, v);
  }

  /** Nothing unsettled is nearer than a settled node. */
  lemma SettledIsNear(q: Problem, s: Progress, v: Node, p: seq<Node>)
    requires Inv(q, s, {}) && q.startCost == 0 && v in s.settled && IsWalk(q.g, p) && p[0] == q.start
    ensures var x := p[|p| - 1]; s.D(v) <= Cost(q.g, p) || (x in s.settled && s.D(x) <= Cost(q.g, p))
  {
    hide Branch;
    BranchCost(q, s, v);
    forall x | x in s.tree && x !in s.settled ensures s.D(v) <= s.D(x) {
      Unsettled(s, x);
    }
    FrontierBound(q, s, s.D(v), p);
  }

  lemma SettledIsLeast(q: Problem, s: Progress, v: Node)
    requires Inv(q, s, {}) && q.startCost == 0 && v in s.settled
    ensures v in s.tree && IsShortest(q.g, s.tree[v], q.start, v) && DistanceIs(q.g, q.start, v, s.D(v))
  {
    assert v in s.tree;
    hide Inv, Branch;
    assert TreeOk(q, s) by { InvTree(q, s, {}); }
    BranchCost(q, s, v);
    forall p | Joins(q.g, p, q.start, v) ensures Cost(q.g, s.tree[v]) <= Cost(q.g, p) {
      SettledIsNear(q, s, v, p);
    }
  }

  lemma InvTree(q: Problem, s: Progress, open: set<(Node, Node)>)
    requires Inv(q, s, open)
    ensures TreeOk(q, s)
  {
  }

  // ----- what a search answers is first everywhere -----

  /** `y` was settled before `u`. */
  ghost predicate Earlier(s: Progress, y: Node, u: Node)
    requires u in s.tree && |s.tree[u]| > 0
  {
    s.D(y) < s.D(u) || (s.D(y) == s.D(u) && y in s.tree[u][..|s.tree[u]| - 1])
  }

  /** A settled node reaches `x` as cheaply as the node `prev` names, and was settled before it. */
  ghost predicate Beats(q: Problem, s: Progress, y: Node, x: Node) {
    && x in s.tree && x != q.start && x in s.prev && s.prev[x] in s.tree && |s.tree[s.prev[x]]| > 0
    && y in s.settled && (y, x) in q.g && s.D(y) + q.g[(y, x)] == s.D(x)
    && Earlier(s, y, s.prev[x])
  }

  ghost predicate First(q: Problem, s: Progress) {
    forall x, y {:trigger Beats(q, s, y, x)} :: !Beats(q, s, y, x)
  }

  /** The node just reached: nothing settled before reaches it as cheaply. */
  lemma RelaxedNotBeaten(q: Problem, s: Progress, open: set<(Node, Node)>, u: Node, x: Node, y: Node)
    requires Inv(q, s, open) && u in s.settled && s.D(u) == s.floor && (u, x) in q.g
    requires SatAdd(s.floor, q.g[(u, x)]) < s.D(x) && x !in s.settled && u in s.tree
    requires forall k :: k in open ==> k.0 == u
    ensures !Beats(q, Relaxed(s, u, x, SatAdd(s.floor, q.g[(u, x)])), y, x)
  {
    assert Branch(q, s, u);
    assert y != u ==> (y, x) !in open;
    hide Branch, TreeOk, HeapOk;
  }

  lemma OthersNotBeaten(q: Problem, s: Progress, open: set<(Node, Node)>, u: Node, x: Node, c: nat, y: Node, z: Node)
    requires Inv(q, s, open) && x !in s.settled && u in s.tree && z != x && !Beats(q, s, y, z)
    ensures !Beats(q, Relaxed(s, u, x, c), y, z)
  {
    assert z in s.tree ==> Branch(q, s, z);
    hide Branch, TreeOk, HeapOk, SettledOk;
  }

  lemma RelaxedFirst(q: Problem, s: Progress, open: set<(Node, Node)>, u: Node, x: Node)
    requires Inv(q, s, open) && First(q, s) && u in s.settled && s.D(u) == s.floor && (u, x) in q.g
    requires SatAdd(s.floor, q.g[(u, x)]) < s.D(x) && x !in s.settled && u in s.tree
    requires forall k :: k in open ==> k.0 == u
    ensures First(q, Relaxed(s, u, x, SatAdd(s.floor, q.g[(u, x)])))
  {
    hide Inv, Relaxed, Beats;
    var c := SatAdd(s.floor, q.g[(u, x)]);
    forall z, y ensures !Beats(q, Relaxed(s, u, x, c), y, z) {
      if z == x {
        RelaxedNotBeaten(q, s, open, u, x, y);
      } else {
        OthersNotBeaten(q, s, open, u, x, c, y, z);
      }
    }
  }

  lemma SettledFirst(q: Problem, s: Progress, e: HeapEntry)
    requires Inv(q, s, {}) && First(q, s) && Popped(s, e) && e.node in s.tree && e.cost == s.D(e.node)
    requires e.node !in s.settled
    ensures First(q, Settled(s, e))
  {
    var s' := Settled(s, e);
    forall z, y ensures !Beats(q, s', y, z) {
      assert !Beats(q, s, y, z);
      assert z in s.tree ==> Branch(q, s, z);
      assert z in s.prev && s.prev[z] in s.tree ==> Branch(q, s, s.prev[z]);
    }
  }

  lemma ImprovedFirst(q: Problem, s: Progress, u: Node, cost: nat, e: Edge, open: set<(Node, Node)>)
    requires Inv(q, s, open) && First(q, s) && u in s.settled && u in s.tree && s.D(u) == s.floor == cost
    requires e.from == u ==> (u, e.to) in q.g && q.g[(u, e.to)] == Micros(e.rtt)
    requires forall k :: k in open ==> k.0 == u
    ensures First(q, Improved(s, u, cost, e))
  {
    hide Inv, First;
    if e.from == u && SatAdd(cost, Micros(e.rtt)) < s.D(e.to) {
      RelaxKeeps(q, s, open, u, e.to);
      RelaxedFirst(q, s, open, u, e.to);
    }
  }

  lemma {:induction false} ExpandedFirst(q: Problem, s: Progress, u: Node, cost: nat, edges: seq<Edge>)
    requires Inv(q, s, set k | k in q.g && k.0 == u) && u in s.settled && u in s.tree && s.D(u) == s.floor == cost
    requires forall i :: 0 <= i < |edges| ==>
      (edges[i].from, edges[i].to) in q.g && q.g[(edges[i].from, edges[i].to)] == Micros(edges[i].rtt)
    requires First(q, s)
    ensures First(q, Expanded(s, u, cost, edges))
    decreases |edges|
  {
    hide Inv, Improved, First;
    if edges != [] {
      var init, e := edges[..|edges| - 1], edges[|edges| - 1];
      ExpandedFirst(q, s, u, cost, init);
      ExpandedKeeps(q, s, u, cost, init);
      UnseenLeave(q.g, u, init);
      ImprovedFirst(q, Expanded(s, u, cost, init), u, cost, e, Unseen(q.g, u, init));
    }
  }

  lemma StaleFirst(q: Problem, s: Progress, e: HeapEntry)
    requires First(q, s)
    ensures First(q, s.(heap := s.heap - multiset{e}))
  {
    forall z, y ensures !Beats(q, s.(heap := s.heap - multiset{e}), y, z) {
      assert !Beats(q, s, y, z);
    }
  }

  lemma TurnFirst(q: Problem, edges: seq<Edge>, s: Progress, e: HeapEntry)
    requires Inv(q, s, {}) && Denotes(edges, q.g) && Popped(s, e) && First(q, s) && e.node in s.tree
    ensures First(q, AfterPop(edges, s, e))
  {
    hide Inv, Expanded, First;
    if e.cost > s.D(e.node) {
      StaleFirst(q, s, e);
    } else {
      SettleKeeps(q, s, e);
      SettledFirst(q, s, e);
      ExpandedFirst(q, Settled(s, e), e.node, e.cost, edges);
    }
  }

  lemma OneTurnFirst(q: Problem, edges: seq<Edge>, target: Node, s: Progress, s': Progress)
    requires Inv(q, s, {}) && Denotes(edges, q.g) && First(q, s) && Turn(edges, target, s, s')
    ensures First(q, s')
  {
    hide Inv, AfterPop, Denotes, First;
    var e :| Popped(s, e) && e.node != target && e.node in s.tree && s' == AfterPop(edges, s, e);
    TurnFirst(q, edges, s, e);
  }

  lemma {:induction false} TurnsFirst(q: Problem, edges: seq<Edge>, target: Node, s: Progress, s': Progress, n: nat)
    requires Inv(q, s, {}) && target !in s.settled && Denotes(edges, q.g) && First(q, s)
    requires Turns(edges, target, s, s', n)
    ensures First(q, s')
    decreases n
  {
    hide Inv, Turn, Denotes, First;
    if n > 0 {
      var mid :| Turns(edges, target, s, mid, n - 1) && Turn(edges, target, mid, s');
      TurnsFirst(q, edges, target, s, mid, n - 1);
      TurnsKeep(q, edges, target, s, mid, n - 1);
      OneTurnFirst(q, edges, target, mid, s');
    }
  }

  lemma InitiallyFirst(q: Problem, nodes: set<Node>)
    ensures First(q, Initial(nodes, q.start, q.startCost))
  {
  }

  /** The walk `prev` spells out to a node passes through the walks it spells out to the nodes before. */
  lemma {:induction false} Ancestor(q: Problem, s: Progress, v: Node, i: nat)
    requires TreeOk(q, s) && q.startCost == 0 && v in s.tree && i < |s.tree[v]|
    ensures var x := s.tree[v][i];
            && x in s.tree && s.tree[x] == s.tree[v][..i + 1]
            && IsWalk(q.g, s.tree[v]) && s.D(x) == CostTo(q.g, s.tree[v], i)
            && (i > 0 ==> x != q.start && x in s.prev && s.prev[x] == s.tree[v][i - 1])
    decreases |s.tree[v]|
  {
    assert Branch(q, s, v);
    hide TreeOk;
    var p := s.tree[v];
    if i == |p| - 1 {
      assert p[..i + 1] == p;
      if v != q.start {
        var u := s.prev[v];
        assert Branch(q, s, u) by { TreeBranch(q, s, u); }
        assert p == s.tree[u] + [v];
      } else {
        assert s.tree[v] == [v] by { TreeRoot(q, s); }
      }
    } else {
      assert v != q.start by { TreeRoot(q, s); }
      var u := s.prev[v];
      assert p == s.tree[u] + [v];
      Ancestor(q, s, u, i);
      assert s.tree[u][..i + 1] == p[..i + 1];
    }
  }

  lemma TreeBranch(q: Problem, s: Progress, v: Node)
    requires TreeOk(q, s) && v in s.tree
    ensures Branch(q, s, v)
  {
  }

  lemma TreeRoot(q: Problem, s: Progress)
    requires TreeOk(q, s)
    ensures q.start in s.tree && s.tree[q.start] == [q.start]
  {
  }

  lemma EndIsFirst(q: Problem, s: Progress, dest: Node, i: nat, y: Node)
    requires Inv(q, s, {}) && First(q, s) && q.startCost == 0 && dest in s.tree && IsWalk(q.g, s.tree[dest])
    requires i + 1 < |s.tree[dest]|
    ensures !Overtakes(q.g, s.tree[dest], i, y)
  {
    var p := s.tree[dest];
    InvTree(q, s, {});
    BranchCost(q, s, dest);
    Ancestor(q, s, dest, i);
    Ancestor(q, s, dest, i + 1);
    hide TreeOk, HeapOk, SettledOk, Branch;
    forall c: nat
      | DistanceIs(q.g, p[0], y, c) && (y, p[i + 1]) in q.g && c + q.g[(y, p[i + 1])] == CostTo(q.g, p, i + 1)
      ensures c > CostTo(q.g, p, i) || (c == CostTo(q.g, p, i) && y !in p[..i])
    {
      if y in s.settled {
        SettledIsLeast(q, s, y);
        assert s.D(y) == c;
        assert !Beats(q, s, y, p[i + 1]);
        assert s.tree[p[i]][..|s.tree[p[i]]| - 1] == p[..i];
      } else {
        var w :| IsShortest(q.g, w, p[0], y) && Cost(q.g, w) == c;
        SettledIsNear(q, s, p[i], w);
      }
    }
  }

  /** Whatever a search answers is first everywhere. */
  lemma AnswerIsFirst(m: Entries, u: Node, dest: Node, p: seq<Node>)
    requires MayAnswer(m, u, dest, p)
    ensures IsAnswer(WeightsOf(m), u, dest, p)
  {
    hide Inv, First, Initial, Turns;
    AnswerIsBest(m, u, dest, p);
    var edges, s :| ListsOnce(edges, m) && Searched(edges, dest, Initial(Ends(m), u, 0), s)
                    && dest in s.tree && s.tree[dest] == p;
    var q := Problem(WeightsOf(m), u, 0);
    ListedDenotes(edges, m);
    InitiallyInv(q, Ends(m));
    InitiallyFirst(q, Ends(m));
    StartsUnsettled(q, Ends(m), dest);
    var n: nat :| Turns(edges, dest, Initial(Ends(m), u, 0), s, n);
    TurnsKeep(q, edges, dest, Initial(Ends(m), u, 0), s, n);
    TurnsFirst(q, edges, dest, Initial(Ends(m), u, 0), s, n);
    forall i, y {:trigger Overtakes(q.g, p, i, y)} | 0 <= i < |p| - 1 ensures !Overtakes(q.g, p, i, y) {
      EndIsFirst(q, s, dest, i, y);
    }
  }

  lemma StartsUnsettled(q: Problem, nodes: set<Node>, dest: Node)
    ensures dest !in Initial(nodes, q.start, q.startCost).settled
  {
  }

  // ----- whatever is first everywhere, some search answers -----

  /** Walks from one node do not get cheaper further on. */
  lemma {:induction false} CostToGrows(g: Weights, p: seq<Node>, i: nat, j: nat)
    requires IsWalk(g, p) && i <= j < |p|
    ensures CostTo(g, p, i) <= CostTo(g, p, j)
    decreases j
  {
    if i < j {
      CostToGrows(g, p, i, j - 1);
      CostToNext(g, p, j - 1);
    }
  }

  lemma CostToNext(g: Weights, p: seq<Node>, i: nat)
    requires IsWalk(g, p) && i + 1 < |p|
    ensures (p[i], p[i + 1]) in g && CostTo(g, p, i + 1) == CostTo(g, p, i) + g[(p[i], p[i + 1])]
  {
    Split(g, p, i + 1);
    assert p[..i + 2][..i + 1] == p[..i + 1];
  }

  /** Up to each of its nodes a shortest walk is shortest. */
  lemma PrefixShortest(g: Weights, p: seq<Node>, a: Node, b: Node, i: nat, w: seq<Node>)
    requires IsShortest(g, p, a, b) && i < |p| && Joins(g, w, a, p[i])
    ensures CostTo(g, p, i) <= Cost(g, w)
  {
    Split(g, p, i);
    Compose(g, w, p[i..]);
    assert Joins(g, w + p[i..][1..], a, b);
  }

  /** Everything settled is nearer than `c`, or is on the way and no farther. */
  ghost predicate Nearer(s: Progress, c: nat, way: seq<Node>) {
    forall y :: y in s.settled ==> s.D(y) < c || (s.D(y) == c && y in way)
  }

  /** The search has settled the first `k` nodes of `p`, and has reached the next one along it; whatever else it
      has settled is strictly nearer. */
  ghost predicate Following(q: Problem, s: Progress, p: seq<Node>, k: nat)
    requires IsWalk(q.g, p)
  {
    && k < |p| && (forall i :: 0 <= i < k ==> p[i] in s.settled)
    && p[k] in s.tree && p[k] !in s.settled && s.tree[p[k]] == p[..k + 1] && s.D(p[k]) == CostTo(q.g, p, k)
    && Nearer(s, CostTo(q.g, p, k), p[..k])
  }

  /** No node on the way is reached more cheaply than along the walk. */
  lemma NotNearer(q: Problem, s: Progress, p: seq<Node>, dest: Node, i: nat)
    requires TreeOk(q, s) && q.startCost == 0 && IsShortest(q.g, p, q.start, dest) && Cost(q.g, p) < U64_MAX && i < |p|
    ensures CostTo(q.g, p, i) < U64_MAX && s.D(p[i]) >= CostTo(q.g, p, i)
  {
    hide Branch;
    CostToGrows(q.g, p, i, |p| - 1);
    assert p[..|p|] == p;
    if p[i] in s.tree {
      BranchCost(q, s, p[i]);
      PrefixShortest(q.g, p, q.start, dest, i, s.tree[p[i]]);
    }
  }

  /** Where the walk's next node is about to be reached along it, nothing has reached it as cheaply before. */
  lemma NextIsFresh(q: Problem, s: Progress, p: seq<Node>, dest: Node, k: nat)
    requires Inv(q, s, {}) && q.startCost == 0 && IsAnswer(q.g, q.start, dest, p)
    requires Following(q, s, p, k) && k + 1 < |p|
    ensures s.D(p[k + 1]) > CostTo(q.g, p, k + 1) && p[k + 1] !in s.settled && p[k + 1] != q.start
  {
    InvTree(q, s, {});
    var x := p[k + 1];
    NotNearer(q, s, p, dest, k + 1);
    CostToGrows(q.g, p, k, k + 1);
    assert x !in p[..k] && x != p[0];
    if x in s.tree && s.D(x) == CostTo(q.g, p, k + 1) {
      TreeBranch(q, s, x);
      LastStep(q, s, x);
      NoneAsCheap(q, s, p, dest, k, s.prev[x]);
    }
  }

  lemma NoneAsCheap(q: Problem, s: Progress, p: seq<Node>, dest: Node, k: nat, y: Node)
    requires Inv(q, s, {}) && q.startCost == 0 && IsAnswer(q.g, q.start, dest, p)
    requires Following(q, s, p, k) && k + 1 < |p|
    requires y in s.settled && (y, p[k + 1]) in q.g
    ensures s.D(y) + q.g[(y, p[k + 1])] != CostTo(q.g, p, k + 1)
  {
    SettledIsLeast(q, s, y);
    assert !Overtakes(q.g, p, k, y);
  }

  lemma LastStep(q: Problem, s: Progress, x: Node)
    requires TreeOk(q, s) && q.startCost == 0 && x in s.tree && x != q.start
    ensures x in s.prev && s.prev[x] in s.settled && s.prev[x] in s.tree
    ensures (s.prev[x], x) in q.g && s.D(x) == s.D(s.prev[x]) + q.g[(s.prev[x], x)]
  {
    TreeBranch(q, s, x);
    var y := s.prev[x];
    TreeBranch(q, s, y);
    assert s.tree[x][..|s.tree[x]| - 1] == s.tree[y];
  }

  // ----- what an expansion does to one node -----

  lemma {:induction false} ExpandedAt(s: Progress, u: Node, cost: nat, edges: seq<Edge>, x: Node)
    requires u in s.tree
    ensures var r := Expanded(s, u, cost, edges);
            && r.D(x) <= s.D(x) && r.settled == s.settled
            && (r.D(x) == s.D(x) && x in s.tree ==> x in r.tree && r.tree[x] == s.tree[x])
    decreases |edges|
  {
    if edges != [] {
      ExpandedAt(s, u, cost, edges[..|edges| - 1], x);
    }
  }

  predicate Leads(edges: seq<Edge>, u: Node, x: Node) {
    edges != [] && ((edges[|edges| - 1].from == u && edges[|edges| - 1].to == x) || Leads(edges[..|edges| - 1], u, x))
  }

  lemma {:induction false} LeadsBy(edges: seq<Edge>, u: Node, x: Node, i: nat)
    requires i < |edges| && edges[i].from == u && edges[i].to == x
    ensures Leads(edges, u, x)
    decreases |edges|
  {
    if i < |edges| - 1 {
      LeadsBy(edges[..|edges| - 1], u, x, i);
    }
  }

  /** An edge that improves its end makes the walk to its end the walk to `u` and one step. */
  lemma {:induction false} ExpandedReaches(s: Progress, u: Node, cost: nat, edges: seq<Edge>, x: Node, c: nat)
    requires u in s.tree && u != x && s.D(u) <= cost <= U64_MAX && c < s.D(x)
    requires forall i :: 0 <= i < |edges| && edges[i].from == u && edges[i].to == x ==>
      SatAdd(cost, Micros(edges[i].rtt)) == c
    ensures var r := Expanded(s, u, cost, edges);
            && r.tree[u] == s.tree[u] && r.D(u) == s.D(u)
            && (if Leads(edges, u, x) then r.D(x) == c && x in r.tree && r.tree[x] == s.tree[u] + [x]
                else r.D(x) == s.D(x))
    decreases |edges|
  {
    hide Micros;
    if edges != [] {
      ExpandedReaches(s, u, cost, edges[..|edges| - 1], x, c);
    }
  }

  // ----- one turn of the search that follows the walk -----

  /** The edge from `u`, settled now, to `x` is the one that reaches `x`. */
  lemma EdgeReaches(g: Weights, edges: seq<Edge>, s: Progress, u: Node, x: Node)
    requires Denotes(edges, g) && u in s.tree && (u, x) in g && u != x
    requires s.D(u) + g[(u, x)] < s.D(x) <= U64_MAX
    ensures var s' := Expanded(Settled(s, HeapEntry(s.D(u), u)), u, s.D(u), edges);
            && x in s'.tree && s'.tree[x] == s.tree[u] + [x] && s'.D(x) == s.D(u) + g[(u, x)]
            && s'.settled == s.settled + {u}
  {
    var s0 := Settled(s, HeapEntry(s.D(u), u));
    var i :| 0 <= i < |edges| && edges[i].from == u && edges[i].to == x;
    LeadsBy(edges, u, x, i);
    ExpandedReaches(s0, u, s.D(u), edges, x, s.D(u) + g[(u, x)]);
    ExpandedAt(s0, u, s.D(u), edges, x);
  }

  lemma StepReaches(q: Problem, edges: seq<Edge>, s: Progress, p: seq<Node>, dest: Node, k: nat)
    requires Inv(q, s, {}) && q.startCost == 0 && Denotes(edges, q.g) && IsAnswer(q.g, q.start, dest, p)
    requires Following(q, s, p, k) && k + 1 < |p|
    ensures p[k + 1] !in s.settled + {p[k]}
    ensures CostTo(q.g, p, k) <= CostTo(q.g, p, k + 1)
    ensures var s' := Expanded(Settled(s, HeapEntry(s.D(p[k]), p[k])), p[k], s.D(p[k]), edges);
            && p[k + 1] in s'.tree && s'.tree[p[k + 1]] == p[..k + 2] && s'.D(p[k + 1]) == CostTo(q.g, p, k + 1)
            && s'.settled == s.settled + {p[k]}
  {
    hide Inv, IsAnswer, CostTo, Denotes, Expanded, Nearer;
    AnswerShortest(q.g, q.start, dest, p);
    NextIsFresh(q, s, p, dest, k);
    CostToNext(q.g, p, k);
    DistancesFit(q, s, p[k + 1]);
    EdgeReaches(q.g, edges, s, p[k], p[k + 1]);
    assert p[..k + 1] + [p[k + 1]] == p[..k + 2];
  }

  lemma DistancesFit(q: Problem, s: Progress, x: Node)
    requires Inv(q, s, {})
    ensures s.D(x) <= U64_MAX
  {
    assert x in s.tree ==> Branch(q, s, x);
  }

  lemma StepNearer(s: Progress, u: Node, edges: seq<Edge>, c: nat, way: seq<Node>)
    requires Nearer(s, s.D(u), way) && u in s.tree && s.D(u) <= c
    ensures Nearer(Expanded(Settled(s, HeapEntry(s.D(u), u)), u, s.D(u), edges), c, way + [u])
  {
    hide Expanded;
    var s0 := Settled(s, HeapEntry(s.D(u), u));
    var s' := Expanded(s0, u, s.D(u), edges);
    ExpandedAt(s0, u, s.D(u), edges, u);
    forall y | y in s'.settled ensures s'.D(y) < c || (s'.D(y) == c && y in way + [u]) {
      ExpandedAt(s0, u, s.D(u), edges, y);
    }
  }

  lemma WaitNearer(s: Progress, e: HeapEntry, edges: seq<Edge>, c: nat, way: seq<Node>)
    requires Nearer(s, c, way) && e.node in s.tree && s.D(e.node) <= e.cost < c
    ensures Nearer(AfterPop(edges, s, e), c, way)
  {
    hide Expanded;
    if e.cost <= s.D(e.node) {
      var s0 := Settled(s, e);
      var s' := Expanded(s0, e.node, e.cost, edges);
      ExpandedAt(s0, e.node, e.cost, edges, e.node);
      forall y | y in s'.settled ensures s'.D(y) < c || (s'.D(y) == c && y in way) {
        ExpandedAt(s0, e.node, e.cost, edges, y);
      }
    }
  }

  /** The next node of the walk is popped: the walk leads on from it. */
  lemma FollowStep(q: Problem, edges: seq<Edge>, s: Progress, p: seq<Node>, dest: Node, k: nat)
    requires Inv(q, s, {}) && q.startCost == 0 && Denotes(edges, q.g) && IsAnswer(q.g, q.start, dest, p)
    requires Following(q, s, p, k) && k + 1 < |p|
    ensures var s' := AfterPop(edges, s, HeapEntry(s.D(p[k]), p[k]));
            Following(q, s', p, k + 1) && s'.settled == s.settled + {p[k]}
  {
    hide Inv, IsAnswer, CostTo, Denotes, Expanded, Nearer;
    AnswerShortest(q.g, q.start, dest, p);
    StepReaches(q, edges, s, p, dest, k);
    assert p[..k + 1] == p[..k] + [p[k]];
    StepNearer(s, p[k], edges, CostTo(q.g, p, k + 1), p[..k]);
  }

  /** The walk's next node keeps the walk to it, since nothing nearer is found. */
  lemma NextStays(q: Problem, edges: seq<Edge>, s: Progress, p: seq<Node>, dest: Node, k: nat, e: HeapEntry)
    requires Inv(q, s, {}) && q.startCost == 0 && Denotes(edges, q.g) && IsAnswer(q.g, q.start, dest, p)
    requires Following(q, s, p, k) && Popped(s, e) && e.cost < s.D(p[k]) && e.node in s.tree
    ensures var (u, s') := (p[k], AfterPop(edges, s, e));
            && u in s'.tree && u !in s'.settled && s'.tree[u] == s.tree[u] && s'.D(u) == s.D(u)
  {
    TurnKeeps(q, edges, s, e);
    InvTree(q, AfterPop(edges, s, e), {});
    hide Inv, IsAnswer, Expanded, Denotes, Overtakes;
    assert IsShortest(q.g, p, q.start, dest) && Cost(q.g, p) < U64_MAX by { AnswerShortest(q.g, q.start, dest, p); }
    NotNearer(q, AfterPop(edges, s, e), p, dest, k);
    if e.cost <= s.D(e.node) {
      ExpandedAt(Settled(s, e), e.node, e.cost, edges, p[k]);
    }
  }

  lemma AnswerShortest(g: Weights, u: Node, dest: Node, p: seq<Node>)
    requires IsAnswer(g, u, dest, p)
    ensures IsShortest(g, p, u, dest) && Cost(g, p) < U64_MAX && NoRepeats(p)
  {
  }

  lemma WaitIsNotEnd(q: Problem, s: Progress, p: seq<Node>, dest: Node, k: nat, e: HeapEntry)
    requires Inv(q, s, {}) && q.startCost == 0 && IsAnswer(q.g, q.start, dest, p) && k < |p| && Popped(s, e)
    requires e.cost < CostTo(q.g, p, k)
    ensures e.node != dest && s.D(e.node) <= e.cost
  {
    InvTree(q, s, {});
    AnswerShortest(q.g, q.start, dest, p);
    PoppedCost(s, e);
    hide Inv, IsAnswer, CostTo, TreeOk;
    NotNearer(q, s, p, dest, |p| - 1);
    CostToGrows(q.g, p, k, |p| - 1);
  }

  /** Something nearer is popped: the walk is where it was. */
  lemma FollowWait(q: Problem, edges: seq<Edge>, s: Progress, p: seq<Node>, dest: Node, k: nat, e: HeapEntry)
    requires Inv(q, s, {}) && q.startCost == 0 && Denotes(edges, q.g) && IsAnswer(q.g, q.start, dest, p)
    requires Following(q, s, p, k) && Popped(s, e) && e.cost < s.D(p[k]) && e.node in s.tree
    ensures e.node != dest && Following(q, AfterPop(edges, s, e), p, k)
  {
    hide Inv, IsAnswer, CostTo, Denotes, Nearer, AfterPop, Popped;
    AnswerShortest(q.g, q.start, dest, p);
    NextStays(q, edges, s, p, dest, k, e);
    WaitIsNotEnd(q, s, p, dest, k, e);
    WaitNearer(s, e, edges, CostTo(q.g, p, k), p[..k]);
    TurnKeeps(q, edges, s, e);
  }

  lemma PoppedCost(s: Progress, e: HeapEntry)
    requires HeapOk(s) && Popped(s, e)
    ensures s.D(e.node) <= e.cost
  {
  }

  lemma InitiallyFollowing(q: Problem, nodes: set<Node>, p: seq<Node>)
    requires IsWalk(q.g, p) && p[0] == q.start && q.startCost == 0
    ensures Following(q, Initial(nodes, q.start, 0), p, 0)
  {
    assert p[..1] == [q.start];
  }

  /** The turn to take: what is nearer than the walk's next node comes first, then that node itself. */
  lemma FollowTurn(q: Problem, edges: seq<Edge>, s: Progress, p: seq<Node>, dest: Node, k: nat)
    returns (e: HeapEntry, k': nat)
    requires Inv(q, s, {}) && q.startCost == 0 && Denotes(edges, q.g) && IsAnswer(q.g, q.start, dest, p)
    requires Following(q, s, p, k)
    ensures Popped(s, e) && e.node in s.tree
    ensures e.node == dest ==> s.tree[dest] == p
    ensures e.node != dest ==> var s' := AfterPop(edges, s, e);
      && Inv(q, s', {}) && Following(q, s', p, k')
      && s'.tree.Keys <= s.tree.Keys + (set f | f in q.g :: f.1)
      && (if e.node in s'.settled - s.settled then s'.settled == s.settled + {e.node}
          else s'.settled == s.settled && |s'.heap| < |s.heap|)
  {
    NextInHeap(q, s, p, dest, k);
    var next := HeapEntry(s.D(p[k]), p[k]);
    e := MinExists(s.heap);
    hide Inv, Denotes, IsAnswer, Following, Expanded;
    if e.cost < next.cost {
      k' := k;
      TurnKeeps(q, edges, s, e);
      FollowWait(q, edges, s, p, dest, k, e);
    } else {
      e, k' := next, k + 1;
      if p[k] != dest {
        TurnKeeps(q, edges, s, e);
        FollowStep(q, edges, s, p, dest, k);
      }
    }
  }

  /** From any point of such a search some more turns end it with the walk. */
  lemma {:induction false} FollowToEnd(q: Problem, edges: seq<Edge>, initial: Progress, s: Progress, n: nat,
                                       p: seq<Node>, dest: Node, k: nat, universe: set<Node>) returns (end: Progress)
    requires Inv(q, s, {}) && q.startCost == 0 && Denotes(edges, q.g) && IsAnswer(q.g, q.start, dest, p)
    requires Following(q, s, p, k) && Turns(edges, dest, initial, s, n)
    requires s.tree.Keys <= universe && (set e | e in q.g :: e.1) <= universe
    ensures Searched(edges, dest, initial, end) && dest in end.tree && end.tree[dest] == p
    decreases universe - s.settled, |s.heap|
  {
    hide Inv, Turns, Denotes, IsAnswer, Following, AfterPop;
    var e, k' := FollowTurn(q, edges, s, p, dest, k);
    if e.node == dest {
      end := s;
    } else {
      OneMoreTurn(edges, dest, initial, s, e, n);
      end := FollowToEnd(q, edges, initial, AfterPop(edges, s, e), n + 1, p, dest, k', universe);
    }
  }

  lemma NextInHeap(q: Problem, s: Progress, p: seq<Node>, dest: Node, k: nat)
    requires Inv(q, s, {}) && IsAnswer(q.g, q.start, dest, p) && Following(q, s, p, k)
    ensures k < |p| && HeapEntry(s.D(p[k]), p[k]) in s.heap && p[k] in s.tree
    ensures k == |p| - 1 <==> p[k] == dest
    ensures p[k] == dest ==> s.tree[p[k]] == p
  {
    assert p[..|p|] == p;
  }

  lemma AppendLists(m: Entries, edges: seq<Edge>, k: (Node, Node), entry: LatencyEntry)
    requires ListsOnce(edges, m) && k !in m
    ensures ListsOnce(edges + [Edge(k.0, k.1, entry.smoothedRtt)], m[k := entry])
  {
    var m', longer := m[k := entry], edges + [Edge(k.0, k.1, entry.smoothedRtt)];
    forall k' | k' in m' ensures exists i :: 0 <= i < |longer| && longer[i].from == k'.0 && longer[i].to == k'.1 {
      if k' == k {
        assert longer[|edges|].from == k'.0;
      } else {
        var i :| 0 <= i < |edges| && edges[i].from == k'.0 && edges[i].to == k'.1;
        assert longer[i] == edges[i];
      }
    }
    forall i, j | 0 <= i < j < |longer| ensures longer[i].from != longer[j].from || longer[i].to != longer[j].to {
      assert longer[i] == edges[i] && (edges[i].from, edges[i].to) in m;
    }
  }

  lemma {:induction false} ListingExists(m: Entries) returns (edges: seq<Edge>)
    ensures ListsOnce(edges, m)
    decreases |m|
  {
    if m == map[] {
      edges := [];
    } else {
      hide ListsOnce;
      var k :| k in m;
      var rest := ListingExists(m - {k});
      AppendLists(m - {k}, rest, k, m[k]);
      assert m == (m - {k})[k := m[k]];
      edges := rest + [Edge(k.0, k.1, m[k].smoothedRtt)];
    }
  }

  lemma FirstIsAnswered(m: Entries, u: Node, dest: Node, p: seq<Node>)
    requires IsAnswer(WeightsOf(m), u, dest, p)
    ensures MayAnswer(m, u, dest, p)
  {
    hide Inv, Turns, Overtakes, ListsOnce, Following;
    var q := Problem(WeightsOf(m), u, 0);
    var edges := ListingExists(m);
    ListedDenotes(edges, m);
    var initial := Initial(Ends(m), u, 0);
    InitiallyInv(q, Ends(m));
    InitiallyFollowing(q, Ends(m), p);
    NoTurns(edges, dest, initial);
    var s := FollowToEnd(q, edges, initial, initial, 0, p, dest, 0, {u} + set e | e in q.g :: e.1);
  }

  /** The routes a search may answer, with some listing of the edges and some order of ties, are exactly these. */
  lemma AnswersExactly(m: Entries, u: Node, dest: Node, p: seq<Node>)
    ensures MayAnswer(m, u, dest, p) <==> IsAnswer(WeightsOf(m), u, dest, p)
  {
    hide MayAnswer, IsAnswer;
    if MayAnswer(m, u, dest, p) {
      AnswerIsFirst(m, u, dest, p);
    }
    if IsAnswer(WeightsOf(m), u, dest, p) {
      FirstIsAnswered(m, u, dest, p);
    }
  }

  /** `v` is a next hop that a search at `u` may answer. */
  ghost predicate MayAnswerHop(m: Entries, u: Node, dest: Node, v: Node) {
    exists p :: MayAnswer(m, u, dest, p) && |p| >= 2 && p[1] == v
  }

  ghost predicate AnswerHop(g: Weights, u: Node, dest: Node, v: Node) {
    exists p :: IsAnswer(g, u, dest, p) && |p| >= 2 && p[1] == v
  }

  lemma HopsExactly(m: Entries, u: Node, dest: Node, v: Node)
    ensures MayAnswerHop(m, u, dest, v) <==> AnswerHop(WeightsOf(m), u, dest, v)
  {
    hide MayAnswer, IsAnswer;
    if p :| MayAnswer(m, u, dest, p) && |p| >= 2 && p[1] == v {
      AnswersExactly(m, u, dest, p);
    }
    if p :| IsAnswer(WeightsOf(m), u, dest, p) && |p| >= 2 && p[1] == v {
      AnswersExactly(m, u, dest, p);
    }
  }
}
