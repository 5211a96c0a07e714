/** Walks, costs and shortest walks in the weighted digraph that the latency matrix denotes. */
module Graph {
  import opened Bytes

  /** Weight of every directed edge, in whole microseconds. */
  type Weights = map<(Node, Node), nat>

  ghost predicate IsWalk(g: Weights, p: seq<Node>) {
    |p| > 0 && (|p| > 1 ==> IsWalk(g, p[..|p| - 1]) && (p[|p| - 2], p[|p| - 1]) in g)
  }

  ghost function Cost(g: Weights, p: seq<Node>): nat
    requires IsWalk(g, p)
  {
    if |p| == 1 then 0 else Cost(g, p[..|p| - 1]) + g[(p[|p| - 2], p[|p| - 1])]
  }

  ghost predicate Joins(g: Weights, p: seq<Node>, a: Node, b: Node) {
    IsWalk(g, p) && p[0] == a && p[|p| - 1] == b
  }

  ghost predicate IsShortest(g: Weights, p: seq<Node>, a: Node, b: Node) {
    Joins(g, p, a, b) && forall q :: Joins(g, q, a, b) ==> Cost(g, p) <= Cost(g, q)
  }

  /** The least cost from `a` to `b` is `c`. */
  ghost predicate DistanceIs(g: Weights, a: Node, b: Node, c: nat) {
    exists p :: IsShortest(g, p, a, b) && Cost(g, p) == c
  }

  /** Some walk costs less than the search's infinity, `u64::MAX`. */
  ghost predicate Reaches(g: Weights, a: Node, b: Node) {
    exists p :: Joins(g, p, a, b) && Cost(g, p) < U64_MAX
  }

  predicate NoRepeats(p: seq<Node>) {
    forall i, j :: 0 <= i < j < |p| ==> p[i] != p[j]
  }

  lemma Snoc(g: Weights, p: seq<Node>, v: Node)
    requires IsWalk(g, p) && (p[|p| - 1], v) in g
    ensures IsWalk(g, p + [v]) && Cost(g, p + [v]) == Cost(g, p) + g[(p[|p| - 1], v)]
  {
    assert (p + [v])[..|p + [v]| - 1] == p;
  }

  /** Walks that meet compose, and their costs add. */
  lemma {:induction false} Compose(g: Weights, p: seq<Node>, q: seq<Node>)
    requires IsWalk(g, p) && IsWalk(g, q) && p[|p| - 1] == q[0]
    ensures IsWalk(g, p + q[1..]) && Cost(g, p + q[1..]) == Cost(g, p) + Cost(g, q)
    decreases |q|
  {
    if |q| == 1 {
      assert p + q[1..] == p;
    } else {
      var q' := q[..|q| - 1];
      Compose(g, p, q');
      assert p + q[1..] == (p + q'[1..]) + [q[|q| - 1]];
      assert (p + q'[1..])[|p + q'[1..]| - 1] == q'[|q'| - 1];
      Snoc(g, p + q'[1..], q[|q| - 1]);
    }
  }

  /** A walk splits at any of its nodes, and so does its cost. */
  lemma {:induction false} Split(g: Weights, p: seq<Node>, i: nat)
    requires IsWalk(g, p) && i < |p|
    ensures IsWalk(g, p[..i + 1]) && IsWalk(g, p[i..])
    ensures Cost(g, p) == Cost(g, p[..i + 1]) + Cost(g, p[i..])
    decreases |p|
  {
    if i == |p| - 1 {
      assert p[..i + 1] == p && p[i..] == [p[i]];
    } else {
      var p' := p[..|p| - 1];
      Split(g, p', i);
      assert p'[..i + 1] == p[..i + 1];
      assert p[i..] == p'[i..] + [p[|p| - 1]];
      assert p'[i..][|p'[i..]| - 1] == p[|p| - 2];
      Snoc(g, p'[i..], p[|p| - 1]);
    }
  }

  lemma Cons(g: Weights, u: Node, p: seq<Node>)
    requires IsWalk(g, p) && (u, p[0]) in g
    ensures IsWalk(g, [u] + p) && Cost(g, [u] + p) == g[(u, p[0])] + Cost(g, p)
  {
    var e := [u, p[0]];
    assert e[..1] == [u];
    Compose(g, e, p);
    assert e + p[1..] == [u] + p;
  }

  lemma Uncons(g: Weights, p: seq<Node>)
    requires IsWalk(g, p) && |p| > 1
    ensures (p[0], p[1]) in g && IsWalk(g, p[1..])
    ensures Cost(g, p) == g[(p[0], p[1])] + Cost(g, p[1..])
  {
    Split(g, p, 1);
    assert p[..2][..1] == [p[0]];
  }

  /** Where some walk exists a shortest one does. */
  lemma {:induction false} ShortestExists(g: Weights, p: seq<Node>, a: Node, b: Node) returns (s: seq<Node>)
    requires Joins(g, p, a, b)
    ensures IsShortest(g, s, a, b)
    decreases Cost(g, p)
  {
    if q :| Joins(g, q, a, b) && Cost(g, q) < Cost(g, p) {
      s := ShortestExists(g, q, a, b);
    } else {
      s := p;
    }
  }

  /** What is left of a shortest walk, after any of its nodes, is shortest from there. */
  lemma SuffixShortest(g: Weights, p: seq<Node>, a: Node, b: Node)
    requires IsShortest(g, p, a, b) && |p| > 1
    ensures (a, p[1]) in g && IsShortest(g, p[1..], p[1], b)
    ensures Cost(g, p) == g[(a, p[1])] + Cost(g, p[1..])
  {
    Uncons(g, p);
    forall q | Joins(g, q, p[1], b) ensures Cost(g, p[1..]) <= Cost(g, q) {
      Cons(g, a, q);
      assert Joins(g, [a] + q, a, b);
    }
  }
}
