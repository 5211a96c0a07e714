/** The live latency matrix: one smoothed entry per ordered pair of nodes. */
module Matrix {
  import opened Bytes
  import opened Graph

  datatype LatencyEntry = LatencyEntry(smoothedRtt: Nanos, jitter: Nanos, lastUpdated: Nanos, samples: nat)

  datatype Edge = Edge(from: Node, to: Node, rtt: Nanos)

  /** `Duration::as_micros`. */
  function WholeMicros(d: Nanos): nat {
    d / 1000
  }

  /** `Duration::as_micros() as u64`, the weight the router compares: the cast keeps the low 64 bits. */
  function Micros(d: Nanos): nat {
    WholeMicros(d) % U64
  }

  /** A weight is what is left of the whole microseconds when multiples of 2^64 are taken off. */
  lemma WeightIsLowBits(d: Nanos)
    ensures Micros(d) <= U64_MAX && (d / 1000 - Micros(d)) % U64 == 0
  {
    ModIsLow(d / 1000, U64);
  }

  lemma ModIsLow(v: nat, m: nat)
    requires m > 0
    ensures v % m < m && (v - v % m) % m == 0
  {
    ModUnique(v - v % m, m, v / m, 0);
  }

  /** One EWMA step, old * 0.875 + new * 0.125, truncated to an integer. */
  function Ewma(smoothed: nat, sample: nat): nat {
    (7 * smoothed + sample) / 8
  }

  function AbsDiff(a: nat, b: nat): nat {
    if a < b then b - a else a - b
  }

  /** The entry after one more sample; the first sample is stored untruncated, with no jitter. */
  function Observe(e: Option<LatencyEntry>, rtt: Nanos, now: Nanos): LatencyEntry {
    match e
    case None => LatencyEntry(rtt, 0, now, 1)
    case Some(e) =>
      var rttUs, oldUs := WholeMicros(rtt), WholeMicros(e.smoothedRtt);
      LatencyEntry(1000 * Ewma(oldUs, rttUs),
                   1000 * Ewma(WholeMicros(e.jitter), AbsDiff(rttUs, oldUs)),
                   now,
                   e.samples + 1)
  }

  /** `whole` is the mean of seven parts `held` and one part `sample`, cut to a whole number. */
  predicate IsWeightedMean(whole: nat, held: nat, sample: nat) {
    7 * held + sample - 8 < 8 * whole <= 7 * held + sample
  }

  /** What a sample does to an entry: time and jitter move an eighth of the way, the jitter towards the distance of
      sample and old time, and both are stored in whole microseconds; only a first sample is stored as it is. */
  ghost predicate IsSampled(before: Option<LatencyEntry>, rtt: Nanos, now: Nanos, after: LatencyEntry) {
    && after.lastUpdated == now
    && match before
       case None => after.smoothedRtt == rtt && after.jitter == 0 && after.samples == 1
       case Some(e) =>
         var (sample, held) := (rtt / 1000, e.smoothedRtt / 1000);
         && after.smoothedRtt % 1000 == 0 && IsWeightedMean(after.smoothedRtt / 1000, held, sample)
         && after.jitter % 1000 == 0
         && IsWeightedMean(after.jitter / 1000, e.jitter / 1000, if sample < held then held - sample else sample - held)
         && after.samples == e.samples + 1
  }

  lemma ObserveSamples(e: Option<LatencyEntry>, rtt: Nanos, now: Nanos)
    ensures IsSampled(e, rtt, now, Observe(e, rtt, now))
  {
  }

  function Lookup(m: map<(Node, Node), LatencyEntry>, from: Node, to: Node): Option<LatencyEntry> {
    if (from, to) in m then Some(m[(from, to)]) else None
  }

  ghost function WeightsOf(m: map<(Node, Node), LatencyEntry>): (g: Weights) {
    map k | k in m :: Micros(m[k].smoothedRtt)
  }

  /** `edges` lists exactly the entries of `m`, each once, in some order. */
  ghost predicate ListsOnce(edges: seq<Edge>, m: map<(Node, Node), LatencyEntry>) {
    && (forall i :: 0 <= i < |edges| ==>
          (edges[i].from, edges[i].to) in m && edges[i].rtt == m[(edges[i].from, edges[i].to)].smoothedRtt)
    && (forall k :: k in m ==> exists i :: 0 <= i < |edges| && edges[i].from == k.0 && edges[i].to == k.1)
    && (forall i, j :: 0 <= i < j < |edges| ==> edges[i].from != edges[j].from || edges[i].to != edges[j].to)
  }

  /** All ends of tracked paths. */
  function Ends(m: map<(Node, Node), LatencyEntry>): set<Node> {
    (set k | k in m :: k.0) + (set k | k in m :: k.1)
  }

  class LatencyMatrix {
    var entries: map<(Node, Node), LatencyEntry>

    constructor ()
      ensures entries == map[]
    {
      entries := map[];
    }

    method Update(from: Node, to: Node, rtt: Nanos, now: Nanos)
      modifies this
      ensures entries == old(entries)[(from, to) := Observe(Lookup(old(entries), from, to), rtt, now)]
      ensures IsSampled(Lookup(old(entries), from, to), rtt, now, entries[(from, to)])
    {
      ObserveSamples(Lookup(entries, from, to), rtt, now);
      var key := (from, to);
      if key in entries {
        var e := entries[key];
        var rttUs := WholeMicros(rtt);
        var oldUs := WholeMicros(e.smoothedRtt);
        var newUs := Ewma(oldUs, rttUs);
        var diff := AbsDiff(rttUs, oldUs);
        var newJitter := Ewma(WholeMicros(e.jitter), diff);
        e := e.(smoothedRtt := 1000 * newUs);
        e := e.(jitter := 1000 * newJitter);
        e := e.(lastUpdated := now);
        e := e.(samples := e.samples + 1);
        entries := entries[key := e];
      } else {
        entries := entries[key := LatencyEntry(rtt, 0, now, 1)];
      }
    }

    function GetRtt(from: Node, to: Node): Option<Nanos>
      reads this
    {
      if (from, to) in entries then Some(entries[(from, to)].smoothedRtt) else None
    }

    /** Every entry once, in the arbitrary order of the concurrent map. */
    method AllEdges() returns (edges: seq<Edge>)
      ensures ListsOnce(edges, entries)
    {
      edges := [];
      var todo := entries.Keys;
      while todo != {}
        invariant todo <= entries.Keys
        invariant forall i :: 0 <= i < |edges| ==>
          (edges[i].from, edges[i].to) in entries.Keys - todo &&
          edges[i].rtt == entries[(edges[i].from, edges[i].to)].smoothedRtt
        invariant forall k :: k in entries && k !in todo ==>
          exists i :: 0 <= i < |edges| && edges[i].from == k.0 && edges[i].to == k.1
        invariant forall i, j :: 0 <= i < j < |edges| ==> edges[i].from != edges[j].from || edges[i].to != edges[j].to
      {
        var k :| k in todo;
        ghost var before := edges;
        edges := edges + [Edge(k.0, k.1, entries[k].smoothedRtt)];
        assert edges[|before|].from == k.0 && edges[|before|].to == k.1;
        forall k' | k' in entries && k' !in todo - {k}
          ensures exists i :: 0 <= i < |edges| && edges[i].from == k'.0 && edges[i].to == k'.1
        {
          if k' != k {
            var i :| 0 <= i < |before| && before[i].from == k'.0 && before[i].to == k'.1;
            assert edges[i] == before[i];
          }
        }
        todo := todo - {k};
      }
    }

    /** Every end of a tracked path. */
    method Nodes() returns (nodes: set<Node>)
      ensures nodes == Ends(entries)
      ensures forall u :: u in nodes <==> exists k :: k in entries && (k.0 == u || k.1 == u)
    {
      nodes := {};
      var todo := entries.Keys;
      while todo != {}
        invariant todo <= entries.Keys
        invariant nodes == (set k | k in entries.Keys - todo :: k.0) + (set k | k in entries.Keys - todo :: k.1)
      {
        var k :| k in todo;
        nodes := nodes + {k.0, k.1};
        todo := todo - {k};
      }
    }
  }
}
