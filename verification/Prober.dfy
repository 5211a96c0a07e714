/** Latency probes: what pings and pongs do to the matrix, and what routing makes of it. */
module Probing {
  import opened Bytes
  import opened Ewma
  import opened Graph
  import opened Matrix
  import opened Router

  const PROBE_TIMEOUT: Nanos := 10_000_000_000

  datatype ProbeState = ProbeState(pending: map<nat, (Node, Nanos)>, nextProbeId: nat, entries: Entries)

  /** `Instant::elapsed`. */
  function Since(now: Nanos, t: Nanos): Nanos {
    SatSub(now, t)
  }

  function Recorded(m: Entries, from: Node, to: Node, rtt: Nanos, now: Nanos): Entries {
    m[(from, to) := Observe(Lookup(m, from, to), rtt, now)]
  }

  function Pinged(s: ProbeState, peer: Node, now: Nanos): ProbeState {
    var all := s.pending[s.nextProbeId := (peer, now)];
    s.(pending := map id | id in all && Since(now, all[id].1) < PROBE_TIMEOUT :: all[id],
       nextProbeId := (s.nextProbeId + 1) % U32)
  }

  function Ponged(local: Node, s: ProbeState, payload: Data, now: Nanos): ProbeState {
    if |payload| < 4 then s
    else
      var id := FromLe(payload[..4]);
      if id !in s.pending then s
      else
        var (peer, sent) := s.pending[id];
        var rtt := Since(now, sent);
        s.(pending := s.pending - {id},
           entries := Recorded(Recorded(s.entries, local, peer, rtt, now), peer, local, rtt, now))
  }

  class Prober {
    const nodeId: Node
    const matrix: LatencyMatrix
    var pending: map<nat, (Node, Nanos)>
    var nextProbeId: nat

    function View(): ProbeState
      reads this, matrix
    {
      ProbeState(pending, nextProbeId, matrix.entries)
    }

    constructor (nodeId: Node, matrix: LatencyMatrix)
      ensures this.nodeId == nodeId && this.matrix == matrix
      ensures View() == ProbeState(map[], 1, matrix.entries)
    {
      this.nodeId := nodeId;
      this.matrix := matrix;
      pending := map[];
      nextProbeId := 1;
    }

    method CreatePing(peer: Node, now: Nanos) returns (payload: Data)
      modifies this
      ensures View() == Pinged(old(View()), peer, now)
      ensures payload == Le(old(nextProbeId), 4)
    {
      var probeId := nextProbeId;
      nextProbeId := (nextProbeId + 1) % U32;
      pending := pending[probeId := (peer, now)];
      pending := map id | id in pending && Since(now, pending[id].1) < PROBE_TIMEOUT :: pending[id];
      return Le(probeId, 4);
    }

    method HandlePong(payload: Data, now: Nanos)
      modifies this, matrix
      ensures View() == Ponged(nodeId, old(View()), payload, now)
    {
      if |payload| < 4 {
        return;
      }
      var probeId := FromLe(payload[..4]);
      if probeId in pending {
        var (peer, sent) := pending[probeId];
        pending := pending - {probeId};
        var rtt := Since(now, sent);
        matrix.Update(nodeId, peer, rtt, now);
        matrix.Update(peer, nodeId, rtt, now);
      }
    }
  }

  // ----- runs -----

  datatype Event = Ping(peer: Node, now: Nanos) | Pong(payload: Data, now: Nanos)

  function After(local: Node, events: seq<Event>): ProbeState {
    if events == [] then ProbeState(map[], 1, map[])
    else
      var s := After(local, events[..|events| - 1]);
      match events[|events| - 1]
      case Ping(peer, now) => Pinged(s, peer, now)
      case Pong(payload, now) => Ponged(local, s, payload, now)
  }

  // ----- what the events alone say -----

  /** Where the pings are: probe `id` is the one at `id - 1`. */
  function Pings(events: seq<Event>): (p: seq<nat>)
    ensures forall k :: 0 <= k < |p| ==> p[k] < |events| && events[p[k]].Ping?
  {
    if events == [] then []
    else
      var n := |events| - 1;
      Pings(events[..n]) + (if events[n].Ping? then [n] else [])
  }

  /** The peers probed, in order. */
  function Issued(events: seq<Event>): (peers: seq<Node>)
    ensures |peers| == |Pings(events)|
  {
    seq(|Pings(events)|, k requires 0 <= k < |Pings(events)| => events[Pings(events)[k]].peer)
  }

  function PingOf(events: seq<Event>, id: nat): (e: Event)
    requires 1 <= id <= |Pings(events)|
    ensures e.Ping?
  {
    events[Pings(events)[id - 1]]
  }

  /** The probe a pong is for; 0, which no probe has, if it names none. */
  function IdOf(e: Event): nat {
    if e.Pong? && |e.payload| >= 4 then FromLe(e.payload[..4]) else 0
  }

  /** Probe `id` has been sent, no pong since was for it, and no ping since came 10 s later or more. */
  ghost predicate Awaited(events: seq<Event>, id: nat) {
    && 1 <= id <= |Pings(events)|
    && (forall j :: Pings(events)[id - 1] < j < |events| ==> IdOf(events[j]) != id)
    && (forall j :: Pings(events)[id - 1] < j < |events| && events[j].Ping? ==>
          events[j].now - PingOf(events, id).now < 10_000_000_000)
  }

  /** After `events`, `e` is an answer to a probe of `peer`. */
  ghost predicate Answers(events: seq<Event>, e: Event, peer: Node) {
    Awaited(events, IdOf(e)) && PingOf(events, IdOf(e)).peer == peer
  }

  /** The interval from the ping to the pong that answers it, and the instant of the pong; a clock that runs backwards
      measures nothing. */
  ghost function Measurement(events: seq<Event>, e: Event): (Nanos, Nanos)
    requires Awaited(events, IdOf(e))
  {
    var sent := PingOf(events, IdOf(e)).now;
    (if e.now < sent then 0 else e.now - sent, e.now)
  }

  /** What the answered probes of `peer` measured, in order. */
  ghost function Samples(events: seq<Event>, peer: Node): seq<(Nanos, Nanos)> {
    if events == [] then []
    else
      var init, e := events[..|events| - 1], events[|events| - 1];
      Samples(init, peer) + (if Answers(init, e, peer) then [Measurement(init, e)] else [])
  }

  lemma PingsSnoc(init: seq<Event>, e: Event)
    ensures Pings(init + [e]) == Pings(init) + (if e.Ping? then [|init|] else [])
  {
    assert (init + [e])[..|init|] == init;
  }

  lemma AwaitedSnoc(init: seq<Event>, e: Event, id: nat)
    ensures Awaited(init + [e], id) <==>
      if e.Ping? then
        id == |Pings(init)| + 1 || (Awaited(init, id) && e.now - PingOf(init, id).now < 10_000_000_000)
      else Awaited(init, id) && IdOf(e) != id
    ensures 1 <= id <= |Pings(init)| ==> id <= |Pings(init + [e])| && PingOf(init + [e], id) == PingOf(init, id)
    ensures e.Ping? ==> |Pings(init + [e])| == |Pings(init)| + 1 && PingOf(init + [e], |Pings(init)| + 1) == e
  {
    PingsSnoc(init, e);
    var events := init + [e];
    assert events[|init|] == e;
    if 1 <= id <= |Pings(init)| {
      assert PingOf(events, id) == PingOf(init, id);
      assert forall j :: 0 <= j < |init| ==> events[j] == init[j];
    }
  }

  lemma AwaitedIssued(events: seq<Event>, id: nat)
    ensures Awaited(events, id) ==> 1 <= id <= |Pings(events)|
    ensures !Awaited([], id)
  {
  }

  /** In every run whose ids have not wrapped, exactly the awaited probes are pending. */
  lemma {:induction false} PendingExactly(local: Node, events: seq<Event>, id: nat)
    requires |Issued(events)| + 1 < U32
    ensures var s := After(local, events);
            && s.nextProbeId == |Issued(events)| + 1
            && (id in s.pending <==> Awaited(events, id))
            && (id in s.pending ==> s.pending[id] == (PingOf(events, id).peer, PingOf(events, id).now))
    decreases |events|
  {
    hide Awaited, PingOf;
    AwaitedIssued(events, id);
    if events != [] {
      var init, e := events[..|events| - 1], events[|events| - 1];
      assert events == init + [e];
      PingsSnoc(init, e);
      PendingExactly(local, init, id);
      AwaitedSnoc(init, e, id);
      AwaitedIssued(init, id);
    }
  }

  /** The echo of a probe's payload is for that probe. */
  lemma EchoNamesProbe(id: nat, now: Nanos)
    requires id < U32
    ensures IdOf(Pong(Le(id, 4), now)) == id
  {
    FieldSizes();
    FromLeOfLe(id, 4);
    assert Le(id, 4)[..4] == Le(id, 4);
  }

  /** No probe is answered twice. */
  lemma AnsweredOnce(events: seq<Event>, i: nat, j: nat)
    requires i < j < |events| && Awaited(events[..i], IdOf(events[i]))
    ensures IdOf(events[j]) == IdOf(events[i]) ==> !Awaited(events[..j], IdOf(events[j]))
  {
    PingStays(events, i, j, IdOf(events[i]));
  }

  lemma {:induction false} PingStays(events: seq<Event>, i: nat, j: nat, id: nat)
    requires i <= j <= |events| && 1 <= id <= |Pings(events[..i])|
    ensures id <= |Pings(events[..j])| && Pings(events[..j])[id - 1] == Pings(events[..i])[id - 1]
    decreases j - i
  {
    if i < j {
      PingStays(events, i, j - 1, id);
      assert events[..j] == events[..j - 1] + [events[j - 1]];
      PingsSnoc(events[..j - 1], events[j - 1]);
    }
  }

  /** Every edge joins the local node and a peer, both ways alike. */
  ghost predicate Star(m: Entries, local: Node) {
    forall k :: k in m ==>
      (k.0 == local) != (k.1 == local) && (k.1, k.0) in m && m[k] == m[(k.1, k.0)]
  }

  /** The entries after an answer: the two of the answering peer gain the same sample. */
  lemma PongEntries(m: Entries, local: Node, peer: Node, rtt: Nanos, now: Nanos)
    requires Star(m, local) && peer != local
    ensures var e := Observe(Lookup(m, local, peer), rtt, now);
            Recorded(Recorded(m, local, peer, rtt, now), peer, local, rtt, now)
              == m[(local, peer) := e][(peer, local) := e]
            && Star(m[(local, peer) := e][(peer, local) := e], local)
  {
    assert Lookup(m, local, peer) == Lookup(m, peer, local);
  }

  /** The matrix is what the measured intervals make of it. */
  ghost predicate Measured(m: Entries, local: Node, events: seq<Event>) {
    Star(m, local) && forall p :: Lookup(m, local, p) == Track(Samples(events, p))
  }

  lemma SamplesSnoc(init: seq<Event>, e: Event, peer: Node)
    ensures Samples(init + [e], peer)
         == Samples(init, peer) + (if Answers(init, e, peer) then [Measurement(init, e)] else [])
  {
    hide Awaited, Measurement;
    assert (init + [e])[..|init|] == init;
  }

  lemma TrackSnoc(samples: seq<(Nanos, Nanos)>, sample: (Nanos, Nanos))
    ensures Track(samples + [sample]) == Some(Observe(Track(samples), sample.0, sample.1))
    ensures Track(samples + []) == Track(samples)
  {
    assert (samples + [sample])[..|samples|] == samples;
    assert samples + [] == samples;
  }

  lemma AnswerKeeps(m: Entries, local: Node, init: seq<Event>, e: Event, peer: Node)
    requires Measured(m, local, init) && peer != local && Answers(init, e, peer)
    ensures var rtt := Measurement(init, e).0;
            Measured(Recorded(Recorded(m, local, peer, rtt, e.now), peer, local, rtt, e.now), local, init + [e])
  {
    hide Awaited, Samples, Track, Star, Observe;
    var rtt := Measurement(init, e).0;
    PongEntries(m, local, peer, rtt, e.now);
    forall p ensures Answers(init, e, p) <==> p == peer {}
    forall p
      ensures Track(Samples(init + [e], p))
           == if p == peer then Some(Observe(Track(Samples(init, p)), rtt, e.now)) else Track(Samples(init, p))
    {
      SamplesSnoc(init, e, p);
      TrackSnoc(Samples(init, p), Measurement(init, e));
    }
  }

  lemma NoAnswerKeeps(m: Entries, local: Node, init: seq<Event>, e: Event)
    requires Measured(m, local, init) && !Awaited(init, IdOf(e))
    ensures Measured(m, local, init + [e])
  {
    hide Awaited, Samples, Track, Star;
    forall p ensures Samples(init + [e], p) == Samples(init, p) {
      SamplesSnoc(init, e, p);
      assert Samples(init, p) + [] == Samples(init, p);
    }
  }

  lemma IssuedSnoc(init: seq<Event>, e: Event)
    ensures Issued(init + [e]) == Issued(init) + (if e.Ping? then [e.peer] else [])
  {
    PingsSnoc(init, e);
  }

  /** In every run whose ids have not wrapped and whose peers are not the local node, the matrix is a symmetric star,
      and the entry of each peer is what the intervals measured for it make of it, in their order. */
  lemma {:induction false} ProbeRun(local: Node, events: seq<Event>)
    requires |Issued(events)| + 1 < U32 && local !in Issued(events)
    ensures Star(After(local, events).entries, local)
    ensures forall p :: Lookup(After(local, events).entries, local, p) == Track(Samples(events, p))
    decreases |events|
  {
    hide Awaited, Star, Track;
    if events == [] {
      assert Star(map[], local) by { EmptyStar(local); }
      forall p ensures Track(Samples([], p)) == None { NothingTracked(p); }
    } else {
      var init, e := events[..|events| - 1], events[|events| - 1];
      assert events == init + [e];
      IssuedSnoc(init, e);
      ProbeRun(local, init);
      var s, id := After(local, init), IdOf(e);
      PendingExactly(local, init, id);
      AwaitedIssued(init, id);
      if Awaited(init, id) {
        var ping := PingOf(init, id);
        assert ping.peer in Issued(init) by { assert Issued(init)[id - 1] == ping.peer; }
        AnswerKeeps(s.entries, local, init, e, ping.peer);
      } else {
        NoAnswerKeeps(s.entries, local, init, e);
      }
    }
  }

  lemma EmptyStar(local: Node)
    ensures Star(map[], local)
  {
  }

  lemma NothingTracked(p: Node)
    ensures Track(Samples([], p)) == None
  {
  }

  /** A peer has samples exactly if some pong was an answer to a probe of it. */
  lemma {:induction false} SamplesAreAnswers(events: seq<Event>, peer: Node)
    ensures Samples(events, peer) != [] <==> exists j :: 0 <= j < |events| && Answers(events[..j], events[j], peer)
    decreases |events|
  {
    hide Answers;
    if events != [] {
      var n := |events| - 1;
      SamplesAreAnswers(events[..n], peer);
      forall j | 0 <= j < n
        ensures events[..n][..j] == events[..j] && events[..n][j] == events[j]
      {
      }
    }
  }

  /** The time stored for a peer lies, in whole microseconds, between the least and the greatest interval between
      the pings and the pongs that answered them, and jitter never exceeds their difference. */
  lemma MeasuredTime(local: Node, events: seq<Event>, peer: Node, lo: nat, hi: nat)
    requires |Issued(events)| + 1 < U32 && local !in Issued(events)
    requires forall i :: 0 <= i < |Samples(events, peer)| ==> lo <= Samples(events, peer)[i].0 / 1000 <= hi
    ensures var m := After(local, events).entries;
            (local, peer) in m ==>
              && lo <= m[(local, peer)].smoothedRtt / 1000 <= hi && m[(local, peer)].jitter / 1000 <= hi - lo
              && m[(local, peer)].samples == |Samples(events, peer)|
  {
    hide Star, Samples;
    ProbeRun(local, events);
    assert Lookup(After(local, events).entries, local, peer) == Track(Samples(events, peer));
    if Samples(events, peer) != [] {
      StaysInHull(Samples(events, peer), lo, hi);
    }
  }

  // ----- routing over a star -----

  lemma StarReach(m: Entries, local: Node, dest: Node)
    requires Star(m, local) && dest != local
    ensures Reaches(WeightsOf(m), local, dest) <==>
      ((local, dest) in m && Micros(m[(local, dest)].smoothedRtt) < U64_MAX)
  {
    var g := WeightsOf(m);
    if Reaches(g, local, dest) {
      var p :| Joins(g, p, local, dest) && Cost(g, p) < U64_MAX;
      assert (p[|p| - 2], dest) in m;
    }
    if (local, dest) in m {
      var p := [local, dest];
      assert p[..1] == [local];
      assert Joins(g, p, local, dest);
      assert Cost(g, p) == Cost(g, p[..1]) + g[(local, dest)];
    }
  }

  lemma StarRoute(m: Entries, local: Node, dest: Node, r: RouteEntry)
    requires Star(m, local) && dest != local && IsBestRoute(m, local, dest, r)
    ensures r.path == [local, dest] && r.nextHop == dest
  {
    var g, p := WeightsOf(m), r.path;
    assert (p[|p| - 2], dest) in m && p[|p| - 2] == local == p[0];
  }

  /** A prober's own matrix never routes through a third node: it has a route to `dest` exactly when some pong answered
      a probe of `dest` (with a cost below infinity), and then the route is the direct one. */
  lemma ProbedRoutesAreDirect(local: Node, events: seq<Event>, dest: Node, r: RouteEntry)
    requires |Issued(events)| + 1 < U32 && local !in Issued(events) && dest != local
    ensures var m := After(local, events).entries;
            && ((local, dest) in m <==> exists j :: 0 <= j < |events| && Answers(events[..j], events[j], dest))
            && (Reaches(WeightsOf(m), local, dest) <==>
                  ((local, dest) in m && Micros(m[(local, dest)].smoothedRtt) < U64_MAX))
            && (IsBestRoute(m, local, dest, r) ==> r.path == [local, dest] && r.nextHop == dest)
  {
    hide Answers, Samples;
    ProbeRun(local, events);
    var m := After(local, events).entries;
    assert Lookup(m, local, dest) == Track(Samples(events, dest));
    SamplesAreAnswers(events, dest);
    StarReach(m, local, dest);
    if IsBestRoute(m, local, dest, r) {
      StarRoute(m, local, dest, r);
    }
  }
}
