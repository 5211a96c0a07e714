/** The whole relay mesh as a transition system: edges inject payloads, relays route them with their own
    next-hop decisions, and every tunnel is an FEC link over a lossy, repeating, reordering channel. Nothing
    is asked of the decisions: every node may have its own matrix, and it may change at any time. */
module Mesh {
  import opened Bytes
  import opened Graph
  import opened ErasureCode
  import opened FecCodec
  import opened FecBlocks
  import opened Answers
  import opened Matrix
  import opened Router
  import FreeRings
  import ReedSolomon
  import Wire
  import D = Delivery
  import H = RelayHeader
  import R = FecRuns
  import W = FecWraps

  type Tunnel = (Node, Node)

  /** One direction of a tunnel: the FEC sender at its start, the blocks it emitted, the receiver at its end and
      all that has happened there, on which no step depends. */
  datatype LinkState = LinkState(sending: Sending, batches: seq<seq<Data>>, rx: R.Rx, heard: seq<R.Event>)

  /** A reconstructed payload waiting to be routed at a node. */
  datatype Arrival = Arrival(node: Node, from: Node, payload: Data)

  datatype Injection = Injection(src: Node, message: H.Relayed)

  datatype Delivered = Delivered(node: Node, local: H.LocalDelivery)

  datatype State = State(links: map<Tunnel, LinkState>, arrivals: seq<Arrival>,
                         injected: seq<Injection>, delivered: seq<Delivered>)

  /** `mayHop(u, dest, v)` says which answers the router at `u` may give; where it is always true, any. */
  datatype Mesh = Mesh(tunnels: set<Tunnel>, mayHop: (Node, Node, Node) -> bool, link: R.Link)

  /** `hop` is the answer of the router where one is asked; `None` stands for no route or no tunnel. */
  datatype Event =
    | Inject(src: Node, message: H.Relayed, hop: Option<Node>)
    | FlushTimer(t: Tunnel)
    | Channel(t: Tunnel, e: R.Event)
    | Route(j: nat, hop: Option<Node>)

  predicate HopOk(m: Mesh, u: Node, dest: Node, hop: Option<Node>) {
    hop.Some? ==> u != dest && (u, hop.value) in m.tunnels && m.mayHop(u, dest, hop.value)
  }

  /** What an edge can hand in: a typed header with a name of at most 255 bytes. */
  predicate Injectable(r: H.Relayed) {
    H.Typed(r) && |r.dest.name| <= 255
  }

  /** A shard arrives only if its block's frames get through the receive loop's checks, which is so exactly for
      blocks that pass (`Wire.BlockFits`). */
  ghost predicate Enabled(m: Mesh, s: State, e: Event) {
    match e
    case Inject(src, message, hop) => Injectable(message) && HopOk(m, src, message.dest, hop)
    case FlushTimer(t) => t in s.links
    case Channel(t, c) =>
      t in s.links && m.link.Enabled(s.links[t].batches, c) && (c.Deliver? ==> Wire.Passes(s.links[t].batches[c.b]))
    case Route(j, hop) =>
      j < |s.arrivals| &&
      (H.Decode(s.arrivals[j].payload).Some? ==>
         HopOk(m, s.arrivals[j].node, H.Decode(s.arrivals[j].payload).value.dest, hop))
  }

  // ----- steps -----

  function Sent(l: LinkState, next: (Sending, Option<seq<Data>>)): LinkState {
    l.(sending := next.0, batches := if next.1.Some? then l.batches + [next.1.value] else l.batches)
  }

  /** `forward_to`: the payload goes, unchanged, into the FEC sender of the tunnel to the next hop. */
  function Forwarded(cfg: FecConfig, s: State, u: Node, hop: Option<Node>, payload: Data): State {
    if hop.None? || (u, hop.value) !in s.links then s
    else
      var l := s.links[(u, hop.value)];
      s.(links := s.links[(u, hop.value) := Sent(l, Submitted(cfg, l.sending, payload))])
  }

  function ArrivalsOf(t: Tunnel, o: Outcome): seq<Arrival> {
    if o.Payloads? then seq(|o.list|, i requires 0 <= i < |o.list| => Arrival(t.1, t.0, o.list[i])) else []
  }

  /** What the receiver hands over in one step: the payloads of the block it completed, if it completed one. */
  function NewArrivals(t: Tunnel, before: R.Rx, after: R.Rx): seq<Arrival> {
    if |after.outputs| > |before.outputs| then ArrivalsOf(t, after.outputs[|after.outputs| - 1].outcome) else []
  }

  /** `route_data`: deliver here, forward, or drop what has no header. */
  function Routed(cfg: FecConfig, s: State, a: Arrival, hop: Option<Node>): State {
    match H.Decode(a.payload)
    case None => s
    case Some(r) =>
      if r.dest == a.node then
        s.(delivered := s.delivered + [Delivered(a.node, H.LocalDelivery(r.flowId, r.data, a.from))])
      else Forwarded(cfg, s, a.node, hop, a.payload)
  }

  /** No half-filled block is younger than the clock. */
  predicate Past(rx: R.Rx) {
    forall b :: b in rx.pending ==> rx.pending[b].createdAt <= rx.now
  }

  ghost predicate LinkOk(m: Mesh, l: LinkState) {
    && |l.sending.buffer| < m.link.cfg.dataShards
    && l.sending.blockId == |l.batches| % U16
    && m.link.Batches(l.batches)
    && Past(l.rx) && l.rx.now == R.Elapsed(l.heard) && R.AllEnabled(m.link, l.batches, l.heard)
  }

  ghost predicate LinksOk(m: Mesh, s: State) {
    s.links.Keys == m.tunnels && forall t :: t in s.links ==> LinkOk(m, s.links[t])
  }

  ghost function Moved(m: Mesh, l: LinkState, c: R.Event): LinkState
    requires m.link.Valid() && m.link.Batches(l.batches) && m.link.Enabled(l.batches, c)
  {
    l.(rx := W.WireStep(m.link, l.batches, l.rx, c), heard := l.heard + [c])
  }

  ghost function Apply(m: Mesh, s: State, e: Event): State
    requires m.link.Valid() && Enabled(m, s, e) && LinksOk(m, s)
  {
    var cfg := m.link.cfg;
    match e
    case Inject(src, message, hop) =>
      Forwarded(cfg, s.(injected := s.injected + [Injection(src, message)]), src, hop, H.Encode(message))
    case FlushTimer(t) => s.(links := s.links[t := Sent(s.links[t], Flushed(s.links[t].sending))])
    case Channel(t, c) =>
      assert LinkOk(m, s.links[t]);
      var l := Moved(m, s.links[t], c);
      s.(links := s.links[t := l], arrivals := s.arrivals + NewArrivals(t, s.links[t].rx, l.rx))
    case Route(j, hop) =>
      Routed(cfg, s.(arrivals := s.arrivals[..j] + s.arrivals[j + 1..]), s.arrivals[j], hop)
  }

  function Initial(m: Mesh): State {
    State(map t | t in m.tunnels :: LinkState(Sending([], 0), [], R.START, []), [], [], [])
  }

  ghost predicate Next(m: Mesh, s: State, s': State) {
    && m.link.Valid() && LinksOk(m, s)
    && exists e :: Enabled(m, s, e) && s' == Apply(m, s, e)
  }

  /** `states` is a run of the mesh from its initial state. */
  ghost predicate IsRun(m: Mesh, states: seq<State>) {
    && |states| > 0
    && (if |states| == 1 then states[0] == Initial(m)
        else IsRun(m, states[..|states| - 1]) && Next(m, states[|states| - 2], states[|states| - 1]))
  }

  /** On every link, between shards of different blocks with the same 16-bit id, the flush timer has cleared the
      earlier one; or every shard is a block of its own. */
  ghost predicate Clean(m: Mesh, s: State) {
    m.link.cfg.dataShards == 1 || forall t :: t in s.links ==> W.CleanGaps(s.links[t].heard)
  }

  // ----- links stay well-formed -----

  lemma EmissionKeepsLink(m: Mesh, l: LinkState, next: (Sending, Option<seq<Data>>))
    requires LinkOk(m, l) && |next.0.buffer| < m.link.cfg.dataShards
    requires next.0.blockId == (if next.1.Some? then (l.sending.blockId + 1) % U16 else l.sending.blockId)
    requires next.1.Some? ==> 0 < |next.1.value| <= m.link.cfg.dataShards
    ensures LinkOk(m, Sent(l, next))
  {
    assert (|l.batches| % U16 + 1) % U16 == (|l.batches| + 1) % U16;
  }

  lemma SubmitKeepsLink(m: Mesh, l: LinkState, p: Data)
    requires LinkOk(m, l)
    ensures LinkOk(m, Sent(l, Submitted(m.link.cfg, l.sending, p)))
  {
    EmissionKeepsLink(m, l, Submitted(m.link.cfg, l.sending, p));
  }

  lemma FlushKeepsLink(m: Mesh, l: LinkState)
    requires LinkOk(m, l)
    ensures LinkOk(m, Sent(l, Flushed(l.sending)))
  {
    EmissionKeepsLink(m, l, Flushed(l.sending));
  }

  lemma AcceptKeepsPast(code: Code, pending: map<nat, Pending>, key: nat, i: nat, n: nat, k: nat, shard: Data,
                        now: Nanos)
    requires forall b :: b in pending ==> pending[b].createdAt <= now
    ensures var p := Accept(code, pending, key, i, n, k, shard, now).0; forall b :: b in p ==> p[b].createdAt <= now
  {
    hide Reconstructed;
  }

  lemma WireKeepsPast(m: Mesh, batches: seq<seq<Data>>, rx: R.Rx, c: R.Event)
    requires m.link.Valid() && m.link.Batches(batches) && m.link.Enabled(batches, c) && Past(rx)
    ensures var rx' := W.WireStep(m.link, batches, rx, c);
            Past(rx') && rx'.now == rx.now + (if c.Tick? then c.dt else 0)
  {
    hide Accept, BlockWord, BlockFrames, Receive;
    match c
    case Deliver(b, i) =>
      BlockWordShape(m.link.code, m.link.cfg, batches[b]);
      FrameIsAccepted(m.link.code, m.link.cfg, b % U16, batches[b], i, rx.pending, rx.now);
      AcceptKeepsPast(m.link.code, rx.pending, b % U16, i, m.link.cfg.dataShards, m.link.cfg.parityShards,
                      BlockWord(m.link.code, m.link.cfg, batches[b])[i], rx.now);
    case Tick(_) =>
    case Expire =>
  }

  lemma ChannelKeepsLink(m: Mesh, l: LinkState, c: R.Event)
    requires m.link.Valid() && LinkOk(m, l) && m.link.Enabled(l.batches, c)
    ensures LinkOk(m, Moved(m, l, c))
  {
    hide W.WireStep, R.Elapsed, R.Arriving, R.AllEnabled, Past;
    R.OneMore(l.heard, c, 0);
    OneMoreEnabled(m.link, l.batches, l.heard, c);
    WireKeepsPast(m, l.batches, l.rx, c);
  }

  lemma OneMoreEnabled(link: R.Link, batches: seq<seq<Data>>, heard: seq<R.Event>, c: R.Event)
    requires R.AllEnabled(link, batches, heard) && link.Enabled(batches, c)
    ensures R.AllEnabled(link, batches, heard + [c])
  {
  }

  lemma ForwardKeepsLinks(m: Mesh, s: State, u: Node, hop: Option<Node>, p: Data)
    requires LinksOk(m, s)
    ensures LinksOk(m, Forwarded(m.link.cfg, s, u, hop, p))
  {
    hide LinkOk, Submitted, Sent;
    if hop.Some? && (u, hop.value) in s.links {
      SubmitKeepsLink(m, s.links[(u, hop.value)], p);
    }
  }

  lemma ApplyKeepsLinks(m: Mesh, s: State, e: Event)
    requires m.link.Valid() && LinksOk(m, s) && Enabled(m, s, e)
    ensures LinksOk(m, Apply(m, s, e))
  {
    hide LinkOk, Submitted, Flushed, Sent, Forwarded, Moved;
    match e
    case Inject(src, message, hop) =>
      ForwardKeepsLinks(m, s.(injected := s.injected + [Injection(src, message)]), src, hop, H.Encode(message));
    case FlushTimer(t) => FlushKeepsLink(m, s.links[t]);
    case Channel(t, c) => ChannelKeepsLink(m, s.links[t], c);
    case Route(j, hop) =>
      ForwardKeepsLinks(m, s.(arrivals := s.arrivals[..j] + s.arrivals[j + 1..]), s.arrivals[j].node, hop,
                        s.arrivals[j].payload);
  }

  /** Every reachable state has well-formed links, so `Next` asks for nothing by asking for them. */
  lemma {:induction false} RunKeepsLinks(m: Mesh, states: seq<State>)
    requires IsRun(m, states) && m.link.Valid()
    ensures LinksOk(m, states[|states| - 1])
    decreases |states|
  {
    hide LinksOk, Apply, Enabled;
    if |states| == 1 {
      InitialLinks(m);
    } else {
      RunKeepsLinks(m, states[..|states| - 1]);
      var s, s' := states[|states| - 2], states[|states| - 1];
      var e :| Enabled(m, s, e) && s' == Apply(m, s, e);
      ApplyKeepsLinks(m, s, e);
    }
  }

  lemma InitialLinks(m: Mesh)
    requires m.link.Valid()
    ensures LinksOk(m, Initial(m))
  {
  }

  // ----- invariant of clean runs -----

  /** Nodes that follow each other by tunnels and answers the routers may give for `dest`. */
  ghost predicate Followed(m: Mesh, dest: Node, trail: seq<Node>) {
    && |trail| > 0
    && (|trail| > 1 ==>
          && Followed(m, dest, trail[..|trail| - 1])
          && HopOk(m, trail[|trail| - 2], dest, Some(trail[|trail| - 1])))
  }

  ghost predicate Travelled(m: Mesh, inj: Injection, trail: seq<Node>, u: Node, v: Node) {
    && Followed(m, inj.message.dest, trail) && |trail| >= 2 && trail[0] == inj.src
    && trail[|trail| - 2] == u && trail[|trail| - 1] == v
  }

  /** `p` is some injected message, byte for byte, and came from its source to `v` by way of `u`. */
  ghost predicate OnCourse(m: Mesh, injected: seq<Injection>, u: Node, v: Node, p: Data) {
    exists inj, trail ::
      && inj in injected && Injectable(inj.message) && p == H.Encode(inj.message)
      && Travelled(m, inj, trail, u, v)
  }

  /** The delivery is this injected message, unchanged, at its destination, at the end of such a trail. */
  ghost predicate Explains(m: Mesh, injected: seq<Injection>, d: Delivered, inj: Injection, trail: seq<Node>) {
    && inj in injected && inj.message == H.Relayed(d.local.flowId, d.node, d.local.data)
    && Travelled(m, inj, trail, d.local.sourceNode, d.node)
  }

  ghost predicate Accounted(m: Mesh, injected: seq<Injection>, d: Delivered) {
    exists inj, trail :: Explains(m, injected, d, inj, trail)
  }

  ghost predicate AllOnCourse(m: Mesh, injected: seq<Injection>, t: Tunnel, ps: seq<Data>) {
    forall i :: 0 <= i < |ps| ==> OnCourse(m, injected, t.0, t.1, ps[i])
  }

  /** What the receiver would be with unbounded block ids. */
  ghost function Ideal(m: Mesh, l: LinkState): R.Rx
    requires m.link.Valid() && LinkOk(m, l)
  {
    R.Run(m.link, l.batches, R.START, l.heard)
  }

  ghost predicate Carrying(m: Mesh, injected: seq<Injection>, t: Tunnel, l: LinkState)
    requires m.link.Valid()
  {
    && LinkOk(m, l) && W.Matches(Ideal(m, l), l.rx)
    && AllOnCourse(m, injected, t, l.sending.buffer)
    && (forall b :: 0 <= b < |l.batches| ==> AllOnCourse(m, injected, t, l.batches[b]))
  }

  ghost predicate Inv(m: Mesh, s: State)
    requires m.link.Valid()
  {
    && s.links.Keys == m.tunnels
    && (forall t :: t in s.links ==> Carrying(m, s.injected, t, s.links[t]))
    && AllArriveOnCourse(m, s.injected, s.arrivals)
    && (forall j :: 0 <= j < |s.delivered| ==> Accounted(m, s.injected, s.delivered[j]))
  }

  ghost predicate AllArriveOnCourse(m: Mesh, injected: seq<Injection>, arrived: seq<Arrival>) {
    forall i :: 0 <= i < |arrived| ==>
      OnCourse(m, injected, arrived[i].from, arrived[i].node, arrived[i].payload)
  }

  // ----- preservation -----

  /** What a sender emits after one more payload (or a flush) is on course if its payloads were. */
  lemma SentCarries(m: Mesh, injected: seq<Injection>, t: Tunnel, l: LinkState, next: (Sending, Option<seq<Data>>))
    requires m.link.Valid() && Carrying(m, injected, t, l) && LinkOk(m, Sent(l, next))
    requires AllOnCourse(m, injected, t, next.0.buffer)
    requires next.1.Some? ==> AllOnCourse(m, injected, t, next.1.value)
    ensures Carrying(m, injected, t, Sent(l, next))
  {
    hide AllOnCourse, W.Matches, Past, R.Run;
    if next.1.Some? {
      assert Sent(l, next).batches[|l.batches|] == next.1.value;
      R.RunGrows(m.link, l.batches, next.1.value, R.START, l.heard);
    }
  }

  lemma SubmitCarries(m: Mesh, injected: seq<Injection>, t: Tunnel, l: LinkState, p: Data)
    requires m.link.Valid() && Carrying(m, injected, t, l) && OnCourse(m, injected, t.0, t.1, p)
    ensures Carrying(m, injected, t, Sent(l, Submitted(m.link.cfg, l.sending, p)))
  {
    hide OnCourse, LinkOk, Ideal, W.Matches;
    assert AllOnCourse(m, injected, t, l.sending.buffer + [p]);
    assert AllOnCourse(m, injected, t, []);
    SubmitKeepsLink(m, l, p);
    SentCarries(m, injected, t, l, Submitted(m.link.cfg, l.sending, p));
  }

  lemma FlushCarries(m: Mesh, injected: seq<Injection>, t: Tunnel, l: LinkState)
    requires m.link.Valid() && Carrying(m, injected, t, l)
    ensures Carrying(m, injected, t, Sent(l, Flushed(l.sending)))
  {
    hide OnCourse, LinkOk, Ideal, W.Matches;
    assert AllOnCourse(m, injected, t, []);
    FlushKeepsLink(m, l);
    SentCarries(m, injected, t, l, Flushed(l.sending));
  }

  lemma CourseGrows(m: Mesh, injected: seq<Injection>, inj: Injection, u: Node, v: Node, p: Data)
    requires OnCourse(m, injected, u, v, p)
    ensures OnCourse(m, injected + [inj], u, v, p)
  {
    hide Travelled;
    var i, trail :| i in injected && Injectable(i.message) && p == H.Encode(i.message) && Travelled(m, i, trail, u, v);
    assert i in injected + [inj];
  }

  lemma AccountGrows(m: Mesh, injected: seq<Injection>, inj: Injection, d: Delivered)
    requires Accounted(m, injected, d)
    ensures Accounted(m, injected + [inj], d)
  {
    hide Travelled;
    var i, trail :| Explains(m, injected, d, i, trail);
    assert Explains(m, injected + [inj], d, i, trail);
  }

  lemma AllCourseGrows(m: Mesh, injected: seq<Injection>, inj: Injection, t: Tunnel, ps: seq<Data>)
    requires AllOnCourse(m, injected, t, ps)
    ensures AllOnCourse(m, injected + [inj], t, ps)
  {
    hide OnCourse;
    forall i | 0 <= i < |ps| ensures OnCourse(m, injected + [inj], t.0, t.1, ps[i]) {
      CourseGrows(m, injected, inj, t.0, t.1, ps[i]);
    }
  }

  lemma AllArriveGrows(m: Mesh, injected: seq<Injection>, inj: Injection, arrived: seq<Arrival>)
    requires AllArriveOnCourse(m, injected, arrived)
    ensures AllArriveOnCourse(m, injected + [inj], arrived)
  {
    hide OnCourse;
    forall i | 0 <= i < |arrived|
      ensures OnCourse(m, injected + [inj], arrived[i].from, arrived[i].node, arrived[i].payload)
    {
      CourseGrows(m, injected, inj, arrived[i].from, arrived[i].node, arrived[i].payload);
    }
  }

  lemma CarryingGrows(m: Mesh, injected: seq<Injection>, inj: Injection, t: Tunnel, l: LinkState)
    requires m.link.Valid() && Carrying(m, injected, t, l)
    ensures Carrying(m, injected + [inj], t, l)
  {
    hide AllOnCourse, LinkOk, Ideal, W.Matches;
    AllCourseGrows(m, injected, inj, t, l.sending.buffer);
    forall b | 0 <= b < |l.batches| ensures AllOnCourse(m, injected + [inj], t, l.batches[b]) {
      AllCourseGrows(m, injected, inj, t, l.batches[b]);
    }
  }

  lemma InjectionKeeps(m: Mesh, s: State, inj: Injection)
    requires m.link.Valid() && Inv(m, s)
    ensures Inv(m, s.(injected := s.injected + [inj]))
  {
    hide OnCourse, Accounted, Carrying, AllArriveOnCourse;
    var s' := s.(injected := s.injected + [inj]);
    forall t | t in s.links ensures Carrying(m, s'.injected, t, s.links[t]) {
      CarryingGrows(m, s.injected, inj, t, s.links[t]);
    }
    AllArriveGrows(m, s.injected, inj, s.arrivals);
    forall j | 0 <= j < |s.delivered| ensures Accounted(m, s'.injected, s.delivered[j]) {
      AccountGrows(m, s.injected, inj, s.delivered[j]);
    }
  }

  lemma LinkUpdateKeeps(m: Mesh, s: State, t: Tunnel, l: LinkState)
    requires m.link.Valid() && Inv(m, s) && t in s.links && Carrying(m, s.injected, t, l)
    ensures Inv(m, s.(links := s.links[t := l]))
  {
    hide OnCourse, Accounted, Carrying, AllArriveOnCourse;
  }

  lemma ForwardKeeps(m: Mesh, s: State, u: Node, hop: Option<Node>, p: Data)
    requires m.link.Valid() && Inv(m, s) && (hop.Some? ==> OnCourse(m, s.injected, u, hop.value, p))
    ensures Inv(m, Forwarded(m.link.cfg, s, u, hop, p))
  {
    hide OnCourse, Accounted, Carrying, Submitted, Sent, AllArriveOnCourse;
    if hop.Some? && (u, hop.value) in s.links {
      var t := (u, hop.value);
      SubmitCarries(m, s.injected, t, s.links[t], p);
      LinkUpdateKeeps(m, s, t, Sent(s.links[t], Submitted(m.link.cfg, s.links[t].sending, p)));
    }
  }

  /** A freshly injected message starts its trail with the first hop. */
  lemma FirstHop(m: Mesh, injected: seq<Injection>, inj: Injection, v: Node)
    requires inj in injected && Injectable(inj.message) && HopOk(m, inj.src, inj.message.dest, Some(v))
    ensures OnCourse(m, injected, inj.src, v, H.Encode(inj.message))
  {
    var trail := [inj.src, v];
    assert trail[..1] == [inj.src];
    assert Followed(m, inj.message.dest, [inj.src]);
    assert Travelled(m, inj, trail, inj.src, v);
  }

  /** A payload that is forwarded keeps its bytes and extends its trail. */
  lemma NextHop(m: Mesh, injected: seq<Injection>, u: Node, v: Node, p: Data, w: Node)
    requires OnCourse(m, injected, u, v, p)
    requires H.Decode(p).Some? && HopOk(m, v, H.Decode(p).value.dest, Some(w))
    ensures OnCourse(m, injected, v, w, p)
  {
    hide H.Decode, H.Encode, HopOk;
    var inj, trail :| inj in injected && Injectable(inj.message) && p == H.Encode(inj.message)
                      && Travelled(m, inj, trail, u, v);
    H.DecodeOfEncode(inj.message);
    var longer := trail + [w];
    assert longer[..|trail|] == trail;
    assert Travelled(m, inj, longer, v, w);
  }

  lemma Arrived(m: Mesh, injected: seq<Injection>, a: Arrival)
    requires OnCourse(m, injected, a.from, a.node, a.payload)
    ensures H.Decode(a.payload).Some?
    ensures var r := H.Decode(a.payload).value;
            r.dest == a.node ==>
              Accounted(m, injected, Delivered(a.node, H.LocalDelivery(r.flowId, r.data, a.from)))
  {
    hide Travelled, H.Decode;
    var inj, trail :| inj in injected && Injectable(inj.message) && a.payload == H.Encode(inj.message)
                      && Travelled(m, inj, trail, a.from, a.node);
    H.DecodeOfEncode(inj.message);
    var r := inj.message;
    assert r.dest == a.node ==>
      Explains(m, injected, Delivered(a.node, H.LocalDelivery(r.flowId, r.data, a.from)), inj, trail);
  }

  lemma DropKeeps(m: Mesh, s: State, j: nat)
    requires m.link.Valid() && Inv(m, s) && j < |s.arrivals|
    ensures Inv(m, s.(arrivals := s.arrivals[..j] + s.arrivals[j + 1..]))
  {
    hide OnCourse, Accounted, Carrying;
  }

  lemma DeliveryKeeps(m: Mesh, s: State, d: Delivered)
    requires m.link.Valid() && Inv(m, s) && Accounted(m, s.injected, d)
    ensures Inv(m, s.(delivered := s.delivered + [d]))
  {
    hide OnCourse, Accounted, Carrying, AllArriveOnCourse;
  }

  lemma InvArrival(m: Mesh, s: State, j: nat)
    requires m.link.Valid() && Inv(m, s) && j < |s.arrivals|
    ensures OnCourse(m, s.injected, s.arrivals[j].from, s.arrivals[j].node, s.arrivals[j].payload)
  {
  }

  lemma RouteKeeps(m: Mesh, s: State, j: nat, hop: Option<Node>)
    requires m.link.Valid() && Inv(m, s) && LinksOk(m, s) && Enabled(m, s, Route(j, hop))
    ensures Inv(m, Apply(m, s, Route(j, hop)))
  {
    hide OnCourse, Accounted, Inv, Forwarded, HopOk, LinksOk, H.Decode;
    var a := s.arrivals[j];
    var s' := s.(arrivals := s.arrivals[..j] + s.arrivals[j + 1..]);
    DropKeeps(m, s, j);
    InvArrival(m, s, j);
    Arrived(m, s.injected, a);
    var r := H.Decode(a.payload).value;
    if r.dest == a.node {
      DeliveryKeeps(m, s', Delivered(a.node, H.LocalDelivery(r.flowId, r.data, a.from)));
    } else {
      if hop.Some? {
        NextHop(m, s.injected, a.from, a.node, a.payload, hop.value);
      }
      ForwardKeeps(m, s', a.node, hop, a.payload);
    }
  }

  /** On-course payloads survive a block that passes byte for byte. */
  lemma OnCourseIsKept(m: Mesh, injected: seq<Injection>, t: Tunnel, ps: seq<Data>)
    requires AllOnCourse(m, injected, t, ps) && Wire.Passes(ps)
    ensures KeptAll(ps) == ps
  {
    hide Travelled;
    forall i | 0 <= i < |ps| ensures FitsPrefix(ps[i]) {
      assert OnCourse(m, injected, t.0, t.1, ps[i]);
      assert Wire.Carried(ps[i]);
    }
    KeptAllExact(ps);
  }

  lemma YieldArrives(t: Tunnel, before: R.Rx, after: R.Rx, o: R.Output)
    requires after.outputs == before.outputs || after.outputs == before.outputs + [o]
    ensures NewArrivals(t, before, after) == [] || NewArrivals(t, before, after) == ArrivalsOf(t, o.outcome)
  {
    hide ArrivalsOf;
  }

  lemma DeliveryArrives(m: Mesh, t: Tunnel, l: LinkState, ideal: R.Rx, b: nat, i: nat)
    requires m.link.Valid() && m.link.Batches(l.batches) && m.link.Enabled(l.batches, R.Deliver(b, i))
    requires R.Unmixed(m.link, l.batches, ideal) && W.Matches(ideal, l.rx)
    requires KeptAll(l.batches[b]) == l.batches[b] && W.NoLeftover(ideal, R.Deliver(b, i))
    ensures var rx := W.WireStep(m.link, l.batches, l.rx, R.Deliver(b, i));
            NewArrivals(t, l.rx, rx) == [] || NewArrivals(t, l.rx, rx) == ArrivalsOf(t, Payloads(l.batches[b]))
  {
    hide R.Unmixed, R.Step, W.WireStep, ArrivalsOf, NewArrivals, W.NoLeftover, W.Alike, KeptAll;
    W.WireStepMatches(m.link, l.batches, ideal, l.rx, R.Deliver(b, i));
    R.DeliverYields(m.link, l.batches, ideal, b, i);
    YieldArrives(t, l.rx, W.WireStep(m.link, l.batches, l.rx, R.Deliver(b, i)), R.Output(b, Payloads(l.batches[b])));
  }

  lemma ArrivalsOnCourse(m: Mesh, injected: seq<Injection>, t: Tunnel, ps: seq<Data>)
    requires AllOnCourse(m, injected, t, ps) && Wire.Passes(ps)
    ensures AllArriveOnCourse(m, injected, ArrivalsOf(t, Payloads(ps)))
  {
    hide OnCourse;
  }

  lemma IdealMoves(m: Mesh, l: LinkState, c: R.Event)
    requires m.link.Valid() && LinkOk(m, l) && m.link.Enabled(l.batches, c)
    ensures LinkOk(m, Moved(m, l, c))
    ensures Ideal(m, Moved(m, l, c)) == R.Step(m.link, l.batches, Ideal(m, l), c)
    ensures R.Unmixed(m.link, l.batches, Ideal(m, l))
    ensures m.link.cfg.dataShards == 1 || W.CleanGaps(l.heard + [c]) ==> W.NoLeftover(Ideal(m, l), c)
  {
    hide R.Run, R.Step, W.WireStep, W.CleanGaps, W.NoLeftover, R.Unmixed;
    ChannelKeepsLink(m, l, c);
    R.RunSnoc(m.link, l.batches, R.START, l.heard, c);
    R.StartSound(m.link, l.batches);
    R.RunSound(m.link, l.batches, R.START, l.heard);
    if m.link.cfg.dataShards == 1 || W.CleanGaps(l.heard + [c]) {
      W.NextIsClean(m.link, l.batches, l.heard, c);
    }
  }

  lemma ChannelArrives(m: Mesh, injected: seq<Injection>, t: Tunnel, l: LinkState, c: R.Event)
    requires m.link.Valid() && Carrying(m, injected, t, l) && m.link.Enabled(l.batches, c)
    requires c.Deliver? ==> Wire.Passes(l.batches[c.b])
    requires m.link.cfg.dataShards == 1 || W.CleanGaps(l.heard + [c])
    ensures Carrying(m, injected, t, Moved(m, l, c))
    ensures AllArriveOnCourse(m, injected, NewArrivals(t, l.rx, Moved(m, l, c).rx))
  {
    hide AllOnCourse, ArrivalsOf, OnCourse, LinkOk, Ideal, W.Matches, W.NoLeftover, Wire.Passes, W.CleanGaps;
    hide R.Unmixed;
    assert m.link.Batches(l.batches) by { Unpacked(m, injected, t, l); }
    IdealMoves(m, l, c);
    W.WireStepMatches(m.link, l.batches, Ideal(m, l), l.rx, c);
    if c.Deliver? {
      hide R.Step, W.WireStep, NewArrivals, KeptAll;
      OnCourseIsKept(m, injected, t, l.batches[c.b]);
      DeliveryArrives(m, t, l, Ideal(m, l), c.b, c.i);
      ArrivalsOnCourse(m, injected, t, l.batches[c.b]);
    }
  }

  lemma ArrivalsKeep(m: Mesh, s: State, arrived: seq<Arrival>)
    requires m.link.Valid() && Inv(m, s) && AllArriveOnCourse(m, s.injected, arrived)
    ensures Inv(m, s.(arrivals := s.arrivals + arrived))
  {
    hide OnCourse, Accounted, Carrying;
  }

  lemma ChannelKeeps(m: Mesh, s: State, t: Tunnel, c: R.Event)
    requires m.link.Valid() && Inv(m, s) && LinksOk(m, s)
    requires Enabled(m, s, Channel(t, c)) && Clean(m, Apply(m, s, Channel(t, c)))
    ensures Inv(m, Apply(m, s, Channel(t, c)))
  {
    var l := s.links[t];
    assert m.link.cfg.dataShards == 1 || W.CleanGaps(l.heard + [c]) by {
      assert Apply(m, s, Channel(t, c)).links[t].heard == l.heard + [c];
    }
    hide OnCourse, Accounted, LinkOk, Moved, Wire.Passes, W.CleanGaps, AllArriveOnCourse, NewArrivals, Clean, Ideal;
    Unpacked(m, s.injected, t, l);
    ChannelArrives(m, s.injected, t, l, c);
    LinkUpdateKeeps(m, s, t, Moved(m, l, c));
    ArrivalsKeep(m, s.(links := s.links[t := Moved(m, l, c)]), NewArrivals(t, l.rx, Moved(m, l, c).rx));
  }

  lemma Unpacked(m: Mesh, injected: seq<Injection>, t: Tunnel, l: LinkState)
    requires m.link.Valid() && Carrying(m, injected, t, l)
    ensures m.link.Batches(l.batches)
  {
  }

  lemma ApplyKeeps(m: Mesh, s: State, e: Event)
    requires m.link.Valid() && Inv(m, s) && LinksOk(m, s) && Enabled(m, s, e) && Clean(m, Apply(m, s, e))
    ensures Inv(m, Apply(m, s, e))
  {
    hide Clean, Carrying, OnCourse, Accounted, AllArriveOnCourse, LinkOk, Forwarded, Sent, Flushed, HopOk, Moved;
    match e
    case Inject(src, message, hop) =>
      var inj := Injection(src, message);
      InjectionKeeps(m, s, inj);
      var s' := s.(injected := s.injected + [inj]);
      if hop.Some? {
        FirstHop(m, s'.injected, inj, hop.value);
      }
      ForwardKeeps(m, s', src, hop, H.Encode(message));
    case FlushTimer(t) =>
      FlushCarries(m, s.injected, t, s.links[t]);
      LinkUpdateKeeps(m, s, t, Sent(s.links[t], Flushed(s.links[t].sending)));
    case Channel(t, c) => ChannelKeeps(m, s, t, c);
    case Route(j, hop) => RouteKeeps(m, s, j, hop);
  }

  lemma NextKeeps(m: Mesh, s: State, s': State)
    requires m.link.Valid() && Inv(m, s) && Next(m, s, s') && Clean(m, s')
    ensures Inv(m, s')
  {
    hide Inv, Apply, Enabled, LinksOk, Clean;
    var e :| Enabled(m, s, e) && s' == Apply(m, s, e);
    ApplyKeeps(m, s, e);
  }

  lemma ApplyHears(m: Mesh, s: State, e: Event, t: Tunnel)
    requires m.link.Valid() && LinksOk(m, s) && Enabled(m, s, e) && t in s.links
    ensures var s' := Apply(m, s, e);
            t in s'.links && (s'.links[t].heard == s.links[t].heard ||
                              (e.Channel? && s'.links[t].heard == s.links[t].heard + [e.e]))
  {
    hide LinksOk, W.WireStep, NewArrivals, Submitted, Flushed;
  }

  lemma CleanBefore(m: Mesh, s: State, s': State)
    requires Next(m, s, s') && Clean(m, s')
    ensures Clean(m, s)
  {
    hide Apply, Enabled, LinksOk, W.CleanGaps;
    var e :| Enabled(m, s, e) && s' == Apply(m, s, e);
    if m.link.cfg.dataShards != 1 {
      forall t | t in s.links ensures W.CleanGaps(s.links[t].heard) {
        ApplyHears(m, s, e, t);
        if e.Channel? && s'.links[t].heard == s.links[t].heard + [e.e] {
          W.CleanPrefix(s.links[t].heard, e.e);
        }
      }
    }
  }

  lemma InitiallyKept(m: Mesh)
    requires m.link.Valid()
    ensures Inv(m, Initial(m))
  {
  }

  lemma {:induction false} RunKeeps(m: Mesh, states: seq<State>)
    requires m.link.Valid() && IsRun(m, states) && Clean(m, states[|states| - 1])
    ensures Inv(m, states[|states| - 1])
    decreases |states|
  {
    hide Inv, Next, Clean;
    if |states| == 1 {
      InitiallyKept(m);
    } else {
      CleanBefore(m, states[|states| - 2], states[|states| - 1]);
      RunKeeps(m, states[..|states| - 1]);
      NextKeeps(m, states[|states| - 2], states[|states| - 1]);
    }
  }

  // ----- whole runs -----

  /** End-to-end safety of every clean run: whatever the channels lose, repeat or reorder, and whatever the
      routers answer at any time, everything any node ever delivers is a message some edge injected for that
      very node, with its flow id and data unchanged, and it came from there by tunnels the routers chose. */
  lemma MeshDeliversWhatWasSent(m: Mesh, states: seq<State>, j: nat)
    requires m.link.Valid() && IsRun(m, states) && Clean(m, states[|states| - 1])
    requires j < |states[|states| - 1].delivered|
    ensures var s := states[|states| - 1];
            exists inj, trail :: Explains(m, s.injected, s.delivered[j], inj, trail)
  {
    RunKeeps(m, states);
    assert Accounted(m, states[|states| - 1].injected, states[|states| - 1].delivered[j]);
  }

  /** Every hop is one that a search over the matrix `entries` may answer. */
  ghost predicate RoutesBy(m: Mesh, entries: Entries) {
    forall u, dest, v :: m.mayHop(u, dest, v) ==> MayAnswerHop(entries, u, dest, v)
  }

  lemma {:induction false} FollowedIsHanded(m: Mesh, entries: Entries, dest: Node, trail: seq<Node>)
    requires RoutesBy(m, entries) && Followed(m, dest, trail)
    ensures FreeRings.Handed(entries, dest, trail)
    decreases |trail|
  {
    hide MayAnswerHop;
    if |trail| > 1 {
      FollowedIsHanded(m, entries, dest, trail[..|trail| - 1]);
    }
  }

  /** And when all routers go by the same matrix, it came at the least cost from source to node, without passing
      any node twice unless the weights have an answer ring. */
  lemma DeliveredAtLeastCost(m: Mesh, entries: Entries, states: seq<State>, j: nat)
    requires m.link.Valid() && IsRun(m, states) && Clean(m, states[|states| - 1]) && RoutesBy(m, entries)
    requires j < |states[|states| - 1].delivered|
    ensures var (s, g) := (states[|states| - 1], WeightsOf(entries));
            var d := s.delivered[j];
            exists inj, trail ::
              && Explains(m, s.injected, d, inj, trail)
              && IsWalk(g, trail) && DistanceIs(g, inj.src, d.node, Cost(g, trail))
              && (FreeRings.HasAnswerRing(g, d.node) || NoRepeats(trail))
  {
    hide D.Relayed, FreeRings.Handed, DistanceIs, FreeRings.HasAnswerRing, NoRepeats;
    MeshDeliversWhatWasSent(m, states, j);
    var s, g := states[|states| - 1], WeightsOf(entries);
    var d := s.delivered[j];
    var inj, trail :| Explains(m, s.injected, d, inj, trail);
    FollowedIsHanded(m, entries, d.node, trail);
    FreeRings.HandedIsRelayed(entries, d.node, trail);
    D.ArrivedTrail(g, d.node, trail);
    FreeRings.ReturnsExactly(entries, d.node);
    assert FreeRings.MayReturn(entries, d.node) || NoRepeats(trail);
  }

  /** Until the ids wrap every run is clean. */
  lemma RunBeforeWrapIsClean(m: Mesh, states: seq<State>)
    requires m.link.Valid() && IsRun(m, states)
    requires var s := states[|states| - 1]; forall t :: t in s.links ==> |s.links[t].batches| <= U16
    ensures Clean(m, states[|states| - 1])
  {
    RunKeepsLinks(m, states);
    var s := states[|states| - 1];
    forall t | t in s.links ensures W.CleanGaps(s.links[t].heard) {
      W.ShortIsClean(m.link, s.links[t].batches, s.links[t].heard);
    }
  }

  /** The theorem speaks of real links: Reed-Solomon over the field of 256 elements is a lawful code. */
  lemma ReedSolomonMesh(tunnels: set<Tunnel>, mayHop: (Node, Node, Node) -> bool, cfg: FecConfig)
    requires ValidCounts(cfg.dataShards, cfg.parityShards)
    ensures Mesh(tunnels, mayHop, R.Link(ReedSolomon.Code256(), cfg)).link.Valid()
  {
    ReedSolomon.ReedSolomonIsLawful();
  }
}
