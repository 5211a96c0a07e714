/** The `Forwarder`'s steps are steps of the mesh: injecting, routing, receiving a shard, and whole turns of the
    flush timer. Same hops, same sender and receiver states, same deliveries; and the packets handed to a
    tunnel are the frames of the block the mesh records as emitted. */
module NodeSteps {
  import opened Bytes
  import opened Router
  import opened FecCodec
  import opened FecBlocks
  import opened Progress
  import Wire
  import F = Forwarding
  import H = RelayHeader
  import M = Mesh
  import R = FecRuns

  type Receivers = map<Node, map<nat, Pending>>

  /** The mesh state agrees with one node's FEC senders. */
  ghost predicate Represents(s: M.State, node: Node, e: F.Egress) {
    && (forall v :: (node, v) in s.links <==> v in e.senders)
    && (forall v :: v in e.senders ==> s.links[(node, v)].sending == e.senders[v])
  }

  /** It agrees with one node's FEC receivers and its clock. */
  ghost predicate Hears(s: M.State, node: Node, receivers: Receivers, now: Nanos) {
    && (forall v :: (v, node) in s.links <==> v in receivers)
    && (forall v :: v in receivers ==>
          s.links[(v, node)].rx.pending == receivers[v] && s.links[(v, node)].rx.now == now)
  }

  /** The receiving ends of all links are as they were. */
  ghost predicate SameReceivers(s: M.State, s': M.State) {
    s'.links.Keys == s.links.Keys && forall t :: t in s.links ==> s'.links[t].rx == s.links[t].rx
  }

  lemma StillHears(s: M.State, s': M.State, node: Node, receivers: Receivers, now: Nanos)
    requires Hears(s, node, receivers, now) && SameReceivers(s, s')
    ensures Hears(s', node, receivers, now)
  {
    forall v | v in receivers
      ensures s'.links[(v, node)].rx.pending == receivers[v] && s'.links[(v, node)].rx.now == now
    {
      assert (v, node) in s.links;
    }
  }

  /** What went to the tunnel is the frames of the block that was added to `before`, under its own number
      modulo 65536; or nothing, if none was. */
  ghost predicate EmitsNewBlock(link: R.Link, before: seq<seq<Data>>, after: seq<seq<Data>>, peer: Node,
                                sent: seq<F.Outgoing>) {
    if |after| == |before| then after == before && sent == []
    else
      && |after| == |before| + 1 && after[..|before|] == before
      && |after[|before|]| <= link.cfg.dataShards
      && var frames := BlockFrames(link.code, link.cfg, |before| % U16, after[|before|]);
         |sent| == |frames| &&
         forall i :: 0 <= i < |sent| ==> sent[i] == F.Outgoing(peer, frames[i].0, frames[i].1)
  }

  /** One step by which the node's egress and the link to `v` change together. */
  ghost predicate Egresses(m: M.Mesh, s: M.State, s': M.State, node: Node, v: Node, e: F.Egress, e': F.Egress) {
    && Represents(s', node, e') && SameReceivers(s, s')
    && (node, v) in s.links && (node, v) in s'.links
    && |e.outgoing| <= |e'.outgoing| && e'.outgoing[..|e.outgoing|] == e.outgoing
    && EmitsNewBlock(m.link, s.links[(node, v)].batches, s'.links[(node, v)].batches, v,
                     e'.outgoing[|e.outgoing|..])
  }

  // ----- the sending half -----

  lemma HandOverIsForward(m: M.Mesh, s: M.State, node: Node, e: F.Egress, v: Node, p: Data)
    requires m.link.Valid() && Represents(s, node, e) && v in e.senders && M.LinkOk(m, s.links[(node, v)])
    ensures Egresses(m, s, M.Forwarded(m.link.cfg, s, node, Some(v), p), node, v, e,
                     F.HandedOver(m.link.code, m.link.cfg, e, v, p))
  {
    hide BlockFrames, F.Packets, M.Past;
    var l := s.links[(node, v)];
    var (sending, batch) := Submitted(m.link.cfg, l.sending, p);
    var frames := F.Packets(v, Emitted(m.link.code, m.link.cfg, l.sending.blockId, batch));
    assert (e.outgoing + frames)[|e.outgoing|..] == frames;
    NoPackets(v);
    if batch.Some? {
      PacketsAre(v, BlockFrames(m.link.code, m.link.cfg, l.sending.blockId, batch.value));
    }
  }

  lemma NoPackets(v: Node)
    ensures F.Packets(v, None) == []
  {
  }

  lemma PacketsAre(v: Node, frames: seq<(byte, Data)>)
    ensures var p := F.Packets(v, Some(frames));
            |p| == |frames| && forall i :: 0 <= i < |p| ==> p[i] == F.Outgoing(v, frames[i].0, frames[i].1)
  {
  }

  /** The mesh allows every answer that the router at `node` may give over its present matrix. */
  ghost predicate Permits(m: M.Mesh, entries: Entries, node: Node, tunnels: set<Node>) {
    && (forall v :: v in tunnels ==> (node, v) in m.tunnels)
    && (forall dest, v {:trigger m.mayHop(node, dest, v)} ::
          F.HopChosen(entries, node, tunnels, dest, Some(v)) ==> m.mayHop(node, dest, v))
  }

  lemma ChosenHopIsOk(m: M.Mesh, entries: Entries, node: Node, tunnels: set<Node>, dest: Node, hop: Option<Node>)
    requires Permits(m, entries, node, tunnels) && F.HopChosen(entries, node, tunnels, dest, hop)
    ensures M.HopOk(m, node, dest, hop)
  {
    if hop.Some? {
      assert m.mayHop(node, dest, hop.value);
    }
  }

  /** `SendToNode` is an `Inject` step of the mesh. */
  lemma InjectionIsMeshStep(m: M.Mesh, entries: Entries, tunnels: set<Node>, s: M.State, node: Node, e: F.Egress,
                            message: H.Relayed, hop: Option<Node>)
    requires m.link.Valid() && M.LinksOk(m, s) && Represents(s, node, e) && Permits(m, entries, node, tunnels)
    requires M.Injectable(message)
    requires if message.dest == node then hop == None else F.HopChosen(entries, node, tunnels, message.dest, hop)
    ensures M.Enabled(m, s, M.Inject(node, message, hop))
    ensures var s' := M.Apply(m, s, M.Inject(node, message, hop));
            && s'.injected == s.injected + [M.Injection(node, message)]
            && (hop.Some? ==> Egresses(m, s, s', node, hop.value, e,
                                       F.HandedOver(m.link.code, m.link.cfg, e, hop.value, H.Encode(message))))
            && (hop.None? ==> s'.links == s.links)
  {
    hide F.HopChosen, M.HopOk, F.HandedOver, H.Encode, M.LinkOk;
    if message.dest == node {
      NoHopIsOk(m, node, message.dest);
    } else {
      ChosenHopIsOk(m, entries, node, tunnels, message.dest, hop);
      if hop.Some? {
        HopHasTunnel(m, node, message.dest, hop.value);
        assert (node, hop.value) in s.links;
        HandOverIsForward(m, s.(injected := s.injected + [M.Injection(node, message)]), node, e, hop.value,
                          H.Encode(message));
      }
    }
  }

  /** One sender's turn of the flush timer is a `FlushTimer` step. */
  lemma FlushIsMeshStep(m: M.Mesh, s: M.State, node: Node, tunnels: set<Node>, e: F.Egress, peer: Node)
    requires m.link.Valid() && M.LinksOk(m, s) && Represents(s, node, e) && peer in e.senders && peer in tunnels
    ensures M.Enabled(m, s, M.FlushTimer((node, peer)))
    ensures Egresses(m, s, M.Apply(m, s, M.FlushTimer((node, peer))), node, peer, e,
                     F.FlushedPeer(m.link.code, m.link.cfg, tunnels, e, peer))
  {
    hide BlockFrames, F.Packets, M.Past;
    var t := (node, peer);
    assert t in s.links && M.LinkOk(m, s.links[t]);
    var (sending, batch) := Flushed(e.senders[peer]);
    var frames := F.Packets(peer, Emitted(m.link.code, m.link.cfg, e.senders[peer].blockId, batch));
    assert (e.outgoing + frames)[|e.outgoing|..] == frames;
    NoPackets(peer);
    if batch.Some? {
      PacketsAre(peer, BlockFrames(m.link.code, m.link.cfg, e.senders[peer].blockId, batch.value));
    }
  }

  // ----- routing -----

  function Recorded(node: Node, local: seq<H.LocalDelivery>): (d: seq<M.Delivered>)
    ensures |d| == |local|
  {
    seq(|local|, i requires 0 <= i < |local| => M.Delivered(node, local[i]))
  }

  /** The node's delivery channel and the mesh's record gain the same deliveries. */
  ghost predicate SameDeliveries(s: M.State, s': M.State, node: Node, local: seq<H.LocalDelivery>,
                                 local': seq<H.LocalDelivery>) {
    && |local| <= |local'| && local'[..|local|] == local
    && s'.delivered == s.delivered + Recorded(node, local'[|local|..])
  }

  /** The hop the mesh is told of when `payload` is routed at `node`. */
  function HopTaken(node: Node, payload: Data, hop: Option<Node>): Option<Node> {
    if H.Decode(payload).Some? && H.Decode(payload).value.dest == node then None else hop
  }

  /** One payload routed by the `Forwarder` of `node` is one `Route` step of the mesh. */
  lemma RoutingIsMeshStep(m: M.Mesh, entries: Entries, tunnels: set<Node>, s: M.State, j: nat, r: F.Routing,
                          hop: Option<Node>)
    requires m.link.Valid() && M.LinksOk(m, s) && j < |s.arrivals|
    requires var a := s.arrivals[j];
             && Represents(s, a.node, r.egress) && Permits(m, entries, a.node, tunnels)
             && F.RouteChosen(entries, a.node, tunnels, a.payload, hop)
    ensures var a := s.arrivals[j];
            var step := M.Route(j, HopTaken(a.node, a.payload, hop));
            var r' := F.Routed(m.link.code, m.link.cfg, a.node, r, a.from, a.payload, hop);
            && M.Enabled(m, s, step)
            && var s' := M.Apply(m, s, step);
               && Represents(s', a.node, r'.egress) && SameReceivers(s, s')
               && SameDeliveries(s, s', a.node, r.local, r'.local)
               && s'.arrivals == s.arrivals[..j] + s.arrivals[j + 1..]
               && (H.Decode(a.payload).Some? && step.hop.Some? ==>
                     Egresses(m, s, s', a.node, step.hop.value, r.egress, r'.egress))
  {
    hide F.HopChosen, M.HopOk, EmitsNewBlock, F.HandedOver, H.Decode, M.LinkOk, Permits;
    var a := s.arrivals[j];
    assert r.local + [] == r.local && s.delivered + [] == s.delivered;
    if H.Decode(a.payload).Some? {
      var dest := H.Decode(a.payload).value.dest;
      if dest == a.node {
        NoHopIsOk(m, a.node, dest);
        var d := H.LocalDelivery(H.Decode(a.payload).value.flowId, H.Decode(a.payload).value.data, a.from);
        assert Recorded(a.node, (r.local + [d])[|r.local|..]) == [M.Delivered(a.node, d)];
      } else {
        ChosenHopIsOk(m, entries, a.node, tunnels, dest, hop);
        if hop.Some? {
          HopHasTunnel(m, a.node, dest, hop.value);
          var t := s.(arrivals := s.arrivals[..j] + s.arrivals[j + 1..]);
          assert (a.node, hop.value) in s.links;
          HandOverIsForward(m, t, a.node, r.egress, hop.value, a.payload);
        }
      }
    }
  }

  lemma NoHopIsOk(m: M.Mesh, node: Node, dest: Node)
    ensures M.HopOk(m, node, dest, None)
  {
  }

  lemma HopHasTunnel(m: M.Mesh, node: Node, dest: Node, v: Node)
    requires M.HopOk(m, node, dest, Some(v))
    ensures (node, v) in m.tunnels
  {
  }

  // ----- the receiving half -----

  /** One receiver of the node after an event that is not a shard's arrival. */
  function Changed(pending: map<nat, Pending>, now: Nanos, c: R.Event): map<nat, Pending> {
    if c.Expire? then Unexpired(pending, MAX_AGE_MS, now) else pending
  }

  /** The links to `node` from the listed peers have moved, and nothing else has changed. */
  ghost predicate OnlyMoved(m: M.Mesh, s: M.State, s': M.State, node: Node, peers: set<Node>, c: R.Event)
    requires m.link.Valid() && M.LinksOk(m, s) && !c.Deliver?
  {
    && s'.links.Keys == s.links.Keys
    && s'.arrivals == s.arrivals && s'.injected == s.injected && s'.delivered == s.delivered
    && (forall t :: t in s.links ==>
          s'.links[t] == if t.1 == node && t.0 in peers then M.Moved(m, s.links[t], c) else s.links[t])
  }

  lemma NoneMoved(m: M.Mesh, s: M.State, node: Node, c: R.Event)
    requires m.link.Valid() && M.LinksOk(m, s) && !c.Deliver?
    ensures OnlyMoved(m, s, s, node, {}, c)
  {
  }

  lemma OneMoreMoved(m: M.Mesh, s: M.State, mid: M.State, node: Node, peers: set<Node>, v: Node, c: R.Event)
    requires m.link.Valid() && M.LinksOk(m, s) && M.LinksOk(m, mid) && !c.Deliver?
    requires OnlyMoved(m, s, mid, node, peers, c) && (v, node) in s.links && v !in peers
    ensures M.Enabled(m, mid, M.Channel((v, node), c))
    ensures OnlyMoved(m, s, M.Apply(m, mid, M.Channel((v, node), c)), node, peers + {v}, c)
  {
    hide M.Moved, M.NewArrivals, M.LinkOk;
    var t := (v, node);
    BatchesOk(m, mid.links[t]);
    TimerYieldsNothing(m, mid.links[t], t, c);
    assert mid.arrivals + [] == mid.arrivals;
  }

  lemma TimerYieldsNothing(m: M.Mesh, l: M.LinkState, t: M.Tunnel, c: R.Event)
    requires m.link.Valid() && M.LinkOk(m, l) && !c.Deliver?
    ensures M.NewArrivals(t, l.rx, M.Moved(m, l, c).rx) == []
  {
  }

  function Listed(peers: seq<Node>): set<Node> {
    set v | v in peers
  }

  /** An event that befalls all receivers of a node, passing time or a firing of the timer, is as many steps. */
  lemma {:induction false} AllMove(m: M.Mesh, s: M.State, node: Node, peers: seq<Node>, c: R.Event)
    returns (s': M.State)
    requires m.link.Valid() && M.LinksOk(m, s) && !c.Deliver?
    requires (forall i, j :: 0 <= i < j < |peers| ==> peers[i] != peers[j])
    requires forall i :: 0 <= i < |peers| ==> (peers[i], node) in s.links
    ensures MayLead(m, s, s') && M.LinksOk(m, s') && OnlyMoved(m, s, s', node, Listed(peers), c)
    decreases |peers|
  {
    hide M.LinksOk, MayLead, OnlyMoved, M.Apply, M.Enabled;
    if peers == [] {
      s' := s;
      StaysPut(m, s);
      NoneMoved(m, s, node, c);
      assert Listed(peers) == {};
    } else {
      var n := |peers| - 1;
      var mid := AllMove(m, s, node, peers[..n], c);
      assert peers[n] !in peers[..n];
      OneMoreMoved(m, s, mid, node, Listed(peers[..n]), peers[n], c);
      assert Listed(peers) == Listed(peers[..n]) + {peers[n]} by {
        assert peers == peers[..n] + [peers[n]];
      }
      OneStep(m, mid, M.Channel((peers[n], node), c));
      s' := M.Apply(m, mid, M.Channel((peers[n], node), c));
      MayLeadTransitive(m, s, mid, s');
    }
  }

  lemma AllChanged(m: M.Mesh, s: M.State, s': M.State, node: Node, receivers: Receivers, now: Nanos, c: R.Event)
    requires m.link.Valid() && M.LinksOk(m, s) && !c.Deliver? && OnlyMoved(m, s, s', node, receivers.Keys, c)
    requires Hears(s, node, receivers, now)
    ensures Hears(s', node, map v | v in receivers :: Changed(receivers[v], now, c),
                  now + (if c.Tick? then c.dt else 0))
    ensures forall e :: Represents(s, node, e) ==> Represents(s', node, e)
  {
    hide Unexpired, M.LinkOk;
    forall t | t in s.links
      ensures s'.links[t].sending == s.links[t].sending
      ensures t.1 == node ==>
        s'.links[t].rx.pending == Changed(s.links[t].rx.pending, now, c)
        && s'.links[t].rx.now == now + (if c.Tick? then c.dt else 0)
    {
      assert t == (t.0, t.1);
    }
  }

  /** Time that passes at a node is so many ticks of its links. */
  lemma TimePasses(m: M.Mesh, s: M.State, node: Node, receivers: Receivers, now: Nanos, dt: Nanos, peers: seq<Node>)
    returns (s': M.State)
    requires m.link.Valid() && M.LinksOk(m, s) && Hears(s, node, receivers, now)
    requires (forall i, j :: 0 <= i < j < |peers| ==> peers[i] != peers[j])
    requires forall v :: v in peers <==> v in receivers
    ensures MayLead(m, s, s') && M.LinksOk(m, s') && Hears(s', node, receivers, now + dt)
    ensures s'.arrivals == s.arrivals && s'.delivered == s.delivered
    ensures forall e :: Represents(s, node, e) ==> Represents(s', node, e)
  {
    hide M.LinksOk, MayLead, Represents;
    s' := AllMove(m, s, node, peers, R.Tick(dt));
    assert Listed(peers) == receivers.Keys;
    AllChanged(m, s, s', node, receivers, now, R.Tick(dt));
    assert (map v | v in receivers :: Changed(receivers[v], now, R.Tick(dt))) == receivers;
  }

  /** What the receiver of a link does with the frame of a shard. */
  ghost function Received(m: M.Mesh, l: M.LinkState, b: nat, i: nat): (map<nat, Pending>, Outcome)
    requires m.link.Valid() && m.link.Batches(l.batches) && m.link.Enabled(l.batches, R.Deliver(b, i))
  {
    FrameIsAccepted(m.link.code, m.link.cfg, b % U16, l.batches[b], i, l.rx.pending, l.rx.now);
    Receive(m.link.code, l.rx.pending, BlockFrames(m.link.code, m.link.cfg, b % U16, l.batches[b])[i].1, l.rx.now)
  }

  lemma LinkReceives(m: M.Mesh, t: M.Tunnel, l: M.LinkState, b: nat, i: nat)
    requires m.link.Valid() && m.link.Batches(l.batches) && m.link.Enabled(l.batches, R.Deliver(b, i))
    ensures var (pending, o) := Received(m, l, b, i);
            var l' := M.Moved(m, l, R.Deliver(b, i));
            && l'.rx.pending == pending && l'.rx.now == l.rx.now && l'.sending == l.sending
            && M.NewArrivals(t, l.rx, l'.rx) == M.ArrivalsOf(t, o)
  {
    hide Receive, BlockFrames, R.Step;
    var o := Received(m, l, b, i).1;
    assert o == Nothing ==> M.ArrivalsOf(t, o) == [];
  }

  /** A shard that reaches its `FecReceiver` is a `Deliver` of its link: the receiver is left the same, and what
      it hands over is what arrives. */
  lemma ReceiptIsMeshStep(m: M.Mesh, s: M.State, node: Node, receivers: Receivers, now: Nanos, v: Node, b: nat,
                          i: nat)
    requires m.link.Valid() && M.LinksOk(m, s) && Hears(s, node, receivers, now) && v in receivers
    requires M.Enabled(m, s, M.Channel((v, node), R.Deliver(b, i)))
    ensures M.LinkOk(m, s.links[(v, node)])
    ensures var t := (v, node);
            var (pending, o) := Received(m, s.links[t], b, i);
            var s' := M.Apply(m, s, M.Channel(t, R.Deliver(b, i)));
            Hears(s', node, receivers[v := pending], now) && s'.arrivals == s.arrivals + M.ArrivalsOf(t, o)
            && s'.delivered == s.delivered
            && (forall e :: Represents(s, node, e) ==> Represents(s', node, e))
  {
    hide Wire.Passes, M.Moved, Received, M.NewArrivals, M.ArrivalsOf;
    LinkReceives(m, (v, node), s.links[(v, node)], b, i);
  }

  /** The payloads of one list, routed in order, are as many `Route` steps. */
  lemma {:induction false} RoutingAllIsMeshRun(m: M.Mesh, entries: Entries, tunnels: set<Node>, s: M.State, node: Node,
                                               from: Node, r: F.Routing, list: seq<Data>, hops: seq<Option<Node>>,
                                               before: seq<M.Arrival>, after: seq<M.Arrival>) returns (s': M.State)
    requires m.link.Valid() && M.LinksOk(m, s) && Represents(s, node, r.egress) && Permits(m, entries, node, tunnels)
    requires |hops| == |list| && forall i :: 0 <= i < |list| ==> F.RouteChosen(entries, node, tunnels, list[i], hops[i])
    requires s.arrivals == before + M.ArrivalsOf((from, node), Payloads(list)) + after
    ensures MayLead(m, s, s') && M.LinksOk(m, s') && SameReceivers(s, s') && s'.arrivals == before + after
    ensures var r' := F.RoutedAll(m.link.code, m.link.cfg, node, r, from, list, hops);
            Represents(s', node, r'.egress) && SameDeliveries(s, s', node, r.local, r'.local)
    decreases |list|
  {
    hide M.LinksOk, MayLead, F.RouteChosen, Represents, F.Routed, Permits, M.Enabled, M.Apply, SameReceivers;
    hide SameDeliveries, M.ArrivalsOf;
    if list == [] {
      s' := s;
      StaysPut(m, s);
      NothingChanges(s, node, r.local);
      NoneArrives((from, node));
      assert before + [] + after == before + after;
    } else {
      var n := |list| - 1;
      var a := M.Arrival(node, from, list[n]);
      OneMoreArrives((from, node), list);
      assert before + M.ArrivalsOf((from, node), Payloads(list)) + after
          == before + M.ArrivalsOf((from, node), Payloads(list[..n])) + ([a] + after);
      var mid := RoutingAllIsMeshRun(m, entries, tunnels, s, node, from, r, list[..n], hops[..n], before, [a] + after);
      var r1 := F.RoutedAll(m.link.code, m.link.cfg, node, r, from, list[..n], hops[..n]);
      var j := |before|;
      assert mid.arrivals[j] == a && mid.arrivals[..j] == before && mid.arrivals[j + 1..] == after;
      RoutingIsMeshStep(m, entries, tunnels, mid, j, r1, hops[n]);
      var step := M.Route(j, HopTaken(node, list[n], hops[n]));
      OneStep(m, mid, step);
      s' := M.Apply(m, mid, step);
      MayLeadTransitive(m, s, mid, s');
      BothChange(s, mid, s', node, r.local, r1.local,
                 F.RoutedAll(m.link.code, m.link.cfg, node, r, from, list, hops).local);
    }
  }

  lemma OneMoreArrives(t: M.Tunnel, list: seq<Data>)
    requires list != []
    ensures var n := |list| - 1;
            M.ArrivalsOf(t, Payloads(list)) == M.ArrivalsOf(t, Payloads(list[..n])) + [M.Arrival(t.1, t.0, list[n])]
  {
  }

  lemma NoneArrives(t: M.Tunnel)
    ensures M.ArrivalsOf(t, Payloads([])) == []
  {
  }

  lemma NothingChanges(s: M.State, node: Node, local: seq<H.LocalDelivery>)
    ensures SameReceivers(s, s) && SameDeliveries(s, s, node, local, local)
  {
    assert local[|local|..] == [];
    assert Recorded(node, []) == [];
  }

  lemma BothChange(s: M.State, mid: M.State, s': M.State, node: Node, l0: seq<H.LocalDelivery>,
                   l1: seq<H.LocalDelivery>, l2: seq<H.LocalDelivery>)
    requires SameReceivers(s, mid) && SameReceivers(mid, s')
    requires SameDeliveries(s, mid, node, l0, l1) && SameDeliveries(mid, s', node, l1, l2)
    ensures SameReceivers(s, s') && SameDeliveries(s, s', node, l0, l2)
  {
    assert l2[|l0|..] == l1[|l0|..] + l2[|l1|..];
    assert Recorded(node, l2[|l0|..]) == Recorded(node, l1[|l0|..]) + Recorded(node, l2[|l1|..]);
    assert l2[..|l0|] == l1[..|l0|];
  }

  lemma ArrivalsOfList(t: M.Tunnel, o: Outcome, list: seq<Data>)
    requires list == if o.Payloads? then o.list else []
    ensures M.ArrivalsOf(t, Payloads(list)) == M.ArrivalsOf(t, o)
  {
  }

  /** Handling one shard is a `Deliver` of its link and then the routing of what the receiver handed over. */
  lemma HandlingIsMeshRun(m: M.Mesh, entries: Entries, tunnels: set<Node>, s: M.State, node: Node, r: F.Routing,
                          receivers: Receivers, now: Nanos, v: Node, b: nat, i: nat, list: seq<Data>,
                          hops: seq<Option<Node>>)
    returns (s': M.State)
    requires m.link.Valid() && M.LinksOk(m, s) && Permits(m, entries, node, tunnels)
    requires Represents(s, node, r.egress) && Hears(s, node, receivers, now) && v in receivers
    requires M.Enabled(m, s, M.Channel((v, node), R.Deliver(b, i))) && M.LinkOk(m, s.links[(v, node)])
    requires var o := Received(m, s.links[(v, node)], b, i).1; list == if o.Payloads? then o.list else []
    requires |hops| == |list| && forall k :: 0 <= k < |list| ==> F.RouteChosen(entries, node, tunnels, list[k], hops[k])
    ensures MayLead(m, M.Apply(m, s, M.Channel((v, node), R.Deliver(b, i))), s') && s'.arrivals == s.arrivals
    ensures Hears(s', node, receivers[v := Received(m, s.links[(v, node)], b, i).0], now)
    ensures var r' := F.RoutedAll(m.link.code, m.link.cfg, node, r, v, list, hops);
            Represents(s', node, r'.egress) && SameDeliveries(s, s', node, r.local, r'.local)
  {
    var (pending, o) := Received(m, s.links[(v, node)], b, i);
    hide M.LinksOk, MayLead, F.RouteChosen, Represents, Permits, M.Enabled, M.Apply, Hears, Received, SameReceivers;
    hide M.LinkOk, F.RoutedAll, M.ArrivalsOf, SameDeliveries;
    ArrivalsOfList((v, node), o, list);
    var e := M.Channel((v, node), R.Deliver(b, i));
    ReceiptIsMeshStep(m, s, node, receivers, now, v, b, i);
    M.ApplyKeepsLinks(m, s, e);
    var s1 := M.Apply(m, s, e);
    EmptyTail(s.arrivals, M.ArrivalsOf((v, node), Payloads(list)));
    s' := RoutingAllIsMeshRun(m, entries, tunnels, s1, node, v, r, list, hops, s.arrivals, []);
    StillHears(s1, s', node, receivers[v := pending], now);
    SameStart(s, s1, s', node, r.local, F.RoutedAll(m.link.code, m.link.cfg, node, r, v, list, hops).local);
  }

  lemma EmptyTail(a: seq<M.Arrival>, b: seq<M.Arrival>)
    ensures a + b + [] == a + b && a + [] == a
  {
  }

  lemma SameStart(s: M.State, s1: M.State, s': M.State, node: Node, l0: seq<H.LocalDelivery>, l1: seq<H.LocalDelivery>)
    requires SameDeliveries(s1, s', node, l0, l1) && s1.delivered == s.delivered
    ensures SameDeliveries(s, s', node, l0, l1)
  {
  }

  // ----- the whole turn of the flush timer -----

  /** Flushing the senders one by one is as many `FlushTimer` steps. */
  lemma {:induction false} FlushingIsMeshRun(m: M.Mesh, s: M.State, node: Node, tunnels: set<Node>, e: F.Egress,
                                             order: seq<Node>) returns (s': M.State)
    requires m.link.Valid() && M.LinksOk(m, s) && Represents(s, node, e)
    requires forall i :: 0 <= i < |order| ==> order[i] in e.senders && order[i] in tunnels
    ensures MayLead(m, s, s') && M.LinksOk(m, s') && SameReceivers(s, s')
    ensures s'.arrivals == s.arrivals && s'.delivered == s.delivered
    ensures Represents(s', node, F.FlushedAll(m.link.code, m.link.cfg, tunnels, e, order))
    ensures F.FlushedAll(m.link.code, m.link.cfg, tunnels, e, order).senders.Keys == e.senders.Keys
    decreases |order|
  {
    hide M.LinksOk, MayLead, Represents, SameReceivers, M.Apply, M.Enabled, EmitsNewBlock;
    if order == [] {
      s' := s;
      StaysPut(m, s);
      assert SameReceivers(s, s) by { NothingChanges(s, node, []); }
    } else {
      var n := |order| - 1;
      var mid := FlushingIsMeshRun(m, s, node, tunnels, e, order[..n]);
      var before := F.FlushedAll(m.link.code, m.link.cfg, tunnels, e, order[..n]);
      FlushIsMeshStep(m, mid, node, tunnels, before, order[n]);
      OneStep(m, mid, M.FlushTimer((node, order[n])));
      s' := M.Apply(m, mid, M.FlushTimer((node, order[n])));
      FlushIsQuiet(m, mid, (node, order[n]));
      MayLeadTransitive(m, s, mid, s');
      SameThrough(s, mid, s');
    }
  }

  lemma FlushIsQuiet(m: M.Mesh, s: M.State, t: M.Tunnel)
    requires m.link.Valid() && M.LinksOk(m, s) && M.Enabled(m, s, M.FlushTimer(t))
    ensures var s' := M.Apply(m, s, M.FlushTimer(t)); s'.arrivals == s.arrivals && s'.delivered == s.delivered
  {
  }

  lemma SameThrough(s: M.State, mid: M.State, s': M.State)
    requires SameReceivers(s, mid) && SameReceivers(mid, s')
    ensures SameReceivers(s, s')
  {
  }

  /** `FlushFec`: every sender is flushed, in the order of the map, and then every receiver expires its old blocks,
      at one reading of the clock; all that is a run of the mesh. */
  lemma TimerIsMeshRun(m: M.Mesh, s: M.State, node: Node, tunnels: set<Node>, e: F.Egress, receivers: Receivers,
                       now: Nanos, order: seq<Node>, peers: seq<Node>) returns (s': M.State)
    requires m.link.Valid() && M.LinksOk(m, s) && Represents(s, node, e) && Hears(s, node, receivers, now)
    requires (forall v :: v in order <==> v in e.senders) && e.senders.Keys <= tunnels
    requires (forall v :: v in peers <==> v in receivers)
    requires (forall i, j :: 0 <= i < j < |peers| ==> peers[i] != peers[j])
    ensures MayLead(m, s, s') && M.LinksOk(m, s') && s'.arrivals == s.arrivals && s'.delivered == s.delivered
    ensures Represents(s', node, F.FlushedAll(m.link.code, m.link.cfg, tunnels, e, order))
    ensures Hears(s', node, map v | v in receivers :: Unexpired(receivers[v], MAX_AGE_MS, now), now)
  {
    hide M.LinksOk, MayLead, Represents, SameReceivers, F.FlushedAll, Unexpired;
    var mid := FlushingIsMeshRun(m, s, node, tunnels, e, order);
    StillHears(s, mid, node, receivers, now);
    s' := AllMove(m, mid, node, peers, R.Expire);
    assert Listed(peers) == receivers.Keys;
    AllChanged(m, mid, s', node, receivers, now, R.Expire);
    assert (map v | v in receivers :: Changed(receivers[v], now, R.Expire))
        == (map v | v in receivers :: Unexpired(receivers[v], MAX_AGE_MS, now));
    MayLeadTransitive(m, s, mid, s');
  }
}
