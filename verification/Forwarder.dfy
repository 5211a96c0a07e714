/** `Forwarder`: the per-node engine that routes relay payloads and runs one FEC sender and one FEC receiver
    for each peer. */
module Forwarding {
  import opened Bytes
  import opened Graph
  import opened Matrix
  import opened Router
  import opened ErasureCode
  import opened FecCodec
  import opened PeerTables
  import opened Probing
  import H = RelayHeader

  const PACKET_PING: byte := 3
  const PACKET_PONG: byte := 4

  /** A packet handed to the tunnel to `peer`. */
  datatype Outgoing = Outgoing(peer: Node, packetType: byte, payload: Data)

  datatype ForwardResult = Forwarded | NoRoute(dest: Node) | NoTunnel(peer: Node)

  /** The sending half of a node: the FEC senders, and all packets handed to tunnels so far. */
  datatype Egress = Egress(senders: map<Node, Sending>, outgoing: seq<Outgoing>)

  /** What routing a payload can change. */
  datatype Routing = Routing(egress: Egress, local: seq<H.LocalDelivery>)

  function Packets(peer: Node, frames: Option<seq<(byte, Data)>>): seq<Outgoing> {
    match frames
    case None => []
    case Some(f) => seq(|f|, i requires 0 <= i < |f| => Outgoing(peer, f[i].0, f[i].1))
  }

  /** The payload goes to the peer's FEC sender, or straight into its tunnel if it has none. */
  function HandedOver(code: Code, cfg: FecConfig, e: Egress, peer: Node, payload: Data): Egress {
    if peer in e.senders then
      var (sending, batch) := Submitted(cfg, e.senders[peer], payload);
      Egress(e.senders[peer := sending],
             e.outgoing + Packets(peer, Emitted(code, cfg, e.senders[peer].blockId, batch)))
    else
      e.(outgoing := e.outgoing + [Outgoing(peer, PACKET_DATA, payload)])
  }

  /** One routed payload; `hop` is the peer it was forwarded to, if it was. */
  function Routed(code: Code, cfg: FecConfig, node: Node, s: Routing, from: Node, payload: Data, hop: Option<Node>)
    : Routing
  {
    match H.Decode(payload)
    case None => s
    case Some(r) =>
      if r.dest == node then s.(local := s.local + [H.LocalDelivery(r.flowId, r.data, from)])
      else if hop.None? then s
      else s.(egress := HandedOver(code, cfg, s.egress, hop.value, payload))
  }

  function RoutedAll(code: Code, cfg: FecConfig, node: Node, s: Routing, from: Node, payloads: seq<Data>,
                     hops: seq<Option<Node>>): Routing
    requires |hops| == |payloads|
  {
    if payloads == [] then s
    else
      var n := |payloads| - 1;
      Routed(code, cfg, node, RoutedAll(code, cfg, node, s, from, payloads[..n], hops[..n]), from, payloads[n], hops[n])
  }

  /** One sender's turn of the flush timer; without a tunnel the flushed shards go nowhere. */
  function FlushedPeer(code: Code, cfg: FecConfig, tunnels: set<Node>, e: Egress, peer: Node): Egress {
    if peer !in e.senders then e
    else
      var (sending, batch) := Flushed(e.senders[peer]);
      var frames := Emitted(code, cfg, e.senders[peer].blockId, batch);
      Egress(e.senders[peer := sending], e.outgoing + (if peer in tunnels then Packets(peer, frames) else []))
  }

  function FlushedAll(code: Code, cfg: FecConfig, tunnels: set<Node>, e: Egress, peers: seq<Node>): Egress {
    if peers == [] then e
    else FlushedPeer(code, cfg, tunnels, FlushedAll(code, cfg, tunnels, e, peers[..|peers| - 1]), peers[|peers| - 1])
  }

  lemma FlushedNone(code: Code, cfg: FecConfig, tunnels: set<Node>, e: Egress)
    ensures FlushedAll(code, cfg, tunnels, e, []) == e
  {
  }

  lemma FlushedOneMore(code: Code, cfg: FecConfig, tunnels: set<Node>, e: Egress, peers: seq<Node>, peer: Node)
    ensures FlushedAll(code, cfg, tunnels, e, peers + [peer])
         == FlushedPeer(code, cfg, tunnels, FlushedAll(code, cfg, tunnels, e, peers), peer)
  {
    assert (peers + [peer])[..|peers|] == peers;
  }

  /** A payload for a peer without a sender goes out unprotected, as one data packet; what is flushed for a peer
      without a tunnel goes nowhere, but its sender is emptied all the same. */
  lemma WithoutFecOrTunnel(code: Code, cfg: FecConfig, tunnels: set<Node>, e: Egress, peer: Node, payload: Data)
    ensures peer !in e.senders ==>
      HandedOver(code, cfg, e, peer, payload) == Egress(e.senders, e.outgoing + [Outgoing(peer, 1, payload)])
    ensures peer in e.senders && peer !in tunnels ==>
      var e' := FlushedPeer(code, cfg, tunnels, e, peer);
      e'.outgoing == e.outgoing && e'.senders.Keys == e.senders.Keys && e'.senders[peer].buffer == []
  {
  }

  /** `r` is an answer of some search at `node`. */
  ghost predicate MayChoose(m: Entries, node: Node, dest: Node, r: RouteEntry) {
    IsBestRoute(m, node, dest, r) && MayAnswer(m, node, dest, r.path)
  }

  /** `hop` is a next hop some search answers for `dest`, with a tunnel to it; `None` only if there is no
      route, or if some search answers a peer that has no tunnel. */
  ghost predicate HopChosen(m: Entries, node: Node, tunnels: set<Node>, dest: Node, hop: Option<Node>) {
    match hop
    case Some(v) => dest != node && v in tunnels && exists r :: MayChoose(m, node, dest, r) && r.nextHop == v
    case None =>
      dest == node || !Reaches(WeightsOf(m), node, dest) ||
      exists r :: MayChoose(m, node, dest, r) && r.nextHop !in tunnels
  }

  ghost predicate RouteChosen(m: Entries, node: Node, tunnels: set<Node>, payload: Data, hop: Option<Node>) {
    match H.Decode(payload)
    case None => true
    case Some(r) => r.dest != node ==> HopChosen(m, node, tunnels, r.dest, hop)
  }

  class Forwarder {
    const nodeId: Node
    const router: MeshRouter
    const prober: Prober
    const fecSenders: SenderTable
    const fecReceivers: ReceiverTable
    var tunnels: set<Node>
    var outgoing: seq<Outgoing>
    var local: seq<H.LocalDelivery>

    ghost predicate Valid()
      reads this, fecSenders, fecSenders.Repr, fecReceivers, fecReceivers.Repr
    {
      && router.localNode == nodeId
      && fecSenders.Valid() && fecReceivers.Valid() && fecSenders.View().Keys <= tunnels
      && fecSenders.Repr !! fecReceivers.Repr
      && this !in fecSenders.Repr && this !in fecReceivers.Repr
      && router.matrix !in fecSenders.Repr && router.matrix !in fecReceivers.Repr
    }

    ghost function View(): Routing
      requires fecSenders.Valid()
      reads this, fecSenders, fecSenders.Repr
    {
      Routing(Egress(fecSenders.View(), outgoing), local)
    }

    constructor (nodeId: Node, router: MeshRouter, prober: Prober, code: Code, fecConfig: FecConfig)
      requires router.localNode == nodeId && ValidCounts(fecConfig.dataShards, fecConfig.parityShards)
      ensures Valid() && tunnels == {} && View() == Routing(Egress(map[], []), []) && fecReceivers.View() == map[]
    {
      this.nodeId := nodeId;
      this.router := router;
      this.prober := prober;
      fecSenders := new SenderTable(code, fecConfig);
      fecReceivers := new ReceiverTable();
      tunnels := {};
      outgoing := [];
      local := [];
    }

    /** A peer that already has FEC state keeps it. */
    method AddTunnel(peer: Node)
      requires Valid()
      modifies this, fecSenders, fecReceivers
      ensures Valid() && tunnels == old(tunnels) + {peer} && outgoing == old(outgoing) && local == old(local)
      ensures fecSenders.View() == map[peer := Sending([], 0)] + old(fecSenders.View())
      ensures fecReceivers.View() == map[peer := map[]] + old(fecReceivers.View())
    {
      hide SenderTable.View, ReceiverTable.View, SenderTable.Valid, ReceiverTable.Valid;
      OwnsTables(fecSenders, fecReceivers);
      fecSenders.Add(peer);
      fecReceivers.Add(peer);
      tunnels := tunnels + {peer};
    }

    static lemma OwnsTables(s: SenderTable, r: ReceiverTable)
      requires s.Valid() && r.Valid()
      ensures s in s.Repr && r in r.Repr
      ensures s.View().Keys == s.senders.Keys && r.View().Keys == r.receivers.Keys
    {
    }

    method ForwardTo(dest: Node, payload: Data) returns (r: ForwardResult, ghost hop: Option<Node>)
      requires Valid()
      modifies `outgoing, fecSenders.Repr
      ensures Valid() && fecSenders.Repr == old(fecSenders.Repr) && fecSenders.senders == old(fecSenders.senders)
      ensures dest != nodeId ==> HopChosen(router.matrix.entries, nodeId, tunnels, dest, hop)
      ensures r.Forwarded? <==> hop.Some?
      ensures r.NoRoute? <==> dest == nodeId || !Reaches(WeightsOf(router.matrix.entries), nodeId, dest)
      ensures View() ==
        if hop.None? then old(View())
        else old(View()).(egress := HandedOver(fecSenders.code, fecSenders.config, old(View()).egress, hop.value,
                                               payload))
    {
      hide SenderTable.View, SenderTable.Valid, ReceiverTable.Valid, Submitted, Emitted;
      hide Reaches, IsBestRoute, MayAnswer;
      OwnsTables(fecSenders, fecReceivers);
      hop := None;
      var route := router.NextHop(dest);
      if route.None? {
        return NoRoute(dest), None;
      }
      var peer := route.value.nextHop;
      if peer !in tunnels {
        return NoTunnel(peer), None;
      }
      if peer in fecSenders.senders {
        var frames := fecSenders.Submit(peer, payload);
        outgoing := outgoing + Packets(peer, frames);
      } else {
        outgoing := outgoing + [Outgoing(peer, PACKET_DATA, payload)];
      }
      return Forwarded, Some(peer);
    }

    method SendToNode(dest: Node, flowId: nat, data: Data) returns (r: ForwardResult, ghost hop: Option<Node>)
      requires Valid() && flowId < U32
      modifies `outgoing, fecSenders.Repr
      ensures Valid() && fecSenders.Repr == old(fecSenders.Repr)
      ensures dest != nodeId ==> HopChosen(router.matrix.entries, nodeId, tunnels, dest, hop)
      ensures r.Forwarded? <==> hop.Some?
      ensures r.NoRoute? <==> dest == nodeId || !Reaches(WeightsOf(router.matrix.entries), nodeId, dest)
      ensures View() ==
        if hop.None? then old(View())
        else old(View()).(egress := HandedOver(fecSenders.code, fecSenders.config, old(View()).egress, hop.value,
                                               H.Encode(H.Relayed(flowId, dest, data))))
    {
      r, hop := ForwardTo(dest, H.Encode(H.Relayed(flowId, dest, data)));
    }

    method RouteData(from: Node, payload: Data) returns (ghost hop: Option<Node>)
      requires Valid()
      modifies `outgoing, `local, fecSenders.Repr
      ensures Valid() && fecSenders.Repr == old(fecSenders.Repr)
      ensures RouteChosen(router.matrix.entries, nodeId, tunnels, payload, hop)
      ensures View() == Routed(fecSenders.code, fecSenders.config, nodeId, old(View()), from, payload, hop)
    {
      hide SenderTable.View, SenderTable.Valid, ReceiverTable.Valid, HopChosen;
      hop := None;
      var header := H.Decode(payload);
      if header.None? {
        return;
      }
      if header.value.dest == nodeId {
        local := local + [H.LocalDelivery(header.value.flowId, header.value.data, from)];
      } else {
        var r;
        r, hop := ForwardTo(header.value.dest, payload);
      }
    }

    /** Routes the payloads of one completed block, in order. */
    method RouteList(from: Node, list: seq<Data>) returns (ghost hops: seq<Option<Node>>)
      requires Valid()
      modifies `outgoing, `local, fecSenders.Repr
      ensures Valid() && fecSenders.Repr == old(fecSenders.Repr)
      ensures |hops| == |list|
      ensures forall i :: 0 <= i < |hops| ==> RouteChosen(router.matrix.entries, nodeId, tunnels, list[i], hops[i])
      ensures View() == RoutedAll(fecSenders.code, fecSenders.config, nodeId, old(View()), from, list, hops)
    {
      hide SenderTable.View, SenderTable.Valid, ReceiverTable.Valid, RouteChosen, Routed;
      hops := [];
      ghost var before := View();
      ghost var m := router.matrix.entries;
      for i := 0 to |list|
        invariant Valid() && fecSenders.Repr == old(fecSenders.Repr) && router.matrix.entries == m
        invariant |hops| == i && forall j :: 0 <= j < i ==> RouteChosen(m, nodeId, tunnels, list[j], hops[j])
        invariant View() == RoutedAll(fecSenders.code, fecSenders.config, nodeId, before, from, list[..i], hops)
      {
        ghost var hop := RouteData(from, list[i]);
        ghost var longer := hops + [hop];
        assert list[..i + 1][..i] == list[..i] && longer[..i] == hops;
        hops := longer;
      }
      assert list[..|list|] == list;
    }

    /** The data and parity arm: reassemble, then route. A packet from a peer without a receiver is routed as
        it is. */
    method HandleShard(from: Node, payload: Data, now: Nanos)
      returns (o: Outcome, ghost list: seq<Data>, ghost hops: seq<Option<Node>>)
      requires Valid()
      modifies `outgoing, `local, fecSenders.Repr, fecReceivers.Repr
      ensures Valid() && tunnels == old(tunnels)
      ensures from in old(fecReceivers.View()) ==>
        var (pending, outcome) := Receive(fecSenders.code, old(fecReceivers.View())[from], payload, now);
        fecReceivers.View() == old(fecReceivers.View())[from := pending] && o == outcome
        && list == if o.Payloads? then o.list else []
      ensures from !in old(fecReceivers.View()) ==>
        fecReceivers.View() == old(fecReceivers.View()) && o == Nothing && list == [payload]
      ensures |hops| == |list|
      ensures forall i :: 0 <= i < |hops| ==> RouteChosen(router.matrix.entries, nodeId, tunnels, list[i], hops[i])
      ensures View() == RoutedAll(fecSenders.code, fecSenders.config, nodeId, old(View()), from, list, hops)
    {
      hide SenderTable.View, SenderTable.Valid, ReceiverTable.View, ReceiverTable.Valid;
      hide Receive, RouteChosen, RoutedAll;
      OwnsTables(fecSenders, fecReceivers);
      o := Nothing;
      var payloads := [payload];
      if from in fecReceivers.receivers {
        o := fecReceivers.ReceiveShard(from, fecSenders.code, payload, now);
        payloads := if o.Payloads? then o.list else [];
      }
      list := payloads;
      hops := RouteList(from, payloads);
    }

    /** All arms of `handle_inbound`. */
    method HandleInbound(from: Node, packetType: byte, payload: Data, now: Nanos)
      returns (o: Outcome, ghost list: seq<Data>, ghost hops: seq<Option<Node>>)
      requires Valid()
      requires prober.matrix !in fecSenders.Repr + fecReceivers.Repr && prober !in fecSenders.Repr + fecReceivers.Repr
      modifies `outgoing, `local, fecSenders.Repr, fecReceivers.Repr, prober, prober.matrix
      ensures Valid() && tunnels == old(tunnels)
      ensures packetType == PACKET_PING ==>
        View() == old(View()).(egress := old(View()).egress.(outgoing := old(outgoing) +
          (if from in tunnels then [Outgoing(from, PACKET_PONG, payload)] else [])))
      ensures packetType == PACKET_PONG ==> prober.View() == Ponged(prober.nodeId, old(prober.View()), payload, now)
      ensures packetType != PACKET_PONG ==> prober.View() == old(prober.View())
      ensures packetType in {PACKET_DATA, PACKET_PARITY} ==>
        (from in old(fecReceivers.View()) ==>
           var (pending, outcome) := Receive(fecSenders.code, old(fecReceivers.View())[from], payload, now);
           fecReceivers.View() == old(fecReceivers.View())[from := pending] && o == outcome
           && list == if o.Payloads? then o.list else [])
        && (from !in old(fecReceivers.View()) ==>
              fecReceivers.View() == old(fecReceivers.View()) && o == Nothing && list == [payload])
      ensures |hops| == |list|
      ensures forall i :: 0 <= i < |hops| && packetType in {PACKET_DATA, PACKET_PARITY} ==>
        RouteChosen(router.matrix.entries, nodeId, tunnels, list[i], hops[i])
      ensures packetType in {PACKET_DATA, PACKET_PARITY} ==>
        View() == RoutedAll(fecSenders.code, fecSenders.config, nodeId, old(View()), from, list, hops)
      ensures packetType !in {PACKET_PING, PACKET_DATA, PACKET_PARITY} ==> View() == old(View())
      ensures packetType !in {PACKET_DATA, PACKET_PARITY} ==> fecReceivers.View() == old(fecReceivers.View())
    {
      hide SenderTable.View, SenderTable.Valid, ReceiverTable.View, ReceiverTable.Valid, Receive, RoutedAll, Ponged;
      hide RouteChosen;
      OwnsTables(fecSenders, fecReceivers);
      o, list, hops := Nothing, [], [];
      if packetType == PACKET_PING {
        if from in tunnels {
          outgoing := outgoing + [Outgoing(from, PACKET_PONG, payload)];
        }
      } else if packetType == PACKET_PONG {
        prober.HandlePong(payload, now);
      } else if packetType == PACKET_DATA || packetType == PACKET_PARITY {
        o, list, hops := HandleShard(from, payload, now);
      }
    }

    method FlushPeer(peer: Node)
      requires Valid() && peer in fecSenders.senders
      modifies `outgoing, fecSenders.Repr
      ensures Valid() && fecSenders.Repr == old(fecSenders.Repr) && fecSenders.senders == old(fecSenders.senders)
      ensures View() ==
        old(View()).(egress := FlushedPeer(fecSenders.code, fecSenders.config, tunnels, old(View()).egress, peer))
    {
      hide SenderTable.View, SenderTable.Valid, ReceiverTable.Valid, Flushed, Emitted;
      OwnsTables(fecSenders, fecReceivers);
      var frames := fecSenders.FlushPartial(peer);
      if peer in tunnels {
        outgoing := outgoing + Packets(peer, frames);
      }
    }

    /** The flush timer's first half: every sender once, in the arbitrary order of the map. */
    method FlushSenders() returns (ghost order: seq<Node>)
      requires Valid()
      modifies `outgoing, fecSenders.Repr
      ensures Valid() && fecSenders.Repr == old(fecSenders.Repr)
      ensures (forall p :: p in order <==> p in old(fecSenders.View()))
      ensures (forall i, j :: 0 <= i < j < |order| ==> order[i] != order[j])
      ensures View() == old(View()).(egress :=
        FlushedAll(fecSenders.code, fecSenders.config, tunnels, old(View()).egress, order))
    {
      hide SenderTable.View, SenderTable.Valid, ReceiverTable.Valid, FlushedPeer, FlushedAll;
      OwnsTables(fecSenders, fecReceivers);
      order := [];
      ghost var before := View();
      FlushedNone(fecSenders.code, fecSenders.config, tunnels, before.egress);
      var todo := fecSenders.senders.Keys;
      while todo != {}
        invariant Valid() && fecSenders.senders == old(fecSenders.senders) && fecSenders.Repr == old(fecSenders.Repr)
        invariant todo <= fecSenders.senders.Keys
        invariant forall p :: p in order <==> p in fecSenders.senders && p !in todo
        invariant forall i, j :: 0 <= i < j < |order| ==> order[i] != order[j]
        invariant View() == before.(egress :=
          FlushedAll(fecSenders.code, fecSenders.config, tunnels, before.egress, order))
      {
        var peer :| peer in todo;
        todo := todo - {peer};
        FlushPeer(peer);
        FlushedOneMore(fecSenders.code, fecSenders.config, tunnels, before.egress, order, peer);
        order := order + [peer];
      }
    }

    /** The flush timer's second half: every receiver drops its blocks of 500 ms or more. */
    method ExpireReceivers(now: Nanos)
      requires Valid()
      modifies fecReceivers.Repr
      ensures Valid()
      ensures fecReceivers.View() ==
        map p | p in old(fecReceivers.View()) :: Unexpired(old(fecReceivers.View())[p], MAX_AGE_MS, now)
    {
      hide SenderTable.View, SenderTable.Valid, ReceiverTable.View, ReceiverTable.Valid, Unexpired;
      OwnsTables(fecSenders, fecReceivers);
      ghost var before := fecReceivers.View();
      var peers := fecReceivers.receivers.Keys;
      var todo := peers;
      while todo != {}
        invariant Valid() && todo <= peers == fecReceivers.receivers.Keys && fecReceivers.Repr == old(fecReceivers.Repr)
        invariant fecReceivers.View().Keys == before.Keys == peers
        invariant forall p :: p in peers ==>
          fecReceivers.View()[p] == if p in todo then before[p] else Unexpired(before[p], MAX_AGE_MS, now)
      {
        var peer :| peer in todo;
        todo := todo - {peer};
        fecReceivers.ExpireOld(peer, MAX_AGE_MS, now);
      }
    }

    method FlushFec(now: Nanos) returns (ghost order: seq<Node>)
      requires Valid()
      modifies `outgoing, fecSenders.Repr, fecReceivers.Repr
      ensures Valid()
      ensures (forall p :: p in order <==> p in old(fecSenders.View()))
      ensures (forall i, j :: 0 <= i < j < |order| ==> order[i] != order[j])
      ensures View() == old(View()).(egress :=
        FlushedAll(fecSenders.code, fecSenders.config, tunnels, old(View()).egress, order))
      ensures fecReceivers.View() ==
        map p | p in old(fecReceivers.View()) :: Unexpired(old(fecReceivers.View())[p], MAX_AGE_MS, now)
    {
      hide SenderTable.View, SenderTable.Valid, ReceiverTable.View, ReceiverTable.Valid, Unexpired, FlushedAll;
      OwnsTables(fecSenders, fecReceivers);
      order := FlushSenders();
      ExpireReceivers(now);
    }
  }
}
