/** The TCP edge: a read is cut into chunks, each of which is sent to the destination as a message of one flow. */
module TcpEdge {
  import opened Bytes
  import opened ErasureCode
  import opened FecCodec
  import opened NodeSteps
  import opened Progress
  import opened Router
  import opened Wire
  import F = Forwarding
  import H = RelayHeader
  import M = Mesh

  /** The node after the first chunks were sent; a chunk without a hop was refused. */
  function SentAll(code: Code, cfg: FecConfig, s: F.Routing, flowId: nat, dest: Node, chunks: seq<Data>,
                   hops: seq<Option<Node>>): F.Routing
    requires |hops| <= |chunks|
  {
    if hops == [] then s
    else
      var n := |hops| - 1;
      var before := SentAll(code, cfg, s, flowId, dest, chunks, hops[..n]);
      if hops[n].None? then before
      else before.(egress := F.HandedOver(code, cfg, before.egress, hops[n].value,
                                          H.Encode(H.Relayed(flowId, dest, chunks[n]))))
  }

  /** Every chunk was sent, or the last one tried was the first to be refused. */
  predicate StopsAtRefusal(hops: seq<Option<Node>>, chunks: nat, ok: bool) {
    && |hops| <= chunks
    && (forall i :: 0 <= i < |hops| - 1 ==> hops[i].Some?)
    && (ok <==> |hops| == chunks && (hops != [] ==> hops[|hops| - 1].Some?))
    && (!ok ==> hops != [] && hops[|hops| - 1].None?)
  }

  /** One read from a client. */
  method SendRead(f: F.Forwarder, dest: Node, flowId: nat, read: Data) returns (ok: bool, ghost hops: seq<Option<Node>>)
    requires f.Valid() && flowId < U32
    modifies f`outgoing, f.fecSenders.Repr
    ensures f.Valid() && StopsAtRefusal(hops, |Chunks(read, MAX_RELAY_DATA)|, ok)
    ensures dest == f.nodeId ==> forall i :: 0 <= i < |hops| ==> hops[i].None?
    ensures dest != f.nodeId ==> forall i :: 0 <= i < |hops| ==>
      F.HopChosen(f.router.matrix.entries, f.nodeId, f.tunnels, dest, hops[i])
    ensures f.View() == SentAll(f.fecSenders.code, f.fecSenders.config, old(f.View()), flowId, dest,
                                Chunks(read, MAX_RELAY_DATA), hops)
  {
    hide F.HopChosen, F.HandedOver, H.Encode;
    var chunks := Chunks(read, MAX_RELAY_DATA);
    hops := [];
    for i := 0 to |chunks|
      invariant f.Valid() && f.fecSenders.Repr == old(f.fecSenders.Repr) && |hops| == i
      invariant forall j :: 0 <= j < i ==> hops[j].Some?
      invariant dest == f.nodeId ==> hops == []
      invariant dest != f.nodeId ==> forall j :: 0 <= j < i ==>
        F.HopChosen(f.router.matrix.entries, f.nodeId, f.tunnels, dest, hops[j])
      invariant f.View() == SentAll(f.fecSenders.code, f.fecSenders.config, old(f.View()), flowId, dest, chunks, hops)
    {
      ghost var hop;
      var r;
      r, hop := f.SendToNode(dest, flowId, chunks[i]);
      ghost var longer := hops + [hop];
      assert longer[..i] == hops;
      hops := longer;
      if !r.Forwarded? {
        return false, hops;
      }
    }
    return true, hops;
  }

  // ----- as a run of the mesh -----

  function Injections(node: Node, flowId: nat, dest: Node, chunks: seq<Data>): (i: seq<M.Injection>)
    ensures |i| == |chunks|
    ensures forall k :: 0 <= k < |i| ==> i[k] == M.Injection(node, H.Relayed(flowId, dest, chunks[k]))
  {
    seq(|chunks|, k requires 0 <= k < |chunks| => M.Injection(node, H.Relayed(flowId, dest, chunks[k])))
  }

  ghost predicate ChosenFor(entries: Entries, node: Node, tunnels: set<Node>, dest: Node, hop: Option<Node>) {
    if dest == node then hop == None else F.HopChosen(entries, node, tunnels, dest, hop)
  }

  /** Sending the chunks is as many `Inject` steps of one flow. */
  lemma {:induction false} SendingIsMeshRun(m: M.Mesh, entries: Entries, tunnels: set<Node>, s: M.State, node: Node,
                                            r: F.Routing, flowId: nat, dest: Node, chunks: seq<Data>,
                                            hops: seq<Option<Node>>) returns (s': M.State)
    requires m.link.Valid() && M.LinksOk(m, s) && Represents(s, node, r.egress) && Permits(m, entries, node, tunnels)
    requires flowId < U32 && H.ValidUtf8(dest.name) && |dest.name| <= 255 && |hops| <= |chunks|
    requires forall i :: 0 <= i < |hops| ==> ChosenFor(entries, node, tunnels, dest, hops[i])
    ensures MayLead(m, s, s') && M.LinksOk(m, s') && SameReceivers(s, s')
    ensures s'.injected == s.injected + Injections(node, flowId, dest, chunks[..|hops|])
    ensures Represents(s', node, SentAll(m.link.code, m.link.cfg, r, flowId, dest, chunks, hops).egress)
    decreases |hops|
  {
    hide M.LinksOk, MayLead, Represents, F.HandedOver, Permits, M.Enabled, M.Apply, SameReceivers, ChosenFor, H.Encode;
    hide H.ValidUtf8;
    if hops == [] {
      s' := s;
      StaysPut(m, s);
      NothingChanges(s, node, []);
      assert s.injected + [] == s.injected;
    } else {
      var n := |hops| - 1;
      var mid := SendingIsMeshRun(m, entries, tunnels, s, node, r, flowId, dest, chunks, hops[..n]);
      var before := SentAll(m.link.code, m.link.cfg, r, flowId, dest, chunks, hops[..n]);
      s' := OneChunk(m, entries, tunnels, mid, node, before.egress, H.Relayed(flowId, dest, chunks[n]), hops[n]);
      MayLeadTransitive(m, s, mid, s');
      SameThrough(s, mid, s');
      assert Injections(node, flowId, dest, chunks[..n + 1])
          == Injections(node, flowId, dest, chunks[..n]) + [M.Injection(node, H.Relayed(flowId, dest, chunks[n]))];
    }
  }

  lemma OneChunk(m: M.Mesh, entries: Entries, tunnels: set<Node>, s: M.State, node: Node, e: F.Egress,
                 message: H.Relayed, hop: Option<Node>) returns (s': M.State)
    requires m.link.Valid() && M.LinksOk(m, s) && Represents(s, node, e) && Permits(m, entries, node, tunnels)
    requires M.Injectable(message) && ChosenFor(entries, node, tunnels, message.dest, hop)
    ensures MayLead(m, s, s') && M.LinksOk(m, s') && SameReceivers(s, s')
    ensures s'.injected == s.injected + [M.Injection(node, message)]
    ensures Represents(s', node, if hop.None? then e
                                 else F.HandedOver(m.link.code, m.link.cfg, e, hop.value, H.Encode(message)))
  {
    hide M.LinksOk, MayLead, Permits, M.Enabled, M.Apply, F.HopChosen, F.HandedOver, H.Encode, EmitsNewBlock;
    InjectionIsMeshStep(m, entries, tunnels, s, node, e, message, hop);
    OneStep(m, s, M.Inject(node, message, hop));
    s' := M.Apply(m, s, M.Inject(node, message, hop));
  }

  // ----- what becomes of a read -----

  lemma {:induction false} JoinedPrefix(chunks: seq<Data>, k: nat)
    requires k <= |chunks|
    ensures Joined(chunks) == Joined(chunks[..k]) + Joined(chunks[k..])
    decreases k
  {
    if k > 0 {
      JoinedPrefix(chunks[1..], k - 1);
      assert chunks[..k][1..] == chunks[1..][..k - 1] && chunks[1..][k - 1..] == chunks[k..];
    } else {
      assert chunks[0..] == chunks;
    }
  }

  function DataOf(injected: seq<M.Injection>): (d: seq<Data>)
    ensures |d| == |injected|
  {
    seq(|injected|, i requires 0 <= i < |injected| => injected[i].message.data)
  }

  /** What a read adds to the injected messages is all of one flow and one destination; put together they are the
      read, or what of it was tried when a chunk was refused. */
  lemma ReadIsInjected(m: M.Mesh, entries: Entries, tunnels: set<Node>, s: M.State, node: Node, r: F.Routing,
                       flowId: nat, dest: Node, read: Data, hops: seq<Option<Node>>, ok: bool) returns (s': M.State)
    requires m.link.Valid() && M.LinksOk(m, s) && Represents(s, node, r.egress) && Permits(m, entries, node, tunnels)
    requires flowId < U32 && H.ValidUtf8(dest.name) && |dest.name| <= 255
    requires StopsAtRefusal(hops, |Chunks(read, MAX_RELAY_DATA)|, ok)
    requires forall i :: 0 <= i < |hops| ==> ChosenFor(entries, node, tunnels, dest, hops[i])
    ensures MayLead(m, s, s') && M.LinksOk(m, s') && SameReceivers(s, s')
    ensures Represents(s', node, SentAll(m.link.code, m.link.cfg, r, flowId, dest, Chunks(read, MAX_RELAY_DATA),
                                         hops).egress)
    ensures |s.injected| <= |s'.injected| && s'.injected[..|s.injected|] == s.injected
    ensures forall i :: |s.injected| <= i < |s'.injected| ==>
      && s'.injected[i].src == node && s'.injected[i].message.dest == dest && s'.injected[i].message.flowId == flowId
      && 0 < |s'.injected[i].message.data| <= 1400
      && (i + 1 < |s'.injected| ==> |s'.injected[i].message.data| == 1400)
    ensures Joined(DataOf(s'.injected[|s.injected|..])) <= read
    ensures ok ==> Joined(DataOf(s'.injected[|s.injected|..])) == read
  {
    hide M.LinksOk, MayLead, Represents, Permits, SameReceivers, ChosenFor, H.ValidUtf8, SentAll, Chunks;
    var chunks := Chunks(read, MAX_RELAY_DATA);
    s' := SendingIsMeshRun(m, entries, tunnels, s, node, r, flowId, dest, chunks, hops);
    ChunksJoin(read, MAX_RELAY_DATA);
    JoinedPrefix(chunks, |hops|);
    assert DataOf(s'.injected[|s.injected|..]) == chunks[..|hops|];
    if ok {
      assert chunks[..|hops|] == chunks;
    }
  }

  /** Every message a read is cut into can be delivered where the routers' answers lead exactly when the read and the
      destination's name have at most 1386 bytes together. */
  lemma ReadDeliverableExactly(m: M.Mesh, answer: (Node, Node) -> Node, states: seq<M.State>, src: Node, flowId: nat,
                               dest: Node, read: Data, n: nat)
    requires m.link.Valid() && M.IsRun(m, states) && read != [] && flowId < U32 && H.ValidUtf8(dest.name)
    requires |dest.name| <= 255 && n >= 1 && LeadsTo(m, answer, src, dest, n)
    ensures var s := states[|states| - 1];
            (forall c :: c in Chunks(read, MAX_RELAY_DATA) ==>
               exists s' :: MayLead(m, s, s') && NewlyDelivered(s, s', H.Relayed(flowId, dest, c))) <==>
              |dest.name| + |read| <= 1386
  {
    hide MayLead, LeadsTo, H.ValidUtf8, Chunks, NewlyDelivered;
    forall c: Data | c in Chunks(read, MAX_RELAY_DATA)
      ensures var s := states[|states| - 1];
              (exists s' :: MayLead(m, s, s') && NewlyDelivered(s, s', H.Relayed(flowId, dest, c))) <==>
                Carried(H.Encode(H.Relayed(flowId, dest, c)))
    {
      DeliverableExactly(m, answer, states, src, H.Relayed(flowId, dest, c), n);
    }
    ReadSurvives(flowId, dest, read);
  }
}
