/** From any state of the mesh, a message can still be delivered wherever the routers' answers lead it, exactly when
    it is small enough to be carried: the flush timers and a few shards getting through each link are enough. */
module Progress {
  import opened Answers
  import opened Bytes
  import opened Graph
  import opened FecCodec
  import opened FecBlocks
  import opened Matrix
  import opened Mesh
  import opened Router
  import opened Sizes
  import FreeRings
  import Wire
  import D = Delivery
  import H = RelayHeader
  import P = Probing
  import R = FecRuns
  import W = FecWraps

  // ----- sequences of steps -----

  ghost predicate Leads(m: Mesh, s: State, s': State, n: nat)
    decreases n
  {
    if n == 0 then s == s' else exists mid :: Leads(m, s, mid, n - 1) && Next(m, mid, s')
  }

  /** Some steps lead from `s` to `s'`. */
  ghost predicate MayLead(m: Mesh, s: State, s': State) {
    exists n: nat :: Leads(m, s, s', n)
  }

  lemma {:induction false} LeadsTransitive(m: Mesh, a: State, b: State, c: State, i: nat, j: nat)
    requires Leads(m, a, b, i) && Leads(m, b, c, j)
    ensures Leads(m, a, c, i + j)
    decreases j
  {
    hide Next;
    if j > 0 {
      var mid :| Leads(m, b, mid, j - 1) && Next(m, mid, c);
      LeadsTransitive(m, a, b, mid, i, j - 1);
    }
  }

  lemma MayLeadTransitive(m: Mesh, a: State, b: State, c: State)
    requires MayLead(m, a, b) && MayLead(m, b, c)
    ensures MayLead(m, a, c)
  {
    hide Leads;
    var i: nat :| Leads(m, a, b, i);
    var j: nat :| Leads(m, b, c, j);
    LeadsTransitive(m, a, b, c, i, j);
  }

  lemma StaysPut(m: Mesh, s: State)
    ensures MayLead(m, s, s)
  {
    assert Leads(m, s, s, 0);
  }

  lemma OneStep(m: Mesh, s: State, e: Event)
    requires m.link.Valid() && LinksOk(m, s) && Enabled(m, s, e)
    ensures MayLead(m, s, Apply(m, s, e)) && LinksOk(m, Apply(m, s, e))
  {
    hide Apply, LinksOk;
    ApplyKeepsLinks(m, s, e);
    assert Next(m, s, Apply(m, s, e));
    assert Leads(m, s, s, 0);
    assert Leads(m, s, Apply(m, s, e), 1);
  }

  lemma {:induction false} LeadsKeepsSizes(m: Mesh, s: State, s': State, n: nat)
    requires SizesOk(m, s) && Leads(m, s, s', n)
    ensures SizesOk(m, s')
    decreases n
  {
    hide SizesOk, Next;
    if n > 0 {
      var mid :| Leads(m, s, mid, n - 1) && Next(m, mid, s');
      LeadsKeepsSizes(m, s, mid, n - 1);
      NextKeepsSizes(m, mid, s');
    }
  }

  /** Steps that only concern link `t`: nothing is injected or delivered on the way, and clean stays clean. */
  ghost predicate OnLink(m: Mesh, s: State, s': State, t: Tunnel) {
    && MayLead(m, s, s') && LinksOk(m, s') && t in s'.links
    && s'.injected == s.injected && s'.delivered == s.delivered && (Clean(m, s) ==> Clean(m, s'))
  }

  lemma OnLinkTransitive(m: Mesh, a: State, b: State, c: State, t: Tunnel)
    requires OnLink(m, a, b, t) && OnLink(m, b, c, t)
    ensures OnLink(m, a, c, t)
  {
    hide MayLead, LinksOk, Clean;
    MayLeadTransitive(m, a, b, c);
  }

  lemma LinkIsOk(m: Mesh, s: State, t: Tunnel)
    requires LinksOk(m, s) && t in s.links
    ensures LinkOk(m, s.links[t])
  {
  }

  // ----- one link -----

  /** The link holds nothing but the first `k` shards of block `b`. */
  ghost predicate Collecting(m: Mesh, l: LinkState, b: nat, k: nat)
    requires m.link.Valid()
  {
    && LinkOk(m, l) && W.Alike(Ideal(m, l), l.rx) && W.Rested(l.heard, b)
    && Ideal(m, l).pending.Keys <= {b} && R.Held(Ideal(m, l), b) == Below(k)
  }

  /** One shard more of an absent or half-filled block, for both receivers. */
  lemma ShardCollects(link: R.Link, batches: seq<seq<Data>>, ideal: R.Rx, rx: R.Rx, t: Tunnel, b: nat, k: nat)
    requires link.Valid() && link.Batches(batches) && link.Enabled(batches, R.Deliver(b, k)) && k < link.cfg.dataShards
    requires R.Unmixed(link, batches, ideal) && W.Alike(ideal, rx)
    requires ideal.pending.Keys <= {b} && R.Held(ideal, b) == Below(k)
    ensures var (next, rx') := (R.Step(link, batches, ideal, R.Deliver(b, k)),
                                W.WireStep(link, batches, rx, R.Deliver(b, k)));
            if k + 1 < link.cfg.dataShards then
              W.Alike(next, rx') && next.pending.Keys <= {b} && R.Held(next, b) == Below(k + 1)
              && NewArrivals(t, rx, rx') == []
            else NewArrivals(t, rx, rx') == ArrivalsOf(t, Payloads(KeptAll(batches[b])))
  {
    hide R.Step, R.Unmixed, ArrivalsOf, KeptAll, Collects, W.Alike, W.WireStep;
    var e := R.Deliver(b, k);
    var gain := W.WireStepAlike(link, batches, ideal, rx, e);
    R.DeliverEffect(link, batches, ideal, b, k);
    assert gain == (ideal.outputs + gain)[|ideal.outputs|..];
    assert Below(k + 1) == Below(k) + {k};
    var next := R.Step(link, batches, ideal, e);
    assert (next.pending - {b}).Keys == (ideal.pending - {b}).Keys == {};
  }

  /** One shard more; the n-th hands over the whole block. */
  lemma NextShard(m: Mesh, t: Tunnel, l: LinkState, b: nat, k: nat)
    requires m.link.Valid() && Collecting(m, l, b, k) && b < |l.batches| && k < m.link.cfg.dataShards
    ensures W.CleanGaps(l.heard) ==> W.CleanGaps(Moved(m, l, R.Deliver(b, k)).heard)
    ensures var l' := Moved(m, l, R.Deliver(b, k));
            if k + 1 < m.link.cfg.dataShards then Collecting(m, l', b, k + 1) && NewArrivals(t, l.rx, l'.rx) == []
            else NewArrivals(t, l.rx, l'.rx) == ArrivalsOf(t, Payloads(KeptAll(l.batches[b])))
  {
    hide R.Step, R.Unmixed, ArrivalsOf, NewArrivals, KeptAll, W.Alike, W.Rested, W.CleanGaps, W.WireStep, R.Held;
    hide Ideal, LinkOk;
    assert m.link.Batches(l.batches) by { BatchesOk(m, l); }
    IdealMoves(m, l, R.Deliver(b, k));
    W.RestedStaysClean(l.heard, b, k);
    ShardCollects(m.link, l.batches, Ideal(m, l), l.rx, t, b, k);
  }

  lemma BatchesOk(m: Mesh, l: LinkState)
    requires LinkOk(m, l)
    ensures m.link.Batches(l.batches)
  {
  }

  /** The first `k` shards of block `b`, all of the link's traffic, get through. */
  lemma {:induction false} ShardsGetThrough(m: Mesh, s: State, t: Tunnel, b: nat, k: nat) returns (s': State)
    requires m.link.Valid() && LinksOk(m, s) && t in s.links && Collecting(m, s.links[t], b, 0)
    requires b < |s.links[t].batches| && Wire.Passes(s.links[t].batches[b]) && k < m.link.cfg.dataShards
    ensures OnLink(m, s, s', t) && s'.arrivals == s.arrivals
    ensures s'.links[t].batches == s.links[t].batches && Collecting(m, s'.links[t], b, k)
    decreases k
  {
    hide LinksOk, MayLead, Collecting, Wire.Passes, NewArrivals;
    if k == 0 {
      s' := s;
      StaysPut(m, s);
    } else {
      var mid := ShardsGetThrough(m, s, t, b, k - 1);
      s' := OneShard(m, mid, t, b, k - 1);
      OnLinkTransitive(m, s, mid, s', t);
    }
  }

  lemma OneShard(m: Mesh, s: State, t: Tunnel, b: nat, k: nat) returns (s': State)
    requires m.link.Valid() && LinksOk(m, s) && t in s.links && Collecting(m, s.links[t], b, k)
    requires b < |s.links[t].batches| && Wire.Passes(s.links[t].batches[b]) && k < m.link.cfg.dataShards
    ensures OnLink(m, s, s', t) && s'.links[t].batches == s.links[t].batches
    ensures k + 1 < m.link.cfg.dataShards ==> Collecting(m, s'.links[t], b, k + 1) && s'.arrivals == s.arrivals
    ensures k + 1 == m.link.cfg.dataShards ==>
      s'.arrivals == s.arrivals + ArrivalsOf(t, Payloads(KeptAll(s.links[t].batches[b])))
  {
    hide LinksOk, MayLead, Collecting, Wire.Passes, NewArrivals, W.WireStep, KeptAll, ArrivalsOf, W.CleanGaps;
    var e := Channel(t, R.Deliver(b, k));
    LinkIsOk(m, s, t);
    NextShard(m, t, s.links[t], b, k);
    OneStep(m, s, e);
    s' := Apply(m, s, e);
    assert s.arrivals + [] == s.arrivals;
  }

  /** 500 ms later the flush timer clears whatever the link's receiver held. */
  lemma LinkDrains(m: Mesh, s: State, t: Tunnel, b: nat) returns (s': State)
    requires m.link.Valid() && LinksOk(m, s) && t in s.links
    ensures OnLink(m, s, s', t) && s'.arrivals == s.arrivals
    ensures s'.links[t].batches == s.links[t].batches && Collecting(m, s'.links[t], b, 0)
  {
    hide LinksOk, MayLead, Collecting, Moved, W.CleanGaps;
    var wait := Channel(t, R.Tick(500_000_000));
    MovedByTimer(m, s, t);
    OneStep(m, s, wait);
    var mid := Apply(m, s, wait);
    MovedByTimer(m, mid, t);
    OneStep(m, mid, Channel(t, R.Expire));
    s' := Apply(m, mid, Channel(t, R.Expire));
    MayLeadTransitive(m, s, mid, s');
    LinkIsOk(m, s, t);
    Drained(m, s.links[t], b);
    assert s.arrivals + [] == s.arrivals;
  }

  lemma MovedByTimer(m: Mesh, s: State, t: Tunnel)
    requires m.link.Valid() && LinksOk(m, s) && t in s.links
    ensures forall c: R.Event :: !c.Deliver? ==>
      Moved(m, s.links[t], c).batches == s.links[t].batches
      && NewArrivals(t, s.links[t].rx, Moved(m, s.links[t], c).rx) == []
  {
    LinkIsOk(m, s, t);
  }

  lemma Drained(m: Mesh, l: LinkState, b: nat)
    requires m.link.Valid() && LinkOk(m, l)
    ensures var l' := Moved(m, Moved(m, l, R.Tick(500_000_000)), R.Expire);
            Collecting(m, l', b, 0) && (W.CleanGaps(l.heard) ==> W.CleanGaps(l'.heard))
  {
    hide Ideal, W.CleanGaps, W.Rested, R.Run, R.Elapsed;
    var mid := Moved(m, l, R.Tick(500_000_000));
    var l' := Moved(m, mid, R.Expire);
    IdealMoves(m, l, R.Tick(500_000_000));
    IdealMoves(m, mid, R.Expire);
    W.WaitingRests(l.heard, b);
    IdealClock(m, l);
    assert Ideal(m, l').pending == map[] && l'.rx.pending == map[];
    assert Below(0) == {};
  }

  lemma IdealClock(m: Mesh, l: LinkState)
    requires m.link.Valid() && LinkOk(m, l)
    ensures Ideal(m, l).now == l.rx.now
  {
    W.PendingIsRecent(m.link, l.batches, l.heard, 0);
  }

  /** Flushing empties a sender's buffer. */
  lemma SenderEmpties(m: Mesh, s: State, t: Tunnel) returns (s': State)
    requires m.link.Valid() && LinksOk(m, s) && t in s.links
    ensures OnLink(m, s, s', t) && s'.arrivals == s.arrivals && s'.links[t].sending.buffer == []
    ensures s'.links[t].batches == if s.links[t].sending.buffer == [] then s.links[t].batches
                                   else s.links[t].batches + [s.links[t].sending.buffer]
  {
    hide LinksOk, MayLead, W.CleanGaps;
    OneStep(m, s, FlushTimer(t));
    s' := Apply(m, s, FlushTimer(t));
  }

  /** A payload handed to an empty sender gets through alone, if it is neither empty nor too long. */
  lemma PayloadGetsThrough(m: Mesh, s: State, t: Tunnel, p: Data) returns (s': State)
    requires m.link.Valid() && LinksOk(m, s) && t in s.links && s.links[t].sending.buffer == []
    requires p != [] && Wire.Carried(p)
    ensures OnLink(m, Forwarded(m.link.cfg, s, t.0, Some(t.1), p), s', t) && (Clean(m, s) ==> Clean(m, s'))
    ensures s'.arrivals == s.arrivals + [Arrival(t.1, t.0, p)]
  {
    ForwardStaysClean(m, s, t.0, Some(t.1), p);
    hide LinksOk, MayLead, Collecting, Clean;
    var s1 := Forwarded(m.link.cfg, s, t.0, Some(t.1), p);
    ForwardKeepsLinks(m, s, t.0, Some(t.1), p);
    var b := |s.links[t].batches|;
    ForwardedAlone(m.link.cfg, s, t, p);
    hide Forwarded, KeptAll, ArrivalsOf;
    var s2 := SenderEmpties(m, s1, t);
    assert s2.links[t].batches == s.links[t].batches + [[p]];
    var s3 := LinkDrains(m, s2, t, b);
    var s4 := ShardsGetThrough(m, s3, t, b, m.link.cfg.dataShards - 1);
    s' := OneShard(m, s4, t, b, m.link.cfg.dataShards - 1);
    KeptAlone(p);
    AloneArrives(t, p);
    OnLinkTransitive(m, s1, s2, s3, t);
    OnLinkTransitive(m, s1, s3, s4, t);
    OnLinkTransitive(m, s1, s4, s', t);
  }

  /** Handed to an empty sender, the payload is all that its next block will hold. */
  lemma ForwardedAlone(cfg: FecConfig, s: State, t: Tunnel, p: Data)
    requires t in s.links && s.links[t].sending.buffer == []
    ensures var (s1, before) := (Forwarded(cfg, s, t.0, Some(t.1), p), s.links[t].batches);
            && t in s1.links && s1.injected == s.injected && s1.delivered == s.delivered && s1.arrivals == s.arrivals
            && if s1.links[t].sending.buffer == [] then s1.links[t].batches == before + [[p]]
               else s1.links[t].sending.buffer == [p] && s1.links[t].batches == before
  {
    assert t == (t.0, t.1);
    assert s.links[t].sending.buffer + [p] == [p];
  }

  lemma ForwardStaysClean(m: Mesh, s: State, u: Node, hop: Option<Node>, p: Data)
    ensures Clean(m, s) ==> Clean(m, Forwarded(m.link.cfg, s, u, hop, p))
  {
    hide W.CleanGaps, Submitted;
  }

  lemma AloneArrives(t: Tunnel, p: Data)
    ensures ArrivalsOf(t, Payloads([p])) == [Arrival(t.1, t.0, p)]
  {
  }

  lemma KeptAlone(p: Data)
    requires p != [] && Wire.Carried(p)
    ensures KeptAll([p]) == [p]
  {
    KeptAllExact([p]);
  }

  // ----- delivery -----

  /** Between `s` and `s'` the message was delivered once more. */
  ghost predicate NewlyDelivered(s: State, s': State, message: H.Relayed) {
    exists j ::
      && |s.delivered| <= j < |s'.delivered|
      && message == H.Relayed(s'.delivered[j].local.flowId, s'.delivered[j].node, s'.delivered[j].local.data)
  }

  /** Following `answer` from `u`, by tunnels and hops the routers may choose, leads to `dest` in `n` hops. */
  ghost predicate LeadsTo(m: Mesh, answer: (Node, Node) -> Node, u: Node, dest: Node, n: nat)
    decreases n
  {
    if n == 0 then u == dest
    else HopOk(m, u, dest, Some(answer(u, dest))) && LeadsTo(m, answer, answer(u, dest), dest, n - 1)
  }

  /** A payload that has arrived where its routers' answers lead on to its destination can be delivered, by those
      answers alone. */
  lemma {:induction false} ArrivalCanBeDelivered(m: Mesh, answer: (Node, Node) -> Node, s: State, j: nat, n: nat)
    returns (s': State)
    requires m.link.Valid() && LinksOk(m, s)
    requires j < |s.arrivals| && Wire.Carried(s.arrivals[j].payload) && H.Decode(s.arrivals[j].payload).Some?
    requires LeadsTo(m, answer, s.arrivals[j].node, H.Decode(s.arrivals[j].payload).value.dest, n)
    ensures MayLead(m, s, s') && NewlyDelivered(s, s', H.Decode(s.arrivals[j].payload).value)
    ensures Clean(m, s) ==> Clean(m, s')
    decreases n
  {
    hide LinksOk, MayLead, HopOk, Wire.Carried, H.Decode, Clean;
    var a := s.arrivals[j];
    var r := H.Decode(a.payload).value;
    if n == 0 {
      s' := DeliverHere(m, s, j);
    } else {
      HopHasLink(m, s, a.node, r.dest, answer(a.node, r.dest));
      var mid := ForwardThrough(m, s, j, answer(a.node, r.dest));
      s' := ArrivalCanBeDelivered(m, answer, mid, |mid.arrivals| - 1, n - 1);
      MayLeadTransitive(m, s, mid, s');
    }
  }

  lemma HopHasLink(m: Mesh, s: State, u: Node, dest: Node, v: Node)
    requires LinksOk(m, s) && HopOk(m, u, dest, Some(v))
    ensures (u, v) in s.links && u != dest
  {
  }

  lemma DeliverHere(m: Mesh, s: State, j: nat) returns (s': State)
    requires m.link.Valid() && LinksOk(m, s) && j < |s.arrivals| && H.Decode(s.arrivals[j].payload).Some?
    requires H.Decode(s.arrivals[j].payload).value.dest == s.arrivals[j].node
    ensures MayLead(m, s, s') && NewlyDelivered(s, s', H.Decode(s.arrivals[j].payload).value)
    ensures Clean(m, s) ==> Clean(m, s')
  {
    hide LinksOk, MayLead, H.Decode, W.CleanGaps;
    OneStep(m, s, Route(j, None));
    s' := Apply(m, s, Route(j, None));
    var a, r := s.arrivals[j], H.Decode(s.arrivals[j].payload).value;
    assert s'.delivered[|s.delivered|] == Delivered(r.dest, H.LocalDelivery(r.flowId, r.data, a.from));
  }

  /** Before the payload is handed over, its link's sender is flushed, so that it shares its block with nothing. */
  lemma ForwardThrough(m: Mesh, s: State, j: nat, v: Node) returns (s': State)
    requires m.link.Valid() && LinksOk(m, s) && j < |s.arrivals| && Wire.Carried(s.arrivals[j].payload)
    requires H.Decode(s.arrivals[j].payload).Some? && H.Decode(s.arrivals[j].payload).value.dest != s.arrivals[j].node
    requires HopOk(m, s.arrivals[j].node, H.Decode(s.arrivals[j].payload).value.dest, Some(v))
    requires (s.arrivals[j].node, v) in s.links
    ensures MayLead(m, s, s') && LinksOk(m, s') && s'.delivered == s.delivered && (Clean(m, s) ==> Clean(m, s'))
    ensures |s'.arrivals| > 0
    ensures s'.arrivals[|s'.arrivals| - 1] == Arrival(v, s.arrivals[j].node, s.arrivals[j].payload)
  {
    hide LinksOk, MayLead, HopOk, Wire.Carried, H.Decode, W.CleanGaps;
    var a, t := s.arrivals[j], (s.arrivals[j].node, v);
    DecodedIsLong(a.payload);
    var s1 := SenderEmpties(m, s, t);
    OneStep(m, s1, Route(j, Some(v)));
    var s2 := s1.(arrivals := s1.arrivals[..j] + s1.arrivals[j + 1..]);
    var s3 := Apply(m, s1, Route(j, Some(v)));
    assert s3 == Forwarded(m.link.cfg, s2, a.node, Some(v), a.payload);
    SameLinks(m, s1, s2);
    s' := PayloadGetsThrough(m, s2, t, a.payload);
    MayLeadTransitive(m, s, s1, s3);
    MayLeadTransitive(m, s, s3, s');
  }

  lemma SameLinks(m: Mesh, s: State, s': State)
    requires LinksOk(m, s) && s'.links == s.links
    ensures LinksOk(m, s')
  {
  }

  lemma DecodedIsLong(p: Data)
    requires H.Decode(p).Some?
    ensures p != []
  {
  }

  /** From any state with well-formed links, so from any reachable one, a small enough message can be injected and
      delivered wherever the routers' answers lead it. */
  lemma InjectionCanBeDelivered(m: Mesh, answer: (Node, Node) -> Node, s: State, src: Node, message: H.Relayed, n: nat)
    returns (s': State)
    requires m.link.Valid() && LinksOk(m, s) && Injectable(message) && |message.dest.name| + |message.data| <= 1386
    requires n >= 1 && LeadsTo(m, answer, src, message.dest, n)
    ensures MayLead(m, s, s') && NewlyDelivered(s, s', message) && (Clean(m, s) ==> Clean(m, s'))
  {
    hide LinksOk, MayLead, HopOk, H.Decode, H.Encode, Forwarded, W.CleanGaps;
    var v := answer(src, message.dest);
    HopHasLink(m, s, src, message.dest, v);
    EncodedSize(message);
    H.DecodeOfEncode(message);
    var t, p := (src, v), H.Encode(message);
    var s1 := SenderEmpties(m, s, t);
    var e := Inject(src, message, Some(v));
    OneStep(m, s1, e);
    var s2 := s1.(injected := s1.injected + [Injection(src, message)]);
    SameLinks(m, s1, s2);
    var s3 := PayloadGetsThrough(m, s2, t, p);
    MayLeadTransitive(m, s, s1, Apply(m, s1, e));
    MayLeadTransitive(m, s, Apply(m, s1, e), s3);
    ForwardDelivers(m.link.cfg, s2, src, Some(v), p);
    s' := ArrivalCanBeDelivered(m, answer, s3, |s3.arrivals| - 1, n - 1);
    MayLeadTransitive(m, s, s3, s');
  }

  lemma ForwardDelivers(cfg: FecConfig, s: State, u: Node, hop: Option<Node>, p: Data)
    ensures Forwarded(cfg, s, u, hop, p).delivered == s.delivered
  {
  }

  /** And no run delivers a larger one: where the routers' answers lead a message, it is deliverable exactly when its
      data and the destination's name have at most 1386 bytes together. */
  lemma DeliverableExactly(m: Mesh, answer: (Node, Node) -> Node, states: seq<State>, src: Node, message: H.Relayed,
                           n: nat)
    requires m.link.Valid() && IsRun(m, states) && Injectable(message)
    requires n >= 1 && LeadsTo(m, answer, src, message.dest, n)
    ensures var s := states[|states| - 1];
            (exists s' :: MayLead(m, s, s') && NewlyDelivered(s, s', message)) <==>
              |message.dest.name| + |message.data| <= 1386
  {
    hide MayLead, LinksOk, Injectable, LeadsTo, SizesOk;
    var s := states[|states| - 1];
    RunKeepsLinks(m, states);
    RunKeepsSizes(m, states);
    if |message.dest.name| + |message.data| <= 1386 {
      var s' := InjectionCanBeDelivered(m, answer, s, src, message, n);
    }
    if s' :| MayLead(m, s, s') && NewlyDelivered(s, s', message) {
      DeliveredFits(m, s, s', message);
    }
  }

  lemma DeliveredFits(m: Mesh, s: State, s': State, message: H.Relayed)
    requires SizesOk(m, s) && MayLead(m, s, s') && NewlyDelivered(s, s', message)
    ensures |message.dest.name| + |message.data| <= 1386
  {
    var n: nat :| Leads(m, s, s', n);
    LeadsKeepsSizes(m, s, s', n);
  }

  // ----- where the routers' answers lead -----

  /** Routers that go by the same matrix, each with some answer of a search over it, and a tunnel along every
      edge. */
  ghost predicate Settled(m: Mesh, entries: Entries, answer: (Node, Node) -> Node) {
    && entries.Keys <= m.tunnels
    && (forall u, dest {:trigger answer(u, dest)} :: u != dest && Reaches(WeightsOf(entries), u, dest) ==>
          MayAnswerHop(entries, u, dest, answer(u, dest)) && m.mayHop(u, dest, answer(u, dest)))
  }

  /** The next hop goes by a tunnel to a node that reaches the destination too. */
  lemma NextAnswer(m: Mesh, entries: Entries, answer: (Node, Node) -> Node, u: Node, dest: Node) returns (v: Node)
    requires Settled(m, entries, answer) && u != dest && Reaches(WeightsOf(entries), u, dest)
    ensures v == answer(u, dest) && HopOk(m, u, dest, Some(v)) && MayAnswerHop(entries, u, dest, v)
    ensures Reaches(WeightsOf(entries), v, dest)
  {
    hide D.MayHop, AnswerHop, MayAnswerHop;
    v := answer(u, dest);
    var g := WeightsOf(entries);
    HopsExactly(entries, u, dest, v);
    D.AnswerMayHop(g, u, dest, v);
    D.MayHopMoves(g, u, dest, v);
    var c: nat :| c < U64_MAX && DistanceIs(g, u, dest, c);
    D.HopProgress(g, u, dest, v, c);
    var p :| IsShortest(g, p, v, dest) && Cost(g, p) == c - g[(u, v)];
    assert Joins(g, p, v, dest);
  }

  lemma {:induction false} AnswersLeadOn(m: Mesh, entries: Entries, answer: (Node, Node) -> Node, dest: Node,
                                         trail: seq<Node>) returns (n: nat)
    requires Settled(m, entries, answer) && FreeRings.Handed(entries, dest, trail)
    requires !FreeRings.HasAnswerRing(WeightsOf(entries), dest)
    requires Reaches(WeightsOf(entries), trail[|trail| - 1], dest)
    ensures LeadsTo(m, answer, trail[|trail| - 1], dest, n)
    decreases |FreeRings.AllNodes(WeightsOf(entries))| + 1 - |trail|
  {
    hide MayAnswerHop, Reaches, FreeRings.HasAnswerRing, FreeRings.AllNodes, Settled, HopOk, WeightsOf;
    var u := trail[|trail| - 1];
    if u == dest {
      n := 0;
    } else {
      var v := NextAnswer(m, entries, answer, u, dest);
      var longer := trail + [v];
      assert longer[..|trail|] == trail;
      FreeRings.TrailIsShort(entries, dest, longer);
      n := AnswersLeadOn(m, entries, answer, dest, longer);
      n := n + 1;
    }
  }

  /** Without an answer ring, so with positive weights, every choice of answers over the same matrix leads from every
      node to every other that it reaches. */
  lemma SameWeightsLead(m: Mesh, entries: Entries, answer: (Node, Node) -> Node, u: Node, dest: Node) returns (n: nat)
    requires Settled(m, entries, answer) && !FreeRings.HasAnswerRing(WeightsOf(entries), dest)
    requires u != dest && Reaches(WeightsOf(entries), u, dest)
    ensures n >= 1 && LeadsTo(m, answer, u, dest, n)
  {
    hide Reaches, FreeRings.HasAnswerRing, Settled, WeightsOf;
    assert FreeRings.Handed(entries, dest, [u]);
    n := AnswersLeadOn(m, entries, answer, dest, [u]);
  }

  /** And over the matrix a node's own probes leave, its answer leads to every peer that it has a route to at once. */
  lemma ProbedPeersLead(m: Mesh, answer: (Node, Node) -> Node, events: seq<P.Event>, u: Node, dest: Node,
                        r: RouteEntry)
    requires |P.Issued(events)| + 1 < U32 && u !in P.Issued(events) && u != dest
    requires IsBestRoute(P.After(u, events).entries, u, dest, r) && r.nextHop == answer(u, dest)
    requires (u, answer(u, dest)) in m.tunnels && m.mayHop(u, dest, answer(u, dest))
    ensures LeadsTo(m, answer, u, dest, 1)
  {
    hide IsBestRoute, P.After;
    P.ProbedRoutesAreDirect(u, events, dest, r);
    assert LeadsTo(m, answer, dest, dest, 0);
  }
}
