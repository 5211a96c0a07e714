/** How large a message the mesh can deliver, in any run at all: nothing grows on the way, so what is too large to
    be carried is never delivered. */
module Sizes {
  import opened Bytes
  import opened ErasureCode
  import opened FecCodec
  import opened FecBlocks
  import opened Mesh
  import Wire
  import H = RelayHeader
  import R = FecRuns
  import W = FecWraps

  /** The longest shard that fits in a frame behind its header. */
  const MAX_SHARD: nat := Wire.MAX_PAYLOAD - SHARD_HEADER_SIZE

  // ----- reconstruction does not lengthen -----

  ghost predicate Bounded(link: R.Link, p: Pending) {
    && p.dataShards == link.cfg.dataShards && p.parityShards == link.cfg.parityShards
    && |p.shards| == link.cfg.dataShards + link.cfg.parityShards
    && forall i :: 0 <= i < |p.shards| && p.shards[i].Some? ==> |p.shards[i].value| <= MAX_SHARD
  }

  ghost predicate AllBounded(link: R.Link, pending: map<nat, Pending>) {
    forall b :: b in pending ==> Bounded(link, pending[b])
  }

  ghost predicate AllCarried(payloads: seq<Data>) {
    forall i :: 0 <= i < |payloads| ==> Wire.Carried(payloads[i])
  }

  lemma {:induction false} UnpackShort(shards: seq<Data>)
    requires forall i :: 0 <= i < |shards| ==> |shards[i]| <= MAX_SHARD
    ensures AllCarried(Unpack(shards))
    decreases |shards|
  {
    if shards != [] {
      UnpackShort(shards[..|shards| - 1]);
    }
  }

  /** Whatever the shards are, a payload longer than its shard is dropped. */
  lemma ReconstructedShort(link: R.Link, p: Pending, i: nat)
    requires link.Valid() && Bounded(link, p) && i < |p.shards| && p.shards[i].Some?
    ensures Reconstructed(link.code, p).Payloads? ==> AllCarried(Reconstructed(link.code, p).list)
  {
    hide AllCarried, Unpack;
    assert SizeLaw(link.code, p.dataShards, p.parityShards, p.shards);
    var w := link.code.rebuild(p.dataShards, p.parityShards, p.shards);
    if w.Some? && |w.value| >= p.dataShards {
      UnpackShort(w.value[..p.dataShards]);
    }
  }

  lemma InsertedBounded(link: R.Link, p: Pending, i: nat, shard: Data)
    requires Bounded(link, p) && i < |p.shards| && |shard| <= MAX_SHARD
    ensures Bounded(link, Inserted(p, i, shard)) && i < |Inserted(p, i, shard).shards|
    ensures Inserted(p, i, shard).shards[i].Some?
  {
  }

  lemma AcceptBounded(link: R.Link, pending: map<nat, Pending>, key: nat, i: nat, shard: Data, now: Nanos)
    requires link.Valid() && AllBounded(link, pending) && |shard| <= MAX_SHARD
    requires i < link.cfg.dataShards + link.cfg.parityShards
    ensures var cfg := link.cfg;
            var (pending', o) := Accept(link.code, pending, key, i, cfg.dataShards, cfg.parityShards, shard, now);
            AllBounded(link, pending') && (o.Payloads? ==> AllCarried(o.list))
  {
    var blank := NewPending(link.cfg.dataShards, link.cfg.parityShards, now);
    assert Bounded(link, blank);
    var p := if key in pending then pending[key] else blank;
    InsertedBounded(link, p, i, shard);
    hide Inserted, Reconstructed, NewPending, AllCarried;
    ReconstructedShort(link, Inserted(p, i, shard), i);
  }

  /** Every shard of a block that passes fits in a frame. */
  lemma ShardFits(link: R.Link, payloads: seq<Data>, i: nat)
    requires link.Valid() && |payloads| <= link.cfg.dataShards && Wire.Passes(payloads)
    requires i < link.cfg.dataShards + link.cfg.parityShards
    ensures i < |BlockWord(link.code, link.cfg, payloads)| && |BlockWord(link.code, link.cfg, payloads)[i]| <= MAX_SHARD
  {
    hide BlockWord;
    BlockWordShape(link.code, link.cfg, payloads);
    Wire.ShardLenIsLongest(payloads, MAX_SHARD - 2);
  }

  lemma WireStepBounded(link: R.Link, batches: seq<seq<Data>>, rx: R.Rx, c: R.Event, t: Tunnel)
    requires link.Valid() && link.Batches(batches) && link.Enabled(batches, c) && AllBounded(link, rx.pending)
    requires c.Deliver? ==> Wire.Passes(batches[c.b])
    ensures var rx' := W.WireStep(link, batches, rx, c);
            AllBounded(link, rx'.pending) && ArriveCarried(NewArrivals(t, rx, rx'))
  {
    hide Accept, BlockWord, BlockFrames, Receive, Bounded, Wire.Passes, Wire.Carried;
    match c
    case Deliver(b, i) =>
      FrameIsAccepted(link.code, link.cfg, b % U16, batches[b], i, rx.pending, rx.now);
      ShardFits(link, batches[b], i);
      AcceptBounded(link, rx.pending, b % U16, i, BlockWord(link.code, link.cfg, batches[b])[i], rx.now);
    case Tick(_) =>
    case Expire =>
  }

  // ----- every run -----

  ghost predicate ArriveCarried(arrived: seq<Arrival>) {
    forall i :: 0 <= i < |arrived| ==> Wire.Carried(arrived[i].payload)
  }

  /** Small enough to be carried with a header in front. */
  predicate Fits(d: Delivered) {
    |d.node.name| + |d.local.data| <= 1386
  }

  ghost predicate SizesOk(m: Mesh, s: State) {
    && (forall t :: t in s.links ==> AllBounded(m.link, s.links[t].rx.pending))
    && ArriveCarried(s.arrivals)
    && (forall j :: 0 <= j < |s.delivered| ==> Fits(s.delivered[j]))
  }

  lemma ForwardKeepsSizes(m: Mesh, s: State, u: Node, hop: Option<Node>, p: Data)
    requires SizesOk(m, s)
    ensures SizesOk(m, Forwarded(m.link.cfg, s, u, hop, p))
  {
    hide AllBounded, ArriveCarried, Submitted;
  }

  lemma RouteKeepsSizes(m: Mesh, s: State, j: nat, hop: Option<Node>)
    requires SizesOk(m, s) && j < |s.arrivals|
    ensures SizesOk(m, Routed(m.link.cfg, s.(arrivals := s.arrivals[..j] + s.arrivals[j + 1..]), s.arrivals[j], hop))
  {
    var a, s' := s.arrivals[j], s.(arrivals := s.arrivals[..j] + s.arrivals[j + 1..]);
    assert Wire.Carried(a.payload) && SizesOk(m, s');
    ForwardKeepsSizes(m, s', a.node, hop, a.payload);
    hide AllBounded, ArriveCarried, Forwarded;
    if H.Decode(a.payload).Some? {
      H.EncodeOfDecode(a.payload);
      EncodedSize(H.Decode(a.payload).value);
    }
  }

  lemma EncodedSize(r: H.Relayed)
    requires |r.dest.name| <= 255
    ensures |H.Encode(r)| == 5 + |r.dest.name| + |r.data|
  {
  }

  lemma ApplyKeepsSizes(m: Mesh, s: State, e: Event)
    requires m.link.Valid() && LinksOk(m, s) && Enabled(m, s, e) && SizesOk(m, s)
    ensures SizesOk(m, Apply(m, s, e))
  {
    hide AllBounded, Forwarded, Routed, NewArrivals, W.WireStep, Wire.Passes, Wire.Carried, Submitted, Flushed;
    match e
    case Inject(src, message, hop) =>
      ForwardKeepsSizes(m, s.(injected := s.injected + [Injection(src, message)]), src, hop, H.Encode(message));
    case FlushTimer(t) =>
    case Channel(t, c) =>
      assert LinkOk(m, s.links[t]);
      WireStepBounded(m.link, s.links[t].batches, s.links[t].rx, c, t);
    case Route(j, hop) => RouteKeepsSizes(m, s, j, hop);
  }

  lemma NextKeepsSizes(m: Mesh, s: State, s': State)
    requires Next(m, s, s') && SizesOk(m, s)
    ensures SizesOk(m, s') && LinksOk(m, s')
  {
    hide Apply, Enabled, LinksOk, SizesOk;
    var e :| Enabled(m, s, e) && s' == Apply(m, s, e);
    ApplyKeepsSizes(m, s, e);
    ApplyKeepsLinks(m, s, e);
  }

  /** No run, clean or not, delivers more than 1386 bytes of data and name. */
  lemma {:induction false} RunKeepsSizes(m: Mesh, states: seq<State>)
    requires m.link.Valid() && IsRun(m, states)
    ensures SizesOk(m, states[|states| - 1])
    decreases |states|
  {
    hide Next, SizesOk;
    if |states| == 1 {
      assert SizesOk(m, Initial(m)) by { InitialSizes(m); }
    } else {
      RunKeepsSizes(m, states[..|states| - 1]);
      NextKeepsSizes(m, states[|states| - 2], states[|states| - 1]);
    }
  }

  lemma InitialSizes(m: Mesh)
    ensures SizesOk(m, Initial(m))
  {
  }
}
