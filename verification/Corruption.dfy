/** What a leftover can do: once block ids wrap, a shard left over from one block and a parity shard of another
    rebuild a payload that nobody sent, with a header in order, and it is delivered. */
module Corruption {
  import opened Bytes
  import opened ErasureCode
  import opened FecCodec
  import opened FecBlocks
  import opened Mesh
  import opened Progress
  import opened ReedSolomon
  import GaloisField
  import Wire
  import H = RelayHeader
  import R = FecRuns
  import W = FecWraps

  const SRC := Node([0])
  const DST := Node([1])
  const LINK := (SRC, DST)

  /** A message of one byte. */
  function Message(flow: nat, b: byte): H.Relayed {
    H.Relayed(flow, DST, [b])
  }

  function Head(flow: nat): (d: Data)
    ensures |d| == 6
  {
    Le(flow, 4) + [1, 1]
  }

  lemma MessageBytes(flow: nat, b: byte)
    requires flow < U32
    ensures H.Encode(Message(flow, b)) == Head(flow) + [b]
    ensures H.Decode(Head(flow) + [b]) == Some(Message(flow, b)) && Injectable(Message(flow, b))
  {
    var name: Data := [1];
    assert name[1..] == [] && H.ValidUtf8(name);
    H.DecodeOfEncode(Message(flow, b));
    assert DST.name[..1] == [1];
  }

  // ----- one mixed block -----

  lemma ShardLenOfSevens(ps: seq<Data>)
    requires ps != [] && forall i :: 0 <= i < |ps| ==> |ps[i]| == 7
    ensures ShardLen(ps) == 9
  {
    Wire.ShardLenIsLongest(ps, 7);
  }

  lemma SevenShard(n: nat, ps: seq<Data>, i: nat)
    requires ps != [] && |ps| <= n && i < |ps| && forall j :: 0 <= j < |ps| ==> |ps[j]| == 7
    ensures DataShards(n, ps)[i] == Prefixed(ps[i]) && |Prefixed(ps[i])| == 9
  {
    ShardLenOfSevens(ps);
    assert Prefixed(ps[i])[..9] == Prefixed(ps[i]);
  }

  /** A rebuilt shard with prefix and head in order gives its payload, whatever its last byte. */
  lemma UnpackSeven(s: Data, flow: nat, c: byte)
    requires s == Le(7, 2) + (Head(flow) + [c])
    ensures UnpackOne(s) == [Head(flow) + [c]]
  {
    FieldSizes();
    FromLeOfLe(7, 2);
    assert s[..2] == Le(7, 2);
    assert s[2..9] == Head(flow) + [c];
  }

  lemma {:induction false} UnpackHas(shards: seq<Data>, i: nat, q: Data)
    requires i < |shards| && UnpackOne(shards[i]) == [q]
    ensures q in Unpack(shards)
    decreases |shards|
  {
    if i < |shards| - 1 {
      UnpackHas(shards[..|shards| - 1], i, q);
    }
  }

  /** Blocks of one-byte messages: the leftover block starts with `x`, the later one with `y` and `z`. */
  ghost predicate Staged(link: R.Link, batches: seq<seq<Data>>) {
    && link.code == Code256() && W.Wraps(link, batches)
    && |batches[0]| == |batches[U16]| == link.cfg.dataShards
    && (forall i :: 0 <= i < |batches[0]| ==> |batches[0][i]| == 7)
    && (forall i :: 0 <= i < |batches[U16]| ==> |batches[U16][i]| == 7)
    && batches[0][0] == Head(0) + [0] && batches[U16][0] == Head(0) + [1] && batches[U16][1] == Head(1) + [0]
  }

  lemma StagedSlots(link: R.Link, batches: seq<seq<Data>>, p: Pending)
    requires Staged(link, batches) && W.Mixed(link, batches, p, 2, link.cfg.dataShards)
    ensures var (n, k) := (link.cfg.dataShards, link.cfg.parityShards);
            var (x, y) := (DataShards(n, batches[0]), DataShards(n, batches[U16]));
            && IsBlock(n, x) && IsBlock(n, y) && |x[0]| == |y[0]| == 9
            && TwoBlocks(GaloisField.Gf256(), n, k, x, y, p.shards)
  {
    hide Parity, GaloisField.Gf256, ShardLen;
    var n, k := link.cfg.dataShards, link.cfg.parityShards;
    ShardLenOfSevens(batches[0]);
    ShardLenOfSevens(batches[U16]);
    BlockWordShape(link.code, link.cfg, batches[0]);
    BlockWordShape(link.code, link.cfg, batches[U16]);
    var x, y := DataShards(n, batches[0]), DataShards(n, batches[U16]);
    var w := BlockWord(link.code, link.cfg, batches[0]);
    assert w[0] == w[..n][0];
    assert BlockWord(link.code, link.cfg, batches[U16]) == y + Parity(GaloisField.Gf256(), n, k, y);
  }

  /** Shard 1 is rebuilt with its last byte changed. */
  lemma StagedRebuilds(link: R.Link, batches: seq<seq<Data>>, p: Pending) returns (c: byte, w: seq<Data>)
    requires Staged(link, batches) && W.Mixed(link, batches, p, 2, link.cfg.dataShards)
    ensures link.code.rebuild(p.dataShards, p.parityShards, p.shards) == Some(w)
    ensures |w| >= link.cfg.dataShards && c != 0 && w[1] == Le(7, 2) + (Head(1) + [c])
  {
    hide Parity, GaloisField.Gf256, Rebuild, Head;
    var n, k := link.cfg.dataShards, link.cfg.parityShards;
    var x, y := DataShards(n, batches[0]), DataShards(n, batches[U16]);
    StagedSlots(link, batches, p);
    GaloisField.Gf256IsAField();
    MixtureRebuilds(GaloisField.Gf256(), n, k, x, y, p.shards);
    w := Rebuild(GaloisField.Gf256(), n, k, p.shards).value;
    SevenShard(n, batches[0], 0);
    SevenShard(n, batches[U16], 0);
    SevenShard(n, batches[U16], 1);
    c := w[1][8];
    forall t | 0 <= t < 8 ensures w[1][t] == (Le(7, 2) + (Head(1) + [c]))[t] {
      assert x[0][t] == y[0][t];
      assert y[1][t] == (Le(7, 2) + (Head(1) + [0]))[t];
    }
  }

  /** The real receiver takes the leftover and shards 2 to n of the later block for one block, and yields a payload
      that is in neither. */
  lemma MixtureCorrupts(link: R.Link, batches: seq<seq<Data>>) returns (c: byte, list: seq<Data>)
    requires Staged(link, batches)
    ensures R.AllEnabled(link, batches, W.Mixture(2, link.cfg.dataShards))
    ensures W.WireRun(link, batches, R.START, W.Mixture(2, link.cfg.dataShards)).outputs
         == [R.Output(U16, Payloads(list))]
    ensures c != 0 && Head(1) + [c] in list
  {
    hide W.WireRun, W.Mixture, Head, Code256;
    var p := W.WireTakesMixture(link, batches, 2);
    var w;
    c, w := StagedRebuilds(link, batches, p);
    list := Unpack(w[..link.cfg.dataShards]);
    UnpackSeven(w[1], 1, c);
    UnpackHas(w[..link.cfg.dataShards], 1, Head(1) + [c]);
    assert Reconstructed(link.code, p) == Payloads(list);
  }

  // ----- a run that stages it -----

  /** Only the three messages have been injected, and nothing has happened to the link but emissions. */
  ghost predicate Idle(m: Mesh, s: State, batches: seq<seq<Data>>, buffer: seq<Data>) {
    && LinksOk(m, s) && s.links.Keys == {LINK} && m.tunnels == {LINK}
    && s.links[LINK].batches == batches && s.links[LINK].sending.buffer == buffer
    && s.links[LINK].rx == R.START && s.arrivals == [] && s.delivered == []
    && forall inj :: inj in s.injected ==> inj.message in {Message(0, 0), Message(0, 1), Message(1, 0)}
  }

  ghost predicate Free(m: Mesh) {
    m.link.Valid() && m.tunnels == {LINK} && forall u, dest, v :: m.mayHop(u, dest, v)
  }

  lemma InjectOne(m: Mesh, s: State, batches: seq<seq<Data>>, buffer: seq<Data>, flow: nat, b: byte) returns (s': State)
    requires Free(m) && Idle(m, s, batches, buffer) && Message(flow, b) in {Message(0, 0), Message(0, 1), Message(1, 0)}
    ensures MayLead(m, s, s')
    ensures var all := buffer + [Head(flow) + [b]];
            if |all| >= m.link.cfg.dataShards then Idle(m, s', batches + [all], []) else Idle(m, s', batches, all)
  {
    hide LinksOk, MayLead, H.Encode, H.Typed;
    MessageBytes(flow, b);
    assert SRC.name[0] != DST.name[0];
    var e := Inject(SRC, Message(flow, b), Some(DST));
    OneStep(m, s, e);
    s' := Apply(m, s, e);
  }

  /** What one block is to hold: the messages' flows and bytes. */
  ghost predicate Allowed(flow: nat, b: byte) {
    (flow, b) in {(0, 0), (0, 1), (1, 0)}
  }

  function Payloads7(msgs: seq<(nat, byte)>): (d: seq<Data>)
    ensures |d| == |msgs| && forall i :: 0 <= i < |d| ==> d[i] == Head(msgs[i].0) + [msgs[i].1] && |d[i]| == 7
  {
    seq(|msgs|, i requires 0 <= i < |msgs| => Head(msgs[i].0) + [msgs[i].1])
  }

  lemma {:induction false} FillTo(m: Mesh, s: State, batches: seq<seq<Data>>, msgs: seq<(nat, byte)>, i: nat)
    returns (s': State)
    requires Free(m) && Idle(m, s, batches, []) && |msgs| == m.link.cfg.dataShards && i < |msgs|
    requires forall j :: 0 <= j < |msgs| ==> Allowed(msgs[j].0, msgs[j].1)
    ensures MayLead(m, s, s') && Idle(m, s', batches, Payloads7(msgs)[..i])
    decreases i
  {
    hide MayLead, Idle, Free, Head;
    if i == 0 {
      s' := s;
      StaysPut(m, s);
    } else {
      var mid := FillTo(m, s, batches, msgs, i - 1);
      s' := InjectOne(m, mid, batches, Payloads7(msgs)[..i - 1], msgs[i - 1].0, msgs[i - 1].1);
      assert Payloads7(msgs)[..i] == Payloads7(msgs)[..i - 1] + [Payloads7(msgs)[i - 1]];
      MayLeadTransitive(m, s, mid, s');
    }
  }

  lemma FillBlock(m: Mesh, s: State, batches: seq<seq<Data>>, msgs: seq<(nat, byte)>) returns (s': State)
    requires Free(m) && Idle(m, s, batches, []) && |msgs| == m.link.cfg.dataShards >= 1
    requires forall j :: 0 <= j < |msgs| ==> Allowed(msgs[j].0, msgs[j].1)
    ensures MayLead(m, s, s') && Idle(m, s', batches + [Payloads7(msgs)], [])
  {
    hide MayLead, Idle, Free, Head;
    var n := |msgs|;
    var mid := FillTo(m, s, batches, msgs, n - 1);
    s' := InjectOne(m, mid, batches, Payloads7(msgs)[..n - 1], msgs[n - 1].0, msgs[n - 1].1);
    assert Payloads7(msgs) == Payloads7(msgs)[..n - 1] + [Payloads7(msgs)[n - 1]];
    MayLeadTransitive(m, s, mid, s');
  }

  /** `c` equal blocks. */
  function Repeated(block: seq<Data>, c: nat): (b: seq<seq<Data>>)
    ensures |b| == c && forall i :: 0 <= i < c ==> b[i] == block
  {
    seq(c, _ => block)
  }

  lemma {:induction false} FillBlocks(m: Mesh, s: State, msgs: seq<(nat, byte)>, c: nat) returns (s': State)
    requires Free(m) && Idle(m, s, [], []) && |msgs| == m.link.cfg.dataShards >= 1
    requires forall j :: 0 <= j < |msgs| ==> Allowed(msgs[j].0, msgs[j].1)
    ensures MayLead(m, s, s') && Idle(m, s', Repeated(Payloads7(msgs), c), [])
    decreases c
  {
    hide MayLead, Idle, Free;
    if c == 0 {
      s' := s;
      StaysPut(m, s);
    } else {
      var mid := FillBlocks(m, s, msgs, c - 1);
      s' := FillBlock(m, mid, Repeated(Payloads7(msgs), c - 1), msgs);
      assert Repeated(Payloads7(msgs), c) == Repeated(Payloads7(msgs), c - 1) + [Payloads7(msgs)];
      MayLeadTransitive(m, s, mid, s');
    }
  }

  /** Everything the receiver has yielded has arrived. */
  ghost predicate YieldsArrived(t: Tunnel, l: LinkState, arrivals: seq<Arrival>) {
    forall i, q :: 0 <= i < |l.rx.outputs| && l.rx.outputs[i].outcome.Payloads? && q in l.rx.outputs[i].outcome.list ==>
      Arrival(t.1, t.0, q) in arrivals
  }

  lemma NewYieldArrives(t: Tunnel, before: R.Rx, after: R.Rx, q: Data)
    requires |after.outputs| > |before.outputs| && after.outputs[|after.outputs| - 1].outcome.Payloads?
    requires q in after.outputs[|after.outputs| - 1].outcome.list
    ensures Arrival(t.1, t.0, q) in NewArrivals(t, before, after)
  {
    var list := after.outputs[|after.outputs| - 1].outcome.list;
    var i :| 0 <= i < |list| && list[i] == q;
    assert NewArrivals(t, before, after)[i] == Arrival(t.1, t.0, q);
  }

  lemma ChannelOne(m: Mesh, s: State, c: R.Event) returns (s': State)
    requires m.link.Valid() && LinksOk(m, s) && LINK in s.links && Enabled(m, s, Channel(LINK, c))
    requires YieldsArrived(LINK, s.links[LINK], s.arrivals)
    ensures LinkOk(m, s.links[LINK])
    ensures MayLead(m, s, s') && LinksOk(m, s') && LINK in s'.links
    ensures YieldsArrived(LINK, s'.links[LINK], s'.arrivals) && s'.links[LINK] == Moved(m, s.links[LINK], c)
    ensures s'.injected == s.injected && s'.delivered == s.delivered
  {
    LinkIsOk(m, s, LINK);
    hide LinksOk, MayLead, LinkOk, Wire.Passes, NewArrivals;
    OneStep(m, s, Channel(LINK, c));
    s' := Apply(m, s, Channel(LINK, c));
    var before, after := s.links[LINK].rx, s'.links[LINK].rx;
    AtMostOneYield(m, s.links[LINK], c);
    forall i, q | 0 <= i < |after.outputs| && after.outputs[i].outcome.Payloads? && q in after.outputs[i].outcome.list
      ensures Arrival(LINK.1, LINK.0, q) in s'.arrivals
    {
      if i >= |before.outputs| {
        NewYieldArrives(LINK, before, after, q);
      } else {
        assert after.outputs[i] == before.outputs[i];
      }
    }
  }

  lemma AtMostOneYield(m: Mesh, l: LinkState, c: R.Event)
    requires m.link.Valid() && m.link.Batches(l.batches) && m.link.Enabled(l.batches, c)
    ensures var rx := Moved(m, l, c).rx;
            |l.rx.outputs| <= |rx.outputs| <= |l.rx.outputs| + 1 && rx.outputs[..|l.rx.outputs|] == l.rx.outputs
  {
    hide Receive, BlockFrames;
  }

  lemma {:induction false} ChannelAll(m: Mesh, s: State, events: seq<R.Event>) returns (s': State)
    requires m.link.Valid() && LinksOk(m, s) && LINK in s.links && LinkOk(m, s.links[LINK])
    requires R.AllEnabled(m.link, s.links[LINK].batches, events)
    requires forall b :: 0 <= b < |s.links[LINK].batches| ==> Wire.Passes(s.links[LINK].batches[b])
    requires YieldsArrived(LINK, s.links[LINK], s.arrivals)
    ensures MayLead(m, s, s') && LinksOk(m, s') && LINK in s'.links
    ensures YieldsArrived(LINK, s'.links[LINK], s'.arrivals)
    ensures s'.links[LINK].batches == s.links[LINK].batches
    ensures s'.links[LINK].rx == W.WireRun(m.link, s.links[LINK].batches, s.links[LINK].rx, events)
    ensures s'.injected == s.injected && s'.delivered == s.delivered
    decreases |events|
  {
    hide LinksOk, MayLead, Wire.Passes, YieldsArrived, W.WireStep;
    if events == [] {
      s' := s;
      StaysPut(m, s);
    } else {
      var n := |events| - 1;
      var mid := ChannelAll(m, s, events[..n]);
      assert m.link.Enabled(s.links[LINK].batches, events[n]);
      s' := ChannelOne(m, mid, events[n]);
      MayLeadTransitive(m, s, mid, s');
    }
  }

  // ----- the delivery of what nobody sent -----

  ghost predicate WasInjected(s: State, d: Delivered) {
    exists inj :: inj in s.injected && inj.message == H.Relayed(d.local.flowId, d.node, d.local.data)
  }

  ghost predicate AllWereInjected(s: State) {
    forall j :: 0 <= j < |s.delivered| ==> WasInjected(s, s.delivered[j])
  }

  function Earlier(n: nat): (msgs: seq<(nat, byte)>)
    ensures |msgs| == n && forall j :: 0 <= j < n ==> msgs[j] == (0, 0)
  {
    seq(n, _ => (0, 0))
  }

  function Later(n: nat): (msgs: seq<(nat, byte)>)
    requires n >= 2
    ensures |msgs| == n && msgs[0] == (0, 1) && msgs[1] == (1, 0)
    ensures forall j :: 0 <= j < n ==> Allowed(msgs[j].0, msgs[j].1)
  {
    seq(n, j => if j == 1 then (1, 0) else (0, 1))
  }

  function StagedBatches(n: nat): (batches: seq<seq<Data>>)
    requires n >= 2
  {
    Repeated(Payloads7(Earlier(n)), U16) + [Payloads7(Later(n))]
  }

  lemma StagedPasses(link: R.Link)
    requires link.Valid() && link.code == Code256() && link.cfg.dataShards >= 2
    ensures var batches := StagedBatches(link.cfg.dataShards);
            Staged(link, batches) && forall b :: 0 <= b < |batches| ==> Wire.Passes(batches[b])
  {
    hide Head, R.Link.Valid, Code256;
    var n := link.cfg.dataShards;
    var batches := StagedBatches(n);
    forall b | 0 <= b < |batches|
      ensures |batches[b]| == n && forall i :: 0 <= i < n ==> |batches[b][i]| == 7
    {
      assert batches[b] == if b < U16 then Payloads7(Earlier(n)) else Payloads7(Later(n));
    }
    assert batches[0] == Payloads7(Earlier(n)) && batches[U16] == Payloads7(Later(n));
  }

  lemma Stage(m: Mesh) returns (s: State)
    requires Free(m) && m.link.cfg.dataShards >= 2
    ensures MayLead(m, Initial(m), s) && Idle(m, s, StagedBatches(m.link.cfg.dataShards), [])
  {
    hide MayLead, LinkOk;
    var n := m.link.cfg.dataShards;
    InitialLinks(m);
    assert Idle(m, Initial(m), [], []);
    hide Idle, Free;
    var mid := FillBlocks(m, Initial(m), Earlier(n), U16);
    s := FillBlock(m, mid, Repeated(Payloads7(Earlier(n)), U16), Later(n));
    MayLeadTransitive(m, Initial(m), mid, s);
  }

  lemma DeliverArrival(m: Mesh, s: State, c: byte) returns (s': State)
    requires m.link.Valid() && LinksOk(m, s) && Arrival(DST, SRC, Head(1) + [c]) in s.arrivals
    ensures MayLead(m, s, s') && s'.injected == s.injected
    ensures s'.delivered == s.delivered + [Delivered(DST, H.LocalDelivery(1, [c], SRC))]
  {
    hide MayLead, LinksOk, H.Decode, H.Encode, Head;
    MessageBytes(1, c);
    var j :| 0 <= j < |s.arrivals| && s.arrivals[j] == Arrival(DST, SRC, Head(1) + [c]);
    OneStep(m, s, Route(j, None));
    s' := Apply(m, s, Route(j, None));
  }

  /** A mesh of one tunnel can be led to deliver a message that nobody injected. */
  lemma DeliversAnother(m: Mesh) returns (s: State)
    requires Free(m) && m.link.code == Code256() && m.link.cfg.dataShards >= 2
    ensures MayLead(m, Initial(m), s) && !AllWereInjected(s)
  {
    hide MayLead, LinksOk, LinkOk, Head, W.WireRun, W.Mixture, Code256, R.Link.Valid, StagedBatches, Wire.Passes;
    hide Staged, YieldsArrived, R.AllEnabled;
    var n := m.link.cfg.dataShards;
    var staged := Stage(m);
    var batches := StagedBatches(n);
    StagedPasses(m.link);
    var c, list := MixtureCorrupts(m.link, batches);
    LinkIsOk(m, staged, LINK);
    assert YieldsArrived(LINK, staged.links[LINK], staged.arrivals) by { NothingYielded(staged); }
    var mixed := ChannelAll(m, staged, W.Mixture(2, n));
    CorruptArrives(m, mixed, list, Head(1) + [c]);
    s := DeliverArrival(m, mixed, c);
    MayLeadTransitive(m, Initial(m), staged, mixed);
    MayLeadTransitive(m, Initial(m), mixed, s);
    assert s.delivered[0] == Delivered(DST, H.LocalDelivery(1, [c], SRC));
    assert !WasInjected(s, s.delivered[0]);
  }

  lemma NothingYielded(s: State)
    requires LINK in s.links && s.links[LINK].rx == R.START
    ensures YieldsArrived(LINK, s.links[LINK], s.arrivals)
  {
  }

  lemma CorruptArrives(m: Mesh, s: State, list: seq<Data>, q: Data)
    requires LINK in s.links && YieldsArrived(LINK, s.links[LINK], s.arrivals)
    requires s.links[LINK].rx.outputs == [R.Output(U16, Payloads(list))] && q in list
    ensures Arrival(DST, SRC, q) in s.arrivals
  {
    assert s.links[LINK].rx.outputs[0].outcome == Payloads(list);
  }

  /** Steps from the end of a run make a longer run. */
  lemma {:induction false} RunGoesOn(m: Mesh, states: seq<State>, s: State, n: nat) returns (longer: seq<State>)
    requires IsRun(m, states) && Leads(m, states[|states| - 1], s, n)
    ensures IsRun(m, longer) && longer[|longer| - 1] == s
    decreases n
  {
    hide Next;
    if n == 0 {
      longer := states;
    } else {
      var mid :| Leads(m, states[|states| - 1], mid, n - 1) && Next(m, mid, s);
      var run := RunGoesOn(m, states, mid, n - 1);
      longer := run + [s];
      assert longer[..|run|] == run;
    }
  }

  lemma DeliversAnotherInARun(m: Mesh) returns (states: seq<State>)
    requires Free(m) && m.link.code == Code256() && m.link.cfg.dataShards >= 2
    ensures IsRun(m, states) && !AllWereInjected(states[|states| - 1])
  {
    hide AllWereInjected, Leads, Next;
    var s := DeliversAnother(m);
    var n: nat :| Leads(m, Initial(m), s, n);
    states := RunGoesOn(m, [Initial(m)], s, n);
  }

  lemma OneShardBlocksAreInjected(m: Mesh, states: seq<State>)
    requires m.link.Valid() && m.link.cfg.dataShards == 1 && IsRun(m, states)
    ensures AllWereInjected(states[|states| - 1])
  {
    var s := states[|states| - 1];
    forall j | 0 <= j < |s.delivered| ensures WasInjected(s, s.delivered[j]) {
      MeshDeliversWhatWasSent(m, states, j);
    }
  }

  /** So over Reed-Solomon links a clean run is needed for two data shards or more: nothing but injected messages is
      delivered in every run of every mesh exactly when every data shard is a block of its own. */
  lemma OnlyInjectedExactly(cfg: FecConfig)
    requires ValidCounts(cfg.dataShards, cfg.parityShards)
    ensures cfg.dataShards == 1 <==>
      (forall m: Mesh, states {:trigger IsRun(m, states)} :: m.link == R.Link(Code256(), cfg) && IsRun(m, states) ==>
         AllWereInjected(states[|states| - 1]))
  {
    hide AllWereInjected, Code256;
    if cfg.dataShards == 1 {
      forall m: Mesh, states {:trigger IsRun(m, states)} | m.link == R.Link(Code256(), cfg) && IsRun(m, states)
        ensures AllWereInjected(states[|states| - 1])
      {
        ReedSolomonMesh(m.tunnels, m.mayHop, cfg);
        OneShardBlocksAreInjected(m, states);
      }
    } else {
      var m := Mesh({LINK}, (u, dest, v) => true, R.Link(Code256(), cfg));
      ReedSolomonMesh(m.tunnels, m.mayHop, cfg);
      var states := DeliversAnotherInARun(m);
    }
  }
}
