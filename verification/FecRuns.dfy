/** Whole runs of one link: a channel that loses, repeats and reorders shards, and a receiver that expires
    old blocks. `batches[b]` is the payload list of the b-th block the sender ever emitted. */
module FecRuns {
  import opened Bytes
  import opened ErasureCode
  import opened FecCodec
  import opened FecBlocks

  /** Shard `i` of block `b` arrives, time passes, or the flush timer expires old blocks. A shard that is
      lost has no event; one that is repeated has several. */
  datatype Event = Deliver(b: nat, i: nat) | Tick(dt: Nanos) | Expire

  datatype Output = Output(block: nat, outcome: Outcome)

  datatype Rx = Rx(pending: map<nat, Pending>, now: Nanos, outputs: seq<Output>)

  datatype Link = Link(code: Code, cfg: FecConfig)
  {
    ghost predicate Valid() {
      Lawful(code) && ValidCounts(cfg.dataShards, cfg.parityShards)
    }

    ghost predicate Batches(batches: seq<seq<Data>>) {
      forall b :: 0 <= b < |batches| ==> 0 < |batches[b]| <= cfg.dataShards
    }

    /** Only shards of emitted blocks arrive. */
    ghost predicate Enabled(batches: seq<seq<Data>>, e: Event) {
      e.Deliver? ==> e.b < |batches| && e.i < cfg.dataShards + cfg.parityShards
    }
  }

  ghost predicate AllEnabled(link: Link, batches: seq<seq<Data>>, events: seq<Event>) {
    forall j :: 0 <= j < |events| ==> link.Enabled(batches, events[j])
  }

  function Note(outputs: seq<Output>, b: nat, o: Outcome): seq<Output> {
    if o == Nothing then outputs else outputs + [Output(b, o)]
  }

  const START := Rx(map[], 0, [])

  // ----- the idealised receiver, which knows every block by its full number -----

  ghost function Step(link: Link, batches: seq<seq<Data>>, s: Rx, e: Event): Rx
    requires link.Valid() && link.Batches(batches) && link.Enabled(batches, e)
  {
    match e
    case Deliver(b, i) =>
      BlockWordShape(link.code, link.cfg, batches[b]);
      var (pending, o) := Accept(link.code, s.pending, b, i, link.cfg.dataShards, link.cfg.parityShards,
                                 BlockWord(link.code, link.cfg, batches[b])[i], s.now);
      Rx(pending, s.now, Note(s.outputs, b, o))
    case Tick(dt) => s.(now := s.now + dt)
    case Expire => s.(pending := Unexpired(s.pending, MAX_AGE_MS, s.now))
  }

  ghost function Run(link: Link, batches: seq<seq<Data>>, s: Rx, events: seq<Event>): Rx
    requires link.Valid() && link.Batches(batches) && AllEnabled(link, batches, events)
    decreases |events|
  {
    if events == [] then s
    else Step(link, batches, Run(link, batches, s, events[..|events| - 1]), events[|events| - 1])
  }

  /** Half-filled blocks hold shards of one batch only, and fewer than n of them. */
  ghost predicate Unmixed(link: Link, batches: seq<seq<Data>>, s: Rx)
    requires link.Batches(batches)
  {
    forall b :: b in s.pending ==>
      b < |batches| && Collects(link.code, link.cfg, batches[b], s.pending[b])
      && 0 < |Present(s.pending[b].shards)| < link.cfg.dataShards && s.pending[b].createdAt <= s.now
  }

  /** Also, everything yielded so far is what is kept of the batch it was yielded for. */
  ghost predicate Sound(link: Link, batches: seq<seq<Data>>, s: Rx)
    requires link.Batches(batches)
  {
    && Unmixed(link, batches, s)
    && (forall j :: 0 <= j < |s.outputs| ==>
          s.outputs[j].block < |batches| && s.outputs[j].outcome == Payloads(KeptAll(batches[s.outputs[j].block])))
  }

  /** The distinct shards of block `b` the receiver holds. */
  ghost function Held(s: Rx, b: nat): set<nat> {
    if b in s.pending then Present(s.pending[b].shards) else {}
  }

  lemma InsertedCollects(code: Code, cfg: FecConfig, payloads: seq<Data>, p: Pending, i: nat)
    requires |payloads| <= cfg.dataShards && i < |BlockWord(code, cfg, payloads)| == cfg.dataShards + cfg.parityShards
    requires Collects(code, cfg, payloads, p)
    ensures var p' := Inserted(p, i, BlockWord(code, cfg, payloads)[i]);
            Collects(code, cfg, payloads, p') && Present(p'.shards) == Present(p.shards) + {i}
            && p'.createdAt == p.createdAt
  {
    var p' := Inserted(p, i, BlockWord(code, cfg, payloads)[i]);
    assert Present(p'.shards) == Present(p.shards) + {i};
  }

  lemma NewCollects(code: Code, cfg: FecConfig, payloads: seq<Data>, now: Nanos)
    requires |payloads| <= cfg.dataShards && |BlockWord(code, cfg, payloads)| == cfg.dataShards + cfg.parityShards
    ensures var p := NewPending(cfg.dataShards, cfg.parityShards, now);
            Collects(code, cfg, payloads, p) && Present(p.shards) == {}
  {
  }

  /** The block as it is once shard `i` is in it. */
  ghost function WithShard(link: Link, batches: seq<seq<Data>>, s: Rx, b: nat, i: nat): Pending
    requires link.Valid() && link.Batches(batches) && link.Enabled(batches, Deliver(b, i))
  {
    BlockWordShape(link.code, link.cfg, batches[b]);
    Inserted(if b in s.pending then s.pending[b] else NewPending(link.cfg.dataShards, link.cfg.parityShards, s.now),
             i, BlockWord(link.code, link.cfg, batches[b])[i])
  }

  lemma WithShardCollects(link: Link, batches: seq<seq<Data>>, s: Rx, b: nat, i: nat)
    requires link.Valid() && link.Batches(batches) && Unmixed(link, batches, s)
    requires link.Enabled(batches, Deliver(b, i))
    ensures var p := WithShard(link, batches, s, b, i);
            Collects(link.code, link.cfg, batches[b], p) && Present(p.shards) == Held(s, b) + {i}
            && p.createdAt == (if b in s.pending then s.pending[b].createdAt else s.now)
  {
    hide BlockWord, Collects;
    BlockWordShape(link.code, link.cfg, batches[b]);
    NewCollects(link.code, link.cfg, batches[b], s.now);
    InsertedCollects(link.code, link.cfg, batches[b],
                     if b in s.pending then s.pending[b]
                     else NewPending(link.cfg.dataShards, link.cfg.parityShards, s.now), i);
  }

  /** The exact effect of one arrival: the n-th distinct shard yields the batch and closes the block, any
      other is kept. */
  lemma DeliverEffect(link: Link, batches: seq<seq<Data>>, s: Rx, b: nat, i: nat)
    requires link.Valid() && link.Batches(batches) && Unmixed(link, batches, s)
    requires link.Enabled(batches, Deliver(b, i))
    ensures var s' := Step(link, batches, s, Deliver(b, i));
            var held := Held(s, b) + {i};
            && s'.now == s.now
            && s'.pending - {b} == s.pending - {b}
            && (|held| < link.cfg.dataShards ==>
                  b in s'.pending && Present(s'.pending[b].shards) == held
                  && Collects(link.code, link.cfg, batches[b], s'.pending[b])
                  && s'.pending[b].createdAt == (if b in s.pending then s.pending[b].createdAt else s.now)
                  && s'.outputs == s.outputs)
            && (|held| >= link.cfg.dataShards ==>
                  |held| == link.cfg.dataShards && b !in s'.pending
                  && s'.outputs == s.outputs + [Output(b, Payloads(KeptAll(batches[b])))])
  {
    hide Unmixed, BlockWord, Reconstructed, KeptAll, Inserted, NewPending, Held, Codeword;
    WithShardCollects(link, batches, s, b, i);
    HeldShort(link, batches, s, b);
    CardinalityOfUnion(Held(s, b), i);
    var p := WithShard(link, batches, s, b, i);
    BlockRoundTrip(link.code, link.cfg, batches[b], p);
    CollectsCounts(link.code, link.cfg, batches[b], p);
    hide Collects;
  }

  /** In short: an arrival yields nothing, or what is kept of the shard's batch. */
  lemma DeliverYields(link: Link, batches: seq<seq<Data>>, s: Rx, b: nat, i: nat)
    requires link.Valid() && link.Batches(batches) && Unmixed(link, batches, s)
    requires link.Enabled(batches, Deliver(b, i))
    ensures var s' := Step(link, batches, s, Deliver(b, i));
            s'.outputs == s.outputs || s'.outputs == s.outputs + [Output(b, Payloads(KeptAll(batches[b])))]
  {
    hide Step, Unmixed, KeptAll, Collects, Held;
    DeliverEffect(link, batches, s, b, i);
  }

  lemma CollectsCounts(code: Code, cfg: FecConfig, payloads: seq<Data>, p: Pending)
    requires |payloads| <= cfg.dataShards && Collects(code, cfg, payloads, p)
    ensures p.received == |Present(p.shards)| && p.dataShards == cfg.dataShards
  {
  }

  lemma HeldShort(link: Link, batches: seq<seq<Data>>, s: Rx, b: nat)
    requires link.Batches(batches) && Unmixed(link, batches, s) && link.cfg.dataShards >= 1
    ensures |Held(s, b)| < link.cfg.dataShards
  {
  }

  lemma DeliverUnmixed(link: Link, batches: seq<seq<Data>>, s: Rx, b: nat, i: nat)
    requires link.Valid() && link.Batches(batches) && Unmixed(link, batches, s)
    requires link.Enabled(batches, Deliver(b, i))
    ensures Unmixed(link, batches, Step(link, batches, s, Deliver(b, i)))
  {
    hide Step, Collects, KeptAll;
    var s' := Step(link, batches, s, Deliver(b, i));
    DeliverEffect(link, batches, s, b, i);
    forall c | c in s'.pending && c != b ensures c in s.pending && s'.pending[c] == s.pending[c] {
      assert c in s'.pending - {b};
      assert c in s.pending - {b};
    }
    if b in s'.pending {
      assert i in Present(s'.pending[b].shards);
    }
  }

  lemma DeliverSound(link: Link, batches: seq<seq<Data>>, s: Rx, b: nat, i: nat)
    requires link.Valid() && link.Batches(batches) && Sound(link, batches, s) && link.Enabled(batches, Deliver(b, i))
    ensures Sound(link, batches, Step(link, batches, s, Deliver(b, i)))
  {
    hide Step, Unmixed, KeptAll;
    DeliverUnmixed(link, batches, s, b, i);
    DeliverEffect(link, batches, s, b, i);
  }

  lemma StepSound(link: Link, batches: seq<seq<Data>>, s: Rx, e: Event)
    requires link.Valid() && link.Batches(batches) && Sound(link, batches, s) && link.Enabled(batches, e)
    ensures Sound(link, batches, Step(link, batches, s, e))
  {
    hide Collects, Accept, KeptAll;
    if e.Deliver? {
      DeliverSound(link, batches, s, e.b, e.i);
    }
  }

  /** Safety of every run: each yield is exactly what is kept of one emitted batch, in order, unmixed. */
  lemma {:induction false} RunSound(link: Link, batches: seq<seq<Data>>, s: Rx, events: seq<Event>)
    requires link.Valid() && link.Batches(batches) && AllEnabled(link, batches, events) && Sound(link, batches, s)
    ensures Sound(link, batches, Run(link, batches, s, events))
    decreases |events|
  {
    if events != [] {
      RunSound(link, batches, s, events[..|events| - 1]);
      StepSound(link, batches, Run(link, batches, s, events[..|events| - 1]), events[|events| - 1]);
    }
  }

  lemma RunSnoc(link: Link, batches: seq<seq<Data>>, s: Rx, events: seq<Event>, e: Event)
    requires link.Valid() && link.Batches(batches) && AllEnabled(link, batches, events) && link.Enabled(batches, e)
    ensures AllEnabled(link, batches, events + [e])
    ensures Run(link, batches, s, events + [e]) == Step(link, batches, Run(link, batches, s, events), e)
  {
    hide Step;
    assert (events + [e])[..|events|] == events;
  }

  /** Blocks emitted later change nothing about a run that has been. */
  lemma {:induction false} RunGrows(link: Link, batches: seq<seq<Data>>, batch: seq<Data>, s: Rx, events: seq<Event>)
    requires link.Valid() && link.Batches(batches) && 0 < |batch| <= link.cfg.dataShards
    requires AllEnabled(link, batches, events)
    ensures AllEnabled(link, batches + [batch], events)
    ensures Run(link, batches + [batch], s, events) == Run(link, batches, s, events)
    decreases |events|
  {
    hide Accept, Unexpired, BlockWord;
    if events != [] {
      RunGrows(link, batches, batch, s, events[..|events| - 1]);
    }
  }

  // ----- completeness -----

  /** The distinct shards of block `b` that arrive during `events`. */
  function Arriving(events: seq<Event>, b: nat): set<nat> {
    if events == [] then {}
    else
      var e := events[|events| - 1];
      Arriving(events[..|events| - 1], b) + (if e.Deliver? && e.b == b then {e.i} else {})
  }

  function Elapsed(events: seq<Event>): Nanos {
    if events == [] then 0
    else
      var e := events[|events| - 1];
      Elapsed(events[..|events| - 1]) + (if e.Tick? then e.dt else 0)
  }

  function YieldsOf(outputs: seq<Output>, b: nat): nat {
    if outputs == [] then 0
    else YieldsOf(outputs[..|outputs| - 1], b) + (if outputs[|outputs| - 1].block == b then 1 else 0)
  }

  lemma YieldsOfSnoc(outputs: seq<Output>, y: Output, b: nat)
    ensures YieldsOf(outputs + [y], b) == YieldsOf(outputs, b) + (if y.block == b then 1 else 0)
  {
    assert (outputs + [y])[..|outputs|] == outputs;
  }

  /** Some shard of block `b` arrives when `at` has passed. */
  ghost predicate ArrivesAt(events: seq<Event>, b: nat, at: Nanos) {
    exists i :: 0 <= i < |events| && events[i].Deliver? && events[i].b == b && at == Elapsed(events[..i])
  }

  /** The flush timer never fires 500 ms or more after a shard of block `b` has arrived. */
  ghost predicate WithinLifetime(events: seq<Event>, b: nat) {
    forall i, m :: 0 <= i < m < |events| && events[i].Deliver? && events[i].b == b && events[m] == Expire ==>
      Elapsed(events[..m]) - Elapsed(events[..i]) < 500_000_000
  }

  lemma ArrivesInPrefix(events: seq<Event>, e: Event, b: nat, at: Nanos)
    requires ArrivesAt(events, b, at)
    ensures ArrivesAt(events + [e], b, at)
  {
    var i :| 0 <= i < |events| && events[i].Deliver? && events[i].b == b && at == Elapsed(events[..i]);
    assert (events + [e])[i] == events[i] && (events + [e])[..i] == events[..i];
  }

  lemma ArrivesLast(events: seq<Event>, b: nat, i: nat)
    ensures ArrivesAt(events + [Deliver(b, i)], b, Elapsed(events))
  {
    var longer := events + [Deliver(b, i)];
    assert longer[|events|] == Deliver(b, i) && longer[..|events|] == events;
  }

  /** Since state `s`, during `events`, the receiver has accumulated the shards of block `b` that arrived, and
      yielded it never. */
  ghost predicate Accumulated(s: Rx, t: Rx, events: seq<Event>, b: nat) {
    && Held(t, b) == Arriving(events, b) && YieldsOf(t.outputs, b) == YieldsOf(s.outputs, b)
    && t.now == s.now + Elapsed(events)
    && (b in t.pending ==>
          s.now <= t.pending[b].createdAt && ArrivesAt(events, b, t.pending[b].createdAt - s.now))
  }

  lemma OneMore(events: seq<Event>, e: Event, b: nat)
    ensures Arriving(events + [e], b) == Arriving(events, b) + (if e.Deliver? && e.b == b then {e.i} else {})
    ensures Elapsed(events + [e]) == Elapsed(events) + (if e.Tick? then e.dt else 0)
  {
    assert (events + [e])[..|events|] == events;
  }

  lemma DeliverAccumulates(link: Link, batches: seq<seq<Data>>, s: Rx, t: Rx, events: seq<Event>, i: nat, b: nat)
    requires link.Valid() && link.Batches(batches) && Sound(link, batches, t) && link.Enabled(batches, Deliver(b, i))
    requires Accumulated(s, t, events, b) && |Arriving(events, b) + {i}| < link.cfg.dataShards
    ensures Accumulated(s, Step(link, batches, t, Deliver(b, i)), events + [Deliver(b, i)], b)
  {
    hide Step, Unmixed, YieldsOf, Collects, Arriving, Elapsed, ArrivesAt;
    DeliverEffect(link, batches, t, b, i);
    OneMore(events, Deliver(b, i), b);
    if b in t.pending {
      ArrivesInPrefix(events, Deliver(b, i), b, t.pending[b].createdAt - s.now);
    }
    ArrivesLast(events, b, i);
  }

  lemma OtherAccumulates(link: Link, batches: seq<seq<Data>>, s: Rx, t: Rx, events: seq<Event>, b': nat, i: nat,
                         b: nat)
    requires link.Valid() && link.Batches(batches) && Sound(link, batches, t) && link.Enabled(batches, Deliver(b', i))
    requires Accumulated(s, t, events, b) && b' != b
    ensures Accumulated(s, Step(link, batches, t, Deliver(b', i)), events + [Deliver(b', i)], b)
  {
    hide Step, Unmixed, YieldsOf, Collects, Arriving, Elapsed, ArrivesAt, Present, KeptAll;
    var t' := Step(link, batches, t, Deliver(b', i));
    DeliverEffect(link, batches, t, b', i);
    OneMore(events, Deliver(b', i), b);
    assert b in t'.pending <==> b in t'.pending - {b'};
    assert b in t.pending <==> b in t.pending - {b'};
    if b in t.pending {
      ArrivesInPrefix(events, Deliver(b', i), b, t.pending[b].createdAt - s.now);
    }
    YieldsOfSnoc(t.outputs, Output(b', Payloads(KeptAll(batches[b']))), b);
  }

  lemma StaysYoung(events: seq<Event>, b: nat, at: Nanos)
    requires WithinLifetime(events + [Expire], b) && ArrivesAt(events, b, at)
    ensures Elapsed(events) - at < 500_000_000
  {
    var i :| 0 <= i < |events| && events[i].Deliver? && events[i].b == b && at == Elapsed(events[..i]);
    var longer := events + [Expire];
    assert longer[i] == events[i] && longer[|events|] == Expire;
    assert longer[..i] == events[..i] && longer[..|events|] == events;
  }

  lemma ExpiryAccumulates(s: Rx, t: Rx, events: seq<Event>, b: nat)
    requires Accumulated(s, t, events, b) && WithinLifetime(events + [Expire], b)
    ensures Accumulated(s, t.(pending := Unexpired(t.pending, MAX_AGE_MS, t.now)), events + [Expire], b)
  {
    hide WithinLifetime, ArrivesAt, Arriving, Elapsed;
    var t' := t.(pending := Unexpired(t.pending, MAX_AGE_MS, t.now));
    OneMore(events, Expire, b);
    if b in t.pending {
      StaysYoung(events, b, t.pending[b].createdAt - s.now);
      ArrivesInPrefix(events, Expire, b, t.pending[b].createdAt - s.now);
      assert b in t'.pending && t'.pending[b] == t.pending[b];
    }
  }

  lemma TickAccumulates(s: Rx, t: Rx, dt: Nanos, events: seq<Event>, b: nat)
    requires Accumulated(s, t, events, b)
    ensures Accumulated(s, t.(now := t.now + dt), events + [Tick(dt)], b)
  {
    hide ArrivesAt, Arriving, Elapsed;
    OneMore(events, Tick(dt), b);
    if b in t.pending {
      ArrivesInPrefix(events, Tick(dt), b, t.pending[b].createdAt - s.now);
    }
  }

  lemma NothingAccumulated(s: Rx, b: nat)
    requires b !in s.pending
    ensures Accumulated(s, s, [], b)
  {
  }

  lemma LifetimePrefix(events: seq<Event>, e: Event, b: nat)
    requires WithinLifetime(events + [e], b)
    ensures WithinLifetime(events, b)
  {
    var longer := events + [e];
    forall i, m | 0 <= i < m < |events| && events[i].Deliver? && events[i].b == b && events[m] == Expire
      ensures Elapsed(events[..m]) - Elapsed(events[..i]) < 500_000_000
    {
      assert longer[i] == events[i] && longer[m] == Expire;
      assert longer[..i] == events[..i] && longer[..m] == events[..m];
    }
  }

  /** While its lifetime lasts, an absent block's distinct shards accumulate: no firing of the timer, and no
      other block's traffic, loses one. */
  lemma {:induction false} Accumulates(link: Link, batches: seq<seq<Data>>, s: Rx, events: seq<Event>, b: nat)
    requires link.Valid() && link.Batches(batches) && AllEnabled(link, batches, events) && Sound(link, batches, s)
    requires b !in s.pending && |Arriving(events, b)| < link.cfg.dataShards && WithinLifetime(events, b)
    ensures Accumulated(s, Run(link, batches, s, events), events, b)
    decreases |events|
  {
    hide Sound, Accumulated, Accept, Unexpired, WithinLifetime, Arriving;
    if events == [] {
      NothingAccumulated(s, b);
    } else {
      var init, e := events[..|events| - 1], events[|events| - 1];
      assert events == init + [e];
      OneMore(init, e, b);
      CardinalityMonotone(Arriving(init, b), Arriving(events, b));
      LifetimePrefix(init, e, b);
      Accumulates(link, batches, s, init, b);
      RunSound(link, batches, s, init);
      var t := Run(link, batches, s, init);
      match e
      case Deliver(b', i) =>
        if b' == b {
          DeliverAccumulates(link, batches, s, t, init, i, b);
        } else {
          OtherAccumulates(link, batches, s, t, init, b', i, b);
        }
      case Tick(dt) => TickAccumulates(s, t, dt, init, b);
      case Expire => ExpiryAccumulates(s, t, init, b);
    }
  }

  lemma CardinalityMonotone(a: set<nat>, b: set<nat>)
    requires a <= b
    ensures |a| <= |b|
  {
    assert b == a + (b - a);
  }

  /** Completeness: when n distinct shards of a block arrive before the timer finds it 500 ms old, the n-th of
      them yields the batch, and nothing does before. */
  lemma NthDistinctShardYields(link: Link, batches: seq<seq<Data>>, s: Rx, events: seq<Event>, b: nat, i: nat)
    requires link.Valid() && link.Batches(batches) && AllEnabled(link, batches, events) && Sound(link, batches, s)
    requires b !in s.pending && WithinLifetime(events, b)
    requires link.Enabled(batches, Deliver(b, i)) && i !in Arriving(events, b)
    requires |Arriving(events, b)| + 1 == link.cfg.dataShards
    ensures var t := Run(link, batches, s, events);
            YieldsOf(t.outputs, b) == YieldsOf(s.outputs, b)
            && Sound(link, batches, t)
            && Step(link, batches, t, Deliver(b, i)).outputs == t.outputs + [Output(b, Payloads(KeptAll(batches[b])))]
            && b !in Step(link, batches, t, Deliver(b, i)).pending
  {
    Accumulates(link, batches, s, events, b);
    RunSound(link, batches, s, events);
    DeliverEffect(link, batches, Run(link, batches, s, events), b, i);
  }

  // ----- emission bound -----

  function Arrivals(events: seq<Event>, b: nat): nat {
    if events == [] then 0
    else
      var e := events[|events| - 1];
      Arrivals(events[..|events| - 1], b) + (if e.Deliver? && e.b == b then 1 else 0)
  }

  ghost function Paid(link: Link, s: Rx, b: nat): nat {
    link.cfg.dataShards * YieldsOf(s.outputs, b) + |Held(s, b)|
  }

  lemma DeliverPays(link: Link, batches: seq<seq<Data>>, t: Rx, b': nat, i: nat, b: nat)
    requires link.Valid() && link.Batches(batches) && Sound(link, batches, t) && link.Enabled(batches, Deliver(b', i))
    ensures Paid(link, Step(link, batches, t, Deliver(b', i)), b) <= Paid(link, t, b) + (if b' == b then 1 else 0)
  {
    hide Step, Unmixed, YieldsOf, Collects;
    var s := Step(link, batches, t, Deliver(b', i));
    DeliverEffect(link, batches, t, b', i);
    YieldsOfSnoc(t.outputs, Output(b', Payloads(KeptAll(batches[b']))), b);
    if b' == b {
      CardinalityOfUnion(Held(t, b), i);
      MulSucc(link.cfg.dataShards, YieldsOf(t.outputs, b));
    } else {
      assert b in s.pending <==> b in s.pending - {b'};
      assert b in t.pending <==> b in t.pending - {b'};
    }
  }

  lemma MulSucc(n: nat, y: nat)
    ensures n * (y + 1) == n * y + n
  {
  }

  lemma StepPays(link: Link, batches: seq<seq<Data>>, t: Rx, e: Event, b: nat)
    requires link.Valid() && link.Batches(batches) && Sound(link, batches, t) && link.Enabled(batches, e)
    ensures Paid(link, Step(link, batches, t, e), b) <= Paid(link, t, b) + (if e.Deliver? && e.b == b then 1 else 0)
  {
    if e.Deliver? {
      DeliverPays(link, batches, t, e.b, e.i, b);
    } else {
      var s := Step(link, batches, t, e);
      assert Held(s, b) <= Held(t, b);
      CardinalityMonotone(Held(s, b), Held(t, b));
      assert s.outputs == t.outputs;
    }
  }

  lemma CardinalityOfUnion(a: set<nat>, i: nat)
    ensures |a + {i}| <= |a| + 1
  {
    assert a + {i} == if i in a then a else a + {i};
  }

  /** Every n arrivals pay for at most one yield of a block, and the shards held are paid for as well. */
  lemma {:induction false} EmissionBound(link: Link, batches: seq<seq<Data>>, events: seq<Event>, b: nat)
    requires link.Valid() && link.Batches(batches) && AllEnabled(link, batches, events)
    ensures var s := Run(link, batches, START, events);
            link.cfg.dataShards * YieldsOf(s.outputs, b) + |Held(s, b)| <= Arrivals(events, b)
    decreases |events|
  {
    hide Step, Sound, Held, YieldsOf;
    if events != [] {
      var init, e := events[..|events| - 1], events[|events| - 1];
      EmissionBound(link, batches, init, b);
      StartSound(link, batches);
      RunSound(link, batches, START, init);
      StepPays(link, batches, Run(link, batches, START, init), e, b);
    } else {
      StartYieldsNothing(b);
    }
  }

  lemma StartSound(link: Link, batches: seq<seq<Data>>)
    requires link.Batches(batches)
    ensures Sound(link, batches, START)
  {
  }

  lemma StartYieldsNothing(b: nat)
    ensures YieldsOf(START.outputs, b) == 0 && Held(START, b) == {}
  {
  }

  /** Each shard of block `b` arrives at most once. */
  ghost predicate NoDuplicates(events: seq<Event>, b: nat) {
    forall j, j' :: 0 <= j < j' < |events| && events[j].Deliver? && events[j].b == b ==> events[j] != events[j']
  }

  lemma {:induction false} ArrivalsDistinct(events: seq<Event>, b: nat)
    requires NoDuplicates(events, b)
    ensures Arrivals(events, b) == |Arriving(events, b)|
    ensures forall i :: i in Arriving(events, b) ==> exists j :: 0 <= j < |events| && events[j] == Deliver(b, i)
    decreases |events|
  {
    if events != [] {
      var init, e := events[..|events| - 1], events[|events| - 1];
      ArrivalsDistinct(init, b);
      forall i | i in Arriving(events, b) ensures exists j :: 0 <= j < |events| && events[j] == Deliver(b, i) {
        if i in Arriving(init, b) {
          var j :| 0 <= j < |init| && init[j] == Deliver(b, i);
          assert events[j] == Deliver(b, i);
        } else {
          assert events[|events| - 1] == Deliver(b, i);
        }
      }
      if e.Deliver? && e.b == b {
        assert e.i !in Arriving(init, b);
      }
    }
  }

  /** With fewer parity than data shards and no repeated shard, no block is ever yielded twice, although
      late shards re-open it. */
  lemma YieldedAtMostOnce(link: Link, batches: seq<seq<Data>>, events: seq<Event>, b: nat)
    requires link.Valid() && link.Batches(batches) && AllEnabled(link, batches, events)
    requires link.cfg.parityShards < link.cfg.dataShards && NoDuplicates(events, b)
    ensures YieldsOf(Run(link, batches, START, events).outputs, b) <= 1
  {
    hide Run, YieldsOf, Held;
    var n, k := link.cfg.dataShards, link.cfg.parityShards;
    EmissionBound(link, batches, events, b);
    ArrivalsDistinct(events, b);
    forall i | i in Arriving(events, b) ensures i in Below(n + k) {
      var j :| 0 <= j < |events| && events[j] == Deliver(b, i);
      assert link.Enabled(batches, events[j]);
    }
    CardinalityMonotone(Arriving(events, b), Below(n + k));
    AtMostOne(n, YieldsOf(Run(link, batches, START, events).outputs, b));
  }

  lemma AtMostOne(n: nat, y: nat)
    requires n * y < 2 * n
    ensures y <= 1
  {
    if y >= 2 {
      MulTwo(n, y);
    }
  }

  lemma MulTwo(n: nat, y: nat)
    requires y >= 2
    ensures n * y >= 2 * n
  {
    assert n * y == n * 2 + n * (y - 2);
  }

  /** `n` consecutive shards of block `b`, from shard `lo` on. */
  function Burst(b: nat, lo: nat, n: nat): (e: seq<Event>)
    ensures |e| == n && forall j :: 0 <= j < n ==> e[j] == Deliver(b, lo + j)
  {
    seq(n, (j: nat) => Deliver(b, lo + j))
  }

  lemma {:induction false} BurstArrives(b: nat, lo: nat, n: nat)
    ensures |Arriving(Burst(b, lo, n), b)| == n
    ensures forall i :: i in Arriving(Burst(b, lo, n), b) ==> lo <= i < lo + n
  {
    if n > 0 {
      BurstArrives(b, lo, n - 1);
      assert Burst(b, lo, n)[..n - 1] == Burst(b, lo, n - 1);
    }
  }

  lemma BurstYields(link: Link, batches: seq<seq<Data>>, s: Rx, b: nat, lo: nat)
    requires link.Valid() && link.Batches(batches) && Sound(link, batches, s)
    requires b < |batches| && b !in s.pending && lo <= link.cfg.parityShards
    ensures AllEnabled(link, batches, Burst(b, lo, link.cfg.dataShards))
    ensures var t := Run(link, batches, s, Burst(b, lo, link.cfg.dataShards));
            Sound(link, batches, t) && b !in t.pending && YieldsOf(t.outputs, b) == YieldsOf(s.outputs, b) + 1
  {
    hide Step, Sound, Arriving, Elapsed, YieldsOf;
    var n := link.cfg.dataShards;
    var init, last := Burst(b, lo, n - 1), Deliver(b, lo + n - 1);
    assert Burst(b, lo, n)[..n - 1] == init && Burst(b, lo, n)[n - 1] == last;
    BurstArrives(b, lo, n - 1);
    assert WithinLifetime(init, b);
    NthDistinctShardYields(link, batches, s, init, b, lo + n - 1);
    StepSound(link, batches, Run(link, batches, s, init), last);
    YieldsOfSnoc(Run(link, batches, s, init).outputs, Output(b, Payloads(KeptAll(batches[b]))), b);
  }

  lemma {:induction false} RunConcat(link: Link, batches: seq<seq<Data>>, s: Rx, e: seq<Event>, f: seq<Event>)
    requires link.Valid() && link.Batches(batches) && AllEnabled(link, batches, e) && AllEnabled(link, batches, f)
    ensures AllEnabled(link, batches, e + f)
    ensures Run(link, batches, s, e + f) == Run(link, batches, Run(link, batches, s, e), f)
    decreases |f|
  {
    hide Step;
    if f == [] {
      assert e + f == e;
    } else {
      var g := f[..|f| - 1];
      RunConcat(link, batches, s, e, g);
      assert (e + f)[..|e + f| - 1] == e + g;
    }
  }

  /** With as much parity as data, a block can be yielded twice without any shard repeated: the late shards
      alone are enough to rebuild it. */
  lemma YieldedTwice(link: Link, batches: seq<seq<Data>>, b: nat) returns (events: seq<Event>)
    requires link.Valid() && link.Batches(batches) && b < |batches|
    requires link.cfg.parityShards >= link.cfg.dataShards
    ensures AllEnabled(link, batches, events) && NoDuplicates(events, b)
    ensures YieldsOf(Run(link, batches, START, events).outputs, b) == 2
  {
    hide Step, Sound, Run;
    var n := link.cfg.dataShards;
    StartSound(link, batches);
    StartYieldsNothing(b);
    BurstYields(link, batches, START, b, 0);
    BurstYields(link, batches, Run(link, batches, START, Burst(b, 0, n)), b, n);
    RunConcat(link, batches, START, Burst(b, 0, n), Burst(b, n, n));
    events := Burst(b, 0, n) + Burst(b, n, n);
  }

  /** So: no repeated shard means no repeated block exactly when there is less parity than data. */
  lemma AtMostOnceExactly(link: Link, batches: seq<seq<Data>>, b: nat)
    requires link.Valid() && link.Batches(batches) && b < |batches|
    ensures link.cfg.parityShards < link.cfg.dataShards <==>
      (forall events {:trigger AllEnabled(link, batches, events)} ::
         AllEnabled(link, batches, events) && NoDuplicates(events, b) ==>
           YieldsOf(Run(link, batches, START, events).outputs, b) <= 1)
  {
    hide Run, YieldsOf;
    if link.cfg.parityShards < link.cfg.dataShards {
      forall events {:trigger AllEnabled(link, batches, events)} |
        AllEnabled(link, batches, events) && NoDuplicates(events, b)
        ensures YieldsOf(Run(link, batches, START, events).outputs, b) <= 1
      {
        YieldedAtMostOnce(link, batches, events, b);
      }
    } else {
      var events := YieldedTwice(link, batches, b);
    }
  }
}
