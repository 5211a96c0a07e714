/** One link with the 16-bit block ids that frames carry, against the same link with unbounded ones. */
module FecWraps {
  import opened Bytes
  import opened ErasureCode
  import opened FecCodec
  import opened FecBlocks
  import opened FecRuns

  /** The receiver as it is: it sees frames, and keys blocks by the 16-bit id in them. */
  ghost function WireStep(link: Link, batches: seq<seq<Data>>, s: Rx, e: Event): Rx
    requires link.Valid() && link.Batches(batches) && link.Enabled(batches, e)
  {
    match e
    case Deliver(b, i) =>
      FrameIsAccepted(link.code, link.cfg, b % U16, batches[b], i, s.pending, s.now);
      var (pending, o) := Receive(link.code, s.pending,
                                  BlockFrames(link.code, link.cfg, b % U16, batches[b])[i].1, s.now);
      Rx(pending, s.now, Note(s.outputs, b, o))
    case Tick(dt) => s.(now := s.now + dt)
    case Expire => s.(pending := Unexpired(s.pending, MAX_AGE_MS, s.now))
  }

  ghost function WireRun(link: Link, batches: seq<seq<Data>>, s: Rx, events: seq<Event>): Rx
    requires link.Valid() && link.Batches(batches) && AllEnabled(link, batches, events)
    decreases |events|
  {
    if events == [] then s
    else WireStep(link, batches, WireRun(link, batches, s, events[..|events| - 1]), events[|events| - 1])
  }

  /** `wire` holds the same half-filled blocks as `ideal`, under ids that tell them apart. */
  ghost predicate Rekeyed(ideal: map<nat, Pending>, wire: map<nat, Pending>) {
    && (forall b :: b in ideal ==> b % U16 in wire && wire[b % U16] == ideal[b])
    && (forall id :: id in wire ==> exists b :: b in ideal && b % U16 == id)
    && (forall b, b' :: b in ideal && b' in ideal && b % U16 == b' % U16 ==> b == b')
  }

  ghost predicate Alike(ideal: Rx, wire: Rx) {
    wire.now == ideal.now && Rekeyed(ideal.pending, wire.pending)
  }

  ghost predicate Matches(ideal: Rx, wire: Rx) {
    Alike(ideal, wire) && wire.outputs == ideal.outputs
  }

  /** No leftover of another block with the same id is still held when a shard of `e`'s block arrives. */
  ghost predicate NoLeftover(ideal: Rx, e: Event) {
    e.Deliver? ==> forall b :: b in ideal.pending && b % U16 == e.b % U16 ==> b == e.b
  }

  lemma RekeyedUpdate(ideal: map<nat, Pending>, wire: map<nat, Pending>, b: nat, p: Pending)
    requires Rekeyed(ideal, wire) && forall c :: c in ideal && c % U16 == b % U16 ==> c == b
    ensures Rekeyed(ideal[b := p], wire[b % U16 := p])
  {
    var m, w := ideal[b := p], wire[b % U16 := p];
    forall id | id in w ensures exists c :: c in m && c % U16 == id {
      if id == b % U16 {
        assert b in m;
      } else {
        var c :| c in ideal && c % U16 == id;
        assert c in m;
      }
    }
  }

  lemma RekeyedRemove(ideal: map<nat, Pending>, wire: map<nat, Pending>, b: nat)
    requires Rekeyed(ideal, wire) && forall c :: c in ideal && c % U16 == b % U16 ==> c == b
    ensures Rekeyed(ideal - {b}, wire - {b % U16})
  {
    var m, w := ideal - {b}, wire - {b % U16};
    forall id | id in w ensures exists c :: c in m && c % U16 == id {
      var c :| c in ideal && c % U16 == id;
      assert c in m;
    }
  }

  lemma RekeyedLookup(ideal: map<nat, Pending>, wire: map<nat, Pending>, b: nat)
    requires Rekeyed(ideal, wire) && forall c :: c in ideal && c % U16 == b % U16 ==> c == b
    ensures b in ideal <==> b % U16 in wire
    ensures b in ideal ==> wire[b % U16] == ideal[b]
  {
  }

  lemma AcceptMatches(link: Link, ideal: Rx, wire: Rx, b: nat, i: nat, shard: Data)
    requires Alike(ideal, wire) && NoLeftover(ideal, Deliver(b, i))
    ensures var (n, k) := (link.cfg.dataShards, link.cfg.parityShards);
            var (p, o) := Accept(link.code, ideal.pending, b, i, n, k, shard, ideal.now);
            var (p', o') := Accept(link.code, wire.pending, b % U16, i, n, k, shard, wire.now);
            o == o' && Rekeyed(p, p')
  {
    hide Inserted, Reconstructed, Rekeyed, NewPending;
    RekeyedLookup(ideal.pending, wire.pending, b);
    var p := Inserted(if b in ideal.pending then ideal.pending[b]
                      else NewPending(link.cfg.dataShards, link.cfg.parityShards, ideal.now), i, shard);
    RekeyedUpdate(ideal.pending, wire.pending, b, p);
    RekeyedRemove(ideal.pending, wire.pending, b);
  }

  lemma ExpireMatches(ideal: map<nat, Pending>, wire: map<nat, Pending>, now: Nanos)
    requires Rekeyed(ideal, wire)
    ensures Rekeyed(Unexpired(ideal, MAX_AGE_MS, now), Unexpired(wire, MAX_AGE_MS, now))
  {
    var m, w := Unexpired(ideal, MAX_AGE_MS, now), Unexpired(wire, MAX_AGE_MS, now);
    forall id | id in w ensures exists b :: b in m && b % U16 == id {
      var b :| b in ideal && b % U16 == id;
      assert b in m;
    }
  }

  /** One step of both receivers: they stay alike and yield the same. */
  lemma WireStepAlike(link: Link, batches: seq<seq<Data>>, ideal: Rx, wire: Rx, e: Event) returns (gain: seq<Output>)
    requires link.Valid() && link.Batches(batches) && link.Enabled(batches, e)
    requires Alike(ideal, wire) && NoLeftover(ideal, e)
    ensures Alike(Step(link, batches, ideal, e), WireStep(link, batches, wire, e))
    ensures Step(link, batches, ideal, e).outputs == ideal.outputs + gain
    ensures WireStep(link, batches, wire, e).outputs == wire.outputs + gain
  {
    hide Accept, Receive, Rekeyed, Unexpired, BlockWord, BlockFrames;
    gain := [];
    match e
    case Deliver(b, i) =>
      FrameIsAccepted(link.code, link.cfg, b % U16, batches[b], i, wire.pending, wire.now);
      BlockWordShape(link.code, link.cfg, batches[b]);
      var shard := BlockWord(link.code, link.cfg, batches[b])[i];
      AcceptMatches(link, ideal, wire, b, i, shard);
      var o := Accept(link.code, ideal.pending, b, i, link.cfg.dataShards, link.cfg.parityShards, shard, ideal.now).1;
      gain := Note([], b, o);
    case Tick(_) =>
    case Expire =>
      ExpireMatches(ideal.pending, wire.pending, ideal.now);
  }

  lemma WireStepMatches(link: Link, batches: seq<seq<Data>>, ideal: Rx, wire: Rx, e: Event)
    requires link.Valid() && link.Batches(batches) && link.Enabled(batches, e)
    requires Matches(ideal, wire) && NoLeftover(ideal, e)
    ensures Matches(Step(link, batches, ideal, e), WireStep(link, batches, wire, e))
  {
    hide Step, WireStep, Alike, NoLeftover;
    var gain := WireStepAlike(link, batches, ideal, wire, e);
  }

  /** Wrapping ids refine unbounded ones: as long as the leftovers of a block, late shards included, are gone
      when the next block with its id starts arriving, nothing the receiver yields differs. */
  lemma {:induction false} WrappingRefines(link: Link, batches: seq<seq<Data>>, events: seq<Event>)
    requires link.Valid() && link.Batches(batches) && AllEnabled(link, batches, events)
    requires forall j {:trigger events[..j]} :: 0 <= j < |events| ==>
      NoLeftover(Run(link, batches, START, events[..j]), events[j])
    ensures Matches(Run(link, batches, START, events), WireRun(link, batches, START, events))
    decreases |events|
  {
    if events != [] {
      var n := |events| - 1;
      forall j | 0 <= j < n
        ensures NoLeftover(Run(link, batches, START, events[..n][..j]), events[..n][j])
      {
        assert events[..n][..j] == events[..j];
      }
      WrappingRefines(link, batches, events[..n]);
      WireStepMatches(link, batches, Run(link, batches, START, events[..n]),
                      WireRun(link, batches, START, events[..n]), events[n]);
    }
  }

  // ----- when there are never leftovers -----

  /** Before the ids wrap, and where every shard is a block of its own, no leftover ever meets its id. */
  lemma NeverLeftover(link: Link, batches: seq<seq<Data>>, s: Rx, e: Event)
    requires link.Batches(batches) && Unmixed(link, batches, s) && link.Enabled(batches, e)
    requires |batches| <= U16 || link.cfg.dataShards == 1
    ensures NoLeftover(s, e)
  {
    hide Collects, Present;
  }

  /** So the real receiver is sound without a condition on the run. */
  lemma SoundBeforeWrap(link: Link, batches: seq<seq<Data>>, events: seq<Event>)
    requires link.Valid() && link.Batches(batches) && AllEnabled(link, batches, events)
    requires |batches| <= U16 || link.cfg.dataShards == 1
    ensures WireRun(link, batches, START, events).outputs == Run(link, batches, START, events).outputs
    ensures Sound(link, batches, Run(link, batches, START, events))
  {
    hide Unmixed, Run, WireRun, NoLeftover;
    StartSound(link, batches);
    forall j {:trigger events[..j]} | 0 <= j < |events|
      ensures NoLeftover(Run(link, batches, START, events[..j]), events[j])
    {
      RunSound(link, batches, START, events[..j]);
      NeverLeftover(link, batches, Run(link, batches, START, events[..j]), events[j]);
    }
    WrappingRefines(link, batches, events);
    RunSound(link, batches, START, events);
  }

  /** Between shards of different blocks with the same id, the timer fires 500 ms or more after the first. */
  ghost predicate CleanGaps(events: seq<Event>) {
    forall i, j :: 0 <= i < j < |events| && Clash(events[i], events[j]) ==> Cleared(events, i, j)
  }

  predicate Clash(e: Event, f: Event) {
    e.Deliver? && f.Deliver? && e.b != f.b && e.b % U16 == f.b % U16
  }

  ghost predicate Cleared(events: seq<Event>, i: nat, j: nat)
    requires i <= j <= |events|
  {
    exists m :: i < m < j && events[m] == Expire && Elapsed(events[..m]) - Elapsed(events[..i]) >= 500_000_000
  }

  /** A block that is held since `at` got a shard then, and no later firing of the timer has found it old. */
  ghost predicate HeldSince(events: seq<Event>, b: nat, at: Nanos) {
    exists i :: 0 <= i < |events| && events[i].Deliver? && events[i].b == b && at == Elapsed(events[..i])
                && !Cleared(events, i, |events|)
  }

  lemma {:induction false} ClearedLater(events: seq<Event>, longer: seq<Event>, i: nat, j: nat)
    requires i <= j <= |events| <= |longer| && longer[..|events|] == events
    ensures Cleared(events, i, j) <==> Cleared(longer, i, j)
  {
    assert forall m :: 0 <= m < j ==> longer[m] == events[m] && longer[..m] == events[..m];
  }

  lemma NewlyHeld(events: seq<Event>, e: Event)
    requires e.Deliver?
    ensures HeldSince(events + [e], e.b, Elapsed(events))
  {
    var longer := events + [e];
    assert longer[|events|] == e && longer[..|events|] == events;
    assert !Cleared(longer, |events|, |longer|);
  }

  lemma ClearedNow(events: seq<Event>, e: Event, i: nat)
    requires i <= |events|
    ensures Cleared(events + [e], i, |events| + 1) ==>
      Cleared(events, i, |events|) || (e == Expire && Elapsed(events) - Elapsed(events[..i]) >= 500_000_000)
  {
    hide Elapsed;
    var longer := events + [e];
    assert longer[..i] == events[..i] && longer[..|events|] == events;
    ClearedLater(events, longer, i, |events|);
    if m :| i < m < |longer| && longer[m] == Expire && Elapsed(longer[..m]) - Elapsed(longer[..i]) >= 500_000_000 {
      assert m < |events| ==> Cleared(longer, i, |events|);
    }
  }

  lemma StillHeld(events: seq<Event>, e: Event, b: nat, at: Nanos)
    requires HeldSince(events, b, at) && (e == Expire ==> Elapsed(events) - at < 500_000_000)
    ensures HeldSince(events + [e], b, at)
  {
    hide Elapsed;
    var longer := events + [e];
    var i :| 0 <= i < |events| && events[i].Deliver? && events[i].b == b && at == Elapsed(events[..i])
             && !Cleared(events, i, |events|);
    assert longer[..|events|] == events && longer[i] == events[i] && longer[..i] == events[..i];
    ClearedNow(events, e, i);
  }

  /** The pending map after one arrival: nothing new but the shard's own block. */
  lemma StepHolds(link: Link, batches: seq<seq<Data>>, s: Rx, e: Event, b: nat)
    requires link.Valid() && link.Batches(batches) && link.Enabled(batches, e)
    requires var s' := Step(link, batches, s, e); b in s'.pending
    ensures var s' := Step(link, batches, s, e);
            && (b in s.pending ==> s'.pending[b].createdAt == s.pending[b].createdAt)
            && (b !in s.pending ==> e.Deliver? && e.b == b && s'.pending[b].createdAt == s.now)
            && (e == Expire ==> s.now - s'.pending[b].createdAt < 500_000_000)
  {
    hide Reconstructed, BlockWord;
  }

  /** A firing of the timer leaves the real receiver exactly the half-filled blocks of less than 500 ms, as they
      are. */
  lemma TimerLeavesExactly(link: Link, batches: seq<seq<Data>>, s: Rx, id: nat)
    requires link.Valid() && link.Batches(batches)
    ensures var s' := WireStep(link, batches, s, Expire);
            && s'.now == s.now && s'.outputs == s.outputs
            && (id in s'.pending <==> id in s.pending && s.now - s.pending[id].createdAt < 500_000_000)
            && (id in s'.pending ==> s'.pending[id] == s.pending[id])
  {
    StaysExactly(s.pending, MAX_AGE_MS, s.now, id);
  }

  lemma StepClock(link: Link, batches: seq<seq<Data>>, s: Rx, e: Event)
    requires link.Valid() && link.Batches(batches) && link.Enabled(batches, e)
    ensures Step(link, batches, s, e).now == s.now + (if e.Tick? then e.dt else 0)
  {
    hide Accept, BlockWord;
  }

  lemma {:induction false} PendingIsRecent(link: Link, batches: seq<seq<Data>>, events: seq<Event>, b: nat)
    requires link.Valid() && link.Batches(batches) && AllEnabled(link, batches, events)
    ensures Run(link, batches, START, events).now == Elapsed(events)
    ensures var s := Run(link, batches, START, events); b in s.pending ==> HeldSince(events, b, s.pending[b].createdAt)
    decreases |events|
  {
    hide Step, HeldSince, Elapsed;
    if events == [] {
      assert Elapsed([]) == 0 by { NoTime(); }
    } else {
      var init, e := events[..|events| - 1], events[|events| - 1];
      assert events == init + [e];
      PendingIsRecent(link, batches, init, b);
      OneMore(init, e, b);
      var s := Run(link, batches, START, init);
      var s' := Step(link, batches, s, e);
      StepClock(link, batches, s, e);
      if b in s'.pending {
        StepHolds(link, batches, s, e, b);
        if b in s.pending {
          StillHeld(init, e, b, s.pending[b].createdAt);
        } else {
          NewlyHeld(init, e);
        }
      }
    }
  }

  lemma NoTime()
    ensures Elapsed([]) == 0
  {
  }

  /** A condition on the traffic alone: clean gaps between blocks with the same id are enough. */
  lemma CleanGapsSuffice(link: Link, batches: seq<seq<Data>>, events: seq<Event>)
    requires link.Valid() && link.Batches(batches) && AllEnabled(link, batches, events) && CleanGaps(events)
    ensures WireRun(link, batches, START, events).outputs == Run(link, batches, START, events).outputs
  {
    hide Run, WireRun, NoLeftover, CleanGaps;
    forall j {:trigger events[..j]} | 0 <= j < |events|
      ensures NoLeftover(Run(link, batches, START, events[..j]), events[j])
    {
      GapIsClean(link, batches, events, j);
    }
    WrappingRefines(link, batches, events);
  }

  lemma GapCleared(events: seq<Event>, i: nat, j: nat)
    requires CleanGaps(events) && i < j < |events|
    ensures Clash(events[i], events[j]) ==> Cleared(events, i, j)
  {
  }

  lemma GapIsClean(link: Link, batches: seq<seq<Data>>, events: seq<Event>, j: nat)
    requires link.Valid() && link.Batches(batches) && AllEnabled(link, batches, events) && CleanGaps(events)
    requires j < |events|
    ensures NoLeftover(Run(link, batches, START, events[..j]), events[j])
  {
    hide Run, Elapsed, Cleared;
    var s := Run(link, batches, START, events[..j]);
    if events[j].Deliver? {
      forall b | b in s.pending && b % U16 == events[j].b % U16 ensures b == events[j].b {
        PendingIsRecent(link, batches, events[..j], b);
        var i :| 0 <= i < j && events[..j][i].Deliver? && events[..j][i].b == b && !Cleared(events[..j], i, j);
        ClearedLater(events[..j], events, i, j);
        GapCleared(events, i, j);
      }
    }
  }

  lemma CleanPrefix(events: seq<Event>, e: Event)
    requires CleanGaps(events + [e])
    ensures CleanGaps(events)
  {
    hide Cleared, Clash;
    var longer := events + [e];
    forall i, j | 0 <= i < j < |events| && Clash(events[i], events[j]) ensures Cleared(events, i, j) {
      assert longer[i] == events[i] && longer[j] == events[j] && longer[..|events|] == events;
      ClearedLater(events, longer, i, j);
    }
  }

  /** Before the ids wrap no two blocks clash. */
  lemma ShortIsClean(link: Link, batches: seq<seq<Data>>, events: seq<Event>)
    requires AllEnabled(link, batches, events) && |batches| <= U16
    ensures CleanGaps(events)
  {
    forall i, j | 0 <= i < j < |events| ensures !Clash(events[i], events[j]) {
      assert link.Enabled(batches, events[i]) && link.Enabled(batches, events[j]);
    }
  }

  lemma NextIsClean(link: Link, batches: seq<seq<Data>>, events: seq<Event>, e: Event)
    requires link.Valid() && link.Batches(batches) && AllEnabled(link, batches, events) && link.Enabled(batches, e)
    requires link.cfg.dataShards == 1 || CleanGaps(events + [e])
    ensures NoLeftover(Run(link, batches, START, events), e)
  {
    hide Run, CleanGaps, NoLeftover, Unmixed;
    StartSound(link, batches);
    RunSound(link, batches, START, events);
    if link.cfg.dataShards == 1 {
      NeverLeftover(link, batches, Run(link, batches, START, events), e);
    } else {
      GapIsClean(link, batches, events + [e], |events|);
      assert (events + [e])[..|events|] == events;
    }
  }

  /** The timer has cleared everything but, perhaps, block `b`. */
  ghost predicate Rested(events: seq<Event>, b: nat) {
    exists m :: 0 <= m < |events| && RestedSince(events, b, m)
  }

  ghost predicate RestedSince(events: seq<Event>, b: nat, m: nat)
    requires m < |events|
  {
    && events[m] == Expire
    && (forall i :: 0 <= i < m && events[i].Deliver? ==>
          Elapsed(events[..m]) - Elapsed(events[..i]) >= 500_000_000)
    && (forall i :: m < i < |events| && events[i].Deliver? ==> events[i].b == b)
  }

  /** Then shards of that block leave the gaps clean. */
  lemma RestedStaysClean(events: seq<Event>, b: nat, i: nat)
    requires Rested(events, b)
    ensures Rested(events + [Deliver(b, i)], b)
    ensures CleanGaps(events) ==> CleanGaps(events + [Deliver(b, i)])
  {
    hide Elapsed, Clash;
    var longer := events + [Deliver(b, i)];
    var m :| 0 <= m < |events| && RestedSince(events, b, m);
    assert longer[..|events|] == events && longer[..m] == events[..m];
    assert forall k :: 0 <= k < m ==> longer[..k] == events[..k];
    assert RestedSince(longer, b, m);
    if CleanGaps(events) {
      forall k, j | 0 <= k < j < |longer| && Clash(longer[k], longer[j]) ensures Cleared(longer, k, j) {
        if j < |events| {
          GapCleared(events, k, j);
          ClearedLater(events, longer, k, j);
        } else {
          RestedClears(longer, b, m, k);
        }
      }
    }
  }

  lemma RestedClears(events: seq<Event>, b: nat, m: nat, k: nat)
    requires k < |events| - 1 && m < |events| - 1 && RestedSince(events, b, m)
    requires Clash(events[k], events[|events| - 1])
    ensures Cleared(events, k, |events| - 1)
  {
    hide Elapsed;
  }

  lemma {:induction false} ElapsedGrows(events: seq<Event>, i: nat)
    requires i <= |events|
    ensures Elapsed(events[..i]) <= Elapsed(events)
    decreases |events|
  {
    if i < |events| {
      ElapsedGrows(events[..|events| - 1], i);
      assert events[..|events| - 1][..i] == events[..i];
    } else {
      assert events[..i] == events;
    }
  }

  /** 500 ms without traffic and a firing of the timer. */
  lemma WaitingRests(events: seq<Event>, b: nat)
    ensures var longer := events + [Tick(500_000_000)] + [Expire];
            Rested(longer, b) && (CleanGaps(events) ==> CleanGaps(longer))
  {
    hide Elapsed, CleanGaps;
    var wait := Tick(500_000_000);
    var mid := events + [wait];
    var longer := mid + [Expire];
    OneMore(events, wait, b);
    assert longer[..|mid|] == mid;
    forall i | 0 <= i < |mid| && longer[i].Deliver?
      ensures Elapsed(mid) - Elapsed(longer[..i]) >= 500_000_000
    {
      ElapsedGrows(events, i);
      assert longer[..i] == events[..i];
    }
    assert RestedSince(longer, b, |mid|);
    if CleanGaps(events) {
      TimersStayClean(events, wait);
      TimersStayClean(mid, Expire);
    }
  }

  lemma TimersStayClean(events: seq<Event>, e: Event)
    requires CleanGaps(events) && !e.Deliver?
    ensures CleanGaps(events + [e])
  {
    var longer := events + [e];
    forall k, j | 0 <= k < j < |longer| && Clash(longer[k], longer[j]) ensures Cleared(longer, k, j) {
      assert longer[..|events|] == events;
      GapCleared(events, k, j);
      ClearedLater(events, longer, k, j);
    }
  }

  // ----- what happens otherwise -----

  /** Shard 0 of block 0, then the `c` - 1 shards from `lo` on of block 65536, which has the same id. */
  function Mixture(lo: nat, c: nat): (e: seq<Event>)
    requires c >= 1
  {
    [Deliver(0, 0)] + Burst(U16, lo, c - 1)
  }

  lemma MixtureSnoc(lo: nat, c: nat)
    requires c >= 1
    ensures Mixture(lo, c + 1) == Mixture(lo, c) + [Deliver(U16, lo + c - 1)]
    ensures Mixture(lo, 1) == [Deliver(0, 0)]
  {
    assert Burst(U16, lo, c) == Burst(U16, lo, c - 1) + [Deliver(U16, lo + c - 1)];
  }

  ghost predicate Wraps(link: Link, batches: seq<seq<Data>>) {
    link.Valid() && link.Batches(batches) && |batches| > U16 && link.cfg.dataShards >= 2
  }

  ghost function MixedShard(link: Link, batches: seq<seq<Data>>, i: nat): Data
    requires Wraps(link, batches) && i < link.cfg.dataShards + link.cfg.parityShards
  {
    BlockWordShape(link.code, link.cfg, batches[0]);
    BlockWordShape(link.code, link.cfg, batches[U16]);
    BlockWord(link.code, link.cfg, batches[if i == 0 then 0 else U16])[i]
  }

  /** Shard `i` is among the first `c` of the mixture. */
  predicate Taken(lo: nat, c: nat, i: nat) {
    c >= 1 && (i == 0 || lo <= i < lo + c - 1)
  }

  /** A half-filled block with the first `c` shards of the mixture. */
  ghost predicate Mixed(link: Link, batches: seq<seq<Data>>, p: Pending, lo: nat, c: nat)
    requires Wraps(link, batches)
  {
    && p.dataShards == link.cfg.dataShards && p.parityShards == link.cfg.parityShards && p.received == c
    && |p.shards| == link.cfg.dataShards + link.cfg.parityShards
    && forall i :: 0 <= i < |p.shards| ==>
         p.shards[i] == if Taken(lo, c, i) then Some(MixedShard(link, batches, i)) else None
  }

  lemma MixtureEnabled(link: Link, batches: seq<seq<Data>>, lo: nat, c: nat)
    requires Wraps(link, batches) && c >= 1 && lo + c - 1 <= link.cfg.dataShards + link.cfg.parityShards
    ensures AllEnabled(link, batches, Mixture(lo, c))
  {
  }

  /** The index of the mixture's next shard. */
  function MixedIndex(lo: nat, c: nat): nat {
    if c == 0 then 0 else lo + c - 1
  }

  /** One more shard of the mixture arrives at the real receiver. */
  lemma WireMixesOne(link: Link, batches: seq<seq<Data>>, pending: map<nat, Pending>, outputs: seq<Output>, p: Pending,
                     lo: nat, c: nat)
    requires Wraps(link, batches) && c < link.cfg.dataShards && Mixed(link, batches, p, lo, c)
    requires 1 <= lo <= link.cfg.parityShards + 1
    requires pending == (if c == 0 then map[] else map[0 := p]) && (c == 0 ==> p.createdAt == 0)
    ensures var i := MixedIndex(lo, c);
            var p' := Inserted(p, i, MixedShard(link, batches, i));
            var s' := WireStep(link, batches, Rx(pending, 0, outputs), Deliver(if c == 0 then 0 else U16, i));
            Mixed(link, batches, p', lo, c + 1)
            && s' == if c + 1 < link.cfg.dataShards then Rx(map[0 := p'], 0, outputs)
                     else Rx(map[], 0, Note(outputs, U16, Reconstructed(link.code, p')))
  {
    hide BlockWord, BlockFrames, Receive, Reconstructed;
    var b, i := if c == 0 then 0 else U16, MixedIndex(lo, c);
    FrameIsAccepted(link.code, link.cfg, b % U16, batches[b], i, pending, 0);
    if c == 0 {
      assert p == NewPending(link.cfg.dataShards, link.cfg.parityShards, 0);
    }
    var p' := Inserted(p, i, MixedShard(link, batches, i));
    assert pending - {0} == map[];
    assert pending[0 := p'] == map[0 := p'];
  }

  lemma {:induction false} WireMixes(link: Link, batches: seq<seq<Data>>, lo: nat, c: nat) returns (p: Pending)
    requires Wraps(link, batches) && 1 <= c < link.cfg.dataShards && 1 <= lo <= link.cfg.parityShards + 1
    ensures AllEnabled(link, batches, Mixture(lo, c)) && Mixed(link, batches, p, lo, c)
    ensures WireRun(link, batches, START, Mixture(lo, c)) == Rx(map[0 := p], 0, [])
    decreases c
  {
    hide WireStep, Inserted, Mixture, MixedShard;
    MixtureEnabled(link, batches, lo, c);
    MixtureSnoc(lo, c);
    if c == 1 {
      p := NewPending(link.cfg.dataShards, link.cfg.parityShards, 0);
      WireMixesOne(link, batches, map[], [], p, lo, 0);
      assert [Deliver(0, 0)][..0] == [];
      p := Inserted(p, 0, MixedShard(link, batches, 0));
    } else {
      MixtureSnoc(lo, c - 1);
      MixtureEnabled(link, batches, lo, c - 1);
      p := WireMixes(link, batches, lo, c - 1);
      var i := MixedIndex(lo, c - 1);
      WireMixesOne(link, batches, map[0 := p], [], p, lo, c - 1);
      assert (Mixture(lo, c - 1) + [Deliver(U16, i)])[..|Mixture(lo, c - 1)|] == Mixture(lo, c - 1);
      p := Inserted(p, i, MixedShard(link, batches, i));
    }
  }

  /** The real receiver takes the whole mixture for one block. */
  lemma WireTakesMixture(link: Link, batches: seq<seq<Data>>, lo: nat) returns (p: Pending)
    requires Wraps(link, batches) && 1 <= lo <= link.cfg.parityShards + 1
    ensures var n := link.cfg.dataShards;
            && AllEnabled(link, batches, Mixture(lo, n)) && Mixed(link, batches, p, lo, n)
            && WireRun(link, batches, START, Mixture(lo, n)) == Rx(map[], 0, Note([], U16, Reconstructed(link.code, p)))
  {
    hide WireStep, Inserted, Mixture, MixedShard, Reconstructed;
    var n := link.cfg.dataShards;
    var i := MixedIndex(lo, n - 1);
    MixtureEnabled(link, batches, lo, n);
    MixtureSnoc(lo, n - 1);
    p := WireMixes(link, batches, lo, n - 1);
    WireMixesOne(link, batches, map[0 := p], [], p, lo, n - 1);
    assert (Mixture(lo, n - 1) + [Deliver(U16, i)])[..|Mixture(lo, n - 1)|] == Mixture(lo, n - 1);
    p := Inserted(p, i, MixedShard(link, batches, i));
  }

  lemma OneMoreArrival(events: seq<Event>, e: Event, b: nat)
    ensures Arrivals(events + [e], b) == Arrivals(events, b) + (if e.Deliver? && e.b == b then 1 else 0)
  {
    assert (events + [e])[..|events|] == events;
  }

  lemma BelowStep(c: nat)
    requires c >= 2
    ensures Below(c) - {0} == (Below(c - 1) - {0}) + {c - 1}
  {
    assert forall i :: i in Below(c) <==> i in Below(c - 1) + {c - 1};
  }

  lemma FirstArrives(b: nat)
    ensures Arrivals(Mixture(1, 1), b) == if b == 0 then 1 else 0
    ensures Arriving(Mixture(1, 1), U16) == Below(1) - {0}
  {
    MixtureSnoc(1, 1);
    var none: seq<Event> := [];
    OneMoreArrival(none, Deliver(0, 0), b);
    OneMore(none, Deliver(0, 0), U16);
    assert none + [Deliver(0, 0)] == [Deliver(0, 0)];
    assert Below(1) == {0};
  }

  lemma {:induction false} MixtureArrives(c: nat, b: nat)
    requires c >= 1
    ensures Arrivals(Mixture(1, c), b) == if b == 0 then 1 else if b == U16 then c - 1 else 0
    ensures Arriving(Mixture(1, c), U16) == Below(c) - {0}
    decreases c
  {
    hide Mixture, Arrivals, Arriving, Elapsed, Below;
    if c == 1 {
      FirstArrives(b);
    } else {
      MixtureSnoc(1, c - 1);
      MixtureArrives(c - 1, b);
      OneMoreArrival(Mixture(1, c - 1), Deliver(U16, c - 1), b);
      OneMore(Mixture(1, c - 1), Deliver(U16, c - 1), U16);
      BelowStep(c);
    }
  }

  lemma NoYields(outputs: seq<Output>)
    requires forall b :: YieldsOf(outputs, b) == 0
    ensures outputs == []
  {
    if outputs != [] {
      assert YieldsOf(outputs, outputs[|outputs| - 1].block) > 0;
    }
  }

  lemma NoneOf(n: nat, y: nat)
    requires n * y < n
    ensures y == 0
  {
    if y >= 1 {
      MulAtLeast(n, y);
    }
  }

  /** Unbounded ids yield nothing of the mixture, and the block's batch on one more shard. */
  lemma IdealWaits(link: Link, batches: seq<seq<Data>>)
    requires Wraps(link, batches)
    ensures var n := link.cfg.dataShards;
            AllEnabled(link, batches, Mixture(1, n + 1)) && AllEnabled(link, batches, Mixture(1, n))
            && Run(link, batches, START, Mixture(1, n)).outputs == []
            && Run(link, batches, START, Mixture(1, n + 1)).outputs == [Output(U16, Payloads(KeptAll(batches[U16])))]
  {
    hide Step, Unmixed, YieldsOf, Mixture, KeptAll;
    var n := link.cfg.dataShards;
    MixtureEnabled(link, batches, 1, n);
    MixtureEnabled(link, batches, 1, n + 1);
    StartSound(link, batches);
    var s := Run(link, batches, START, Mixture(1, n));
    forall b ensures YieldsOf(s.outputs, b) == 0 {
      EmissionBound(link, batches, Mixture(1, n), b);
      MixtureArrives(n, b);
      NoneOf(n, YieldsOf(s.outputs, b));
    }
    NoYields(s.outputs);
    MixtureArrives(n, U16);
    assert Below(n) == (Below(n) - {0}) + {0};
    assert WithinLifetime(Mixture(1, n), U16) by { NoTimer(n); }
    NthDistinctShardYields(link, batches, START, Mixture(1, n), U16, n);
    MixtureSnoc(1, n);
    assert (Mixture(1, n) + [Deliver(U16, n)])[..|Mixture(1, n)|] == Mixture(1, n);
  }

  lemma NoTimer(c: nat)
    requires c >= 1
    ensures WithinLifetime(Mixture(1, c), U16)
  {
  }

  /** One shard of block 65536 more: the real receiver has just begun to collect. */
  lemma WireWaits(link: Link, batches: seq<seq<Data>>)
    requires Wraps(link, batches) && AllEnabled(link, batches, Mixture(1, link.cfg.dataShards))
    requires WireRun(link, batches, START, Mixture(1, link.cfg.dataShards)) == Rx(map[], 0, [])
    ensures AllEnabled(link, batches, Mixture(1, link.cfg.dataShards + 1))
    ensures WireRun(link, batches, START, Mixture(1, link.cfg.dataShards + 1)).outputs == []
  {
    hide Mixture, BlockFrames, BlockWord, Receive, Reconstructed;
    var n := link.cfg.dataShards;
    MixtureEnabled(link, batches, 1, n + 1);
    MixtureSnoc(1, n);
    FrameIsAccepted(link.code, link.cfg, U16 % U16, batches[U16], n, map[], 0);
    assert (Mixture(1, n) + [Deliver(U16, n)])[..|Mixture(1, n)|] == Mixture(1, n);
  }

  /** On every link that numbers more than 65536 blocks of two shards or more, whatever they contain, some run
      makes the real receiver yield what the ideal one does not, or nothing where the ideal one yields. */
  lemma WrapShows(link: Link, batches: seq<seq<Data>>) returns (events: seq<Event>)
    requires Wraps(link, batches)
    ensures AllEnabled(link, batches, events)
    ensures WireRun(link, batches, START, events).outputs != Run(link, batches, START, events).outputs
  {
    hide Run, WireRun, Mixture, Reconstructed, Mixed;
    var n := link.cfg.dataShards;
    var p := WireTakesMixture(link, batches, 1);
    IdealWaits(link, batches);
    if Reconstructed(link.code, p) == Nothing {
      WireWaits(link, batches);
      events := Mixture(1, n + 1);
    } else {
      events := Mixture(1, n);
    }
  }

  /** So 16-bit ids are as good as unbounded ones in every run exactly when at most 65536 blocks are numbered,
      or every shard is a block of its own. */
  lemma WrapExactly(link: Link, batches: seq<seq<Data>>)
    requires link.Valid() && link.Batches(batches)
    ensures |batches| <= U16 || link.cfg.dataShards == 1 <==>
      (forall events {:trigger AllEnabled(link, batches, events)} :: AllEnabled(link, batches, events) ==>
         WireRun(link, batches, START, events).outputs == Run(link, batches, START, events).outputs)
  {
    hide Run, WireRun;
    if |batches| <= U16 || link.cfg.dataShards == 1 {
      forall events {:trigger AllEnabled(link, batches, events)} | AllEnabled(link, batches, events)
        ensures WireRun(link, batches, START, events).outputs == Run(link, batches, START, events).outputs
      {
        SoundBeforeWrap(link, batches, events);
      }
    } else {
      var events := WrapShows(link, batches);
    }
  }

  // ----- what a mixture looks like -----

  lemma MixedIsBlock(link: Link, batches: seq<seq<Data>>, z: seq<Data>, p: Pending)
    requires Wraps(link, batches) && Mixed(link, batches, p, 1, link.cfg.dataShards)
    requires z == batches[0][..1] + batches[U16][1..]
    requires ShardLen(z) == ShardLen(batches[0]) == ShardLen(batches[U16])
    ensures |z| <= link.cfg.dataShards && Collects(link.code, link.cfg, z, p)
  {
    hide ShardLen, BlockWord;
    var n, x, y := link.cfg.dataShards, batches[0], batches[U16];
    BlockWordShape(link.code, link.cfg, x);
    BlockWordShape(link.code, link.cfg, y);
    BlockWordShape(link.code, link.cfg, z);
    forall i | 0 <= i < n ensures MixedShard(link, batches, i) == BlockWord(link.code, link.cfg, z)[i] {
      var w, v := BlockWord(link.code, link.cfg, z), BlockWord(link.code, link.cfg, if i == 0 then x else y);
      assert w[i] == w[..n][i] && v[i] == v[..n][i];
    }
    FullPresent(p, n);
  }

  lemma FullPresent(p: Pending, n: nat)
    requires n <= |p.shards| && forall i :: 0 <= i < |p.shards| ==> (p.shards[i].Some? <==> i < n)
    ensures |Present(p.shards)| == n
  {
    assert Present(p.shards) == Below(n);
  }

  /** Where the shards of the two blocks have the same length, the receiver yields a list that mixes them: the
      first payload of the leftover block, and the later one's others. */
  lemma LeftoverMixesBlocks(link: Link, batches: seq<seq<Data>>, z: seq<Data>)
    requires Wraps(link, batches) && z == batches[0][..1] + batches[U16][1..]
    requires ShardLen(z) == ShardLen(batches[0]) == ShardLen(batches[U16])
    ensures AllEnabled(link, batches, Mixture(1, link.cfg.dataShards))
    ensures WireRun(link, batches, START, Mixture(1, link.cfg.dataShards)).outputs
         == [Output(U16, Payloads(KeptAll(z)))]
  {
    hide WireRun, Mixture, Reconstructed, KeptAll, Mixed, ShardLen;
    var p := WireTakesMixture(link, batches, 1);
    MixedIsBlock(link, batches, z, p);
    MixedPresent(link, batches, p);
    BlockRoundTrip(link.code, link.cfg, z, p);
  }

  lemma MixedPresent(link: Link, batches: seq<seq<Data>>, p: Pending)
    requires Wraps(link, batches) && Mixed(link, batches, p, 1, link.cfg.dataShards)
    ensures |Present(p.shards)| == link.cfg.dataShards
  {
    FullPresent(p, link.cfg.dataShards);
  }
}
