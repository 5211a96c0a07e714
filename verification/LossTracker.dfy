/** The sliding-window loss tracker, the redundancy tiers it selects, and the sequence-gap loop that feeds it. */
module LossTracking {
  import opened Bytes
  import opened FecCodec

  // ----- tiers -----

  function ForLossRate(loss: real): FecConfig {
    if loss < 0.005 then FecConfig(20, 1)
    else if loss < 0.01 then FecConfig(10, 2)
    else if loss < 0.03 then FecConfig(10, 4)
    else if loss < 0.05 then FecConfig(8, 4)
    else FecConfig(6, 4)
  }

  /** Redundancy never falls as loss rises, and every tier is a configuration the codec accepts, with less
      parity than data. */
  lemma TiersAreMonotone(a: real, b: real)
    requires a <= b
    ensures var (s, t) := (ForLossRate(a), ForLossRate(b));
            s.parityShards * t.dataShards <= t.parityShards * s.dataShards
            && 1 <= t.parityShards < t.dataShards && t.dataShards + t.parityShards <= 256
  {
  }

  function Overhead(c: FecConfig): real
    requires c.dataShards > 0
  {
    c.parityShards as real / c.dataShards as real
  }

  /** The tiers promise what they cost (5, 20, 40, 50 and 67 percent), which is 10 to 40 times the loss they are for
      where loss is between 0.5 and 5 percent; and what a block is expected to lose is within its parity exactly up to
      40 percent loss. */
  lemma TiersMatchLoss(loss: real)
    requires 0.0 <= loss
    ensures ForLossRate(loss).dataShards > 0
    ensures var (c, o) := (ForLossRate(loss), Overhead(ForLossRate(loss)));
            && (o == 0.05 <==> loss < 0.005) && (o == 0.2 <==> 0.005 <= loss < 0.01)
            && (o == 0.4 <==> 0.01 <= loss < 0.03) && (o == 0.5 <==> 0.03 <= loss < 0.05)
            && (0.66 < o < 0.67 <==> 0.05 <= loss)
            && (0.005 <= loss < 0.05 ==> 10.0 * loss <= o <= 40.0 * loss)
            && (loss * (c.dataShards + c.parityShards) as real <= c.parityShards as real <==> loss <= 0.4)
  {
  }

  // ----- history -----

  function Losses(h: seq<bool>): nat {
    if h == [] then 0 else Losses(h[..|h| - 1]) + (if h[|h| - 1] then 0 else 1)
  }

  lemma {:induction false} LossesConcat(a: seq<bool>, b: seq<bool>)
    ensures Losses(a + b) == Losses(a) + Losses(b)
    decreases |b|
  {
    if b == [] {
      assert a + b == a;
    } else {
      LossesConcat(a, b[..|b| - 1]);
      assert (a + b)[..|a + b| - 1] == a + b[..|b| - 1];
    }
  }

  lemma LossesUpdate(h: seq<bool>, i: nat, v: bool)
    requires i < |h|
    ensures Losses(h[i := v]) == Losses(h) - (if h[i] then 0 else 1) + (if v then 0 else 1)
    ensures !h[i] ==> Losses(h) > 0
  {
    var a, b := h[..i], h[i + 1..];
    assert h == a + [h[i]] + b && h[i := v] == a + [v] + b;
    LossesConcat(a + [h[i]], b);
    LossesConcat(a + [v], b);
    LossesConcat(a, [h[i]]);
    LossesConcat(a, [v]);
    assert [v][..0] == [] && [h[i]][..0] == [];
  }

  function Repeated(v: bool, n: nat): (s: seq<bool>)
    ensures |s| == n && forall i :: 0 <= i < n ==> s[i] == v
  {
    seq(n, _ => v)
  }

  /** The last `w` records, the slots not yet used counting as received. */
  function LastRecords(h: seq<bool>, w: nat): (s: seq<bool>)
    ensures |s| == w
  {
    (Repeated(true, w) + h)[|h|..]
  }

  class LossTracker {
    var window: array<bool>
    var pos: nat
    var count: nat
    ghost var history: seq<bool>

    /** Read from `pos`, the ring holds the last records in order, and `count` is their losses. */
    ghost predicate Valid()
      reads this, window
    {
      && 0 < window.Length && pos < window.Length
      && window[..][pos..] + window[..][..pos] == LastRecords(history, window.Length)
      && count == Losses(window[..])
    }

    constructor (windowSize: nat)
      requires windowSize > 0
      ensures Valid() && history == [] && window.Length == windowSize && fresh(window)
    {
      window := new bool[windowSize](_ => true);
      pos := 0;
      count := 0;
      history := [];
      new;
      assert window[..] == Repeated(true, windowSize);
      NoLosses(windowSize);
      assert window[pos..] + window[..pos] == LastRecords(history, window.Length);
    }

    method Record(received: bool)
      requires Valid()
      modifies this, window
      ensures Valid() && window == old(window) && history == old(history) + [received]
    {
      ghost var h, p := window[..], pos;
      RecordKeeps(h, p, received, history);
      if !window[pos] {
        count := SatSub(count, 1);
      }
      if !received {
        count := count + 1;
      }
      window[pos] := received;
      assert window[..] == h[p := received];
      pos := (pos + 1) % window.Length;
      history := history + [received];
    }

    /** The counted losses are those of the last records, whatever the ring's state. */
    lemma CountIsLosses()
      requires Valid()
      ensures count == Losses(LastRecords(history, window.Length)) <= window.Length
    {
      var a, b := window[..pos], window[pos..];
      assert window[..] == a + b;
      LossesConcat(a, b);
      LossesConcat(b, a);
      LossesBounded(LastRecords(history, window.Length));
    }

    method LossRate() returns (rate: real)
      requires Valid()
      ensures rate == Losses(LastRecords(history, window.Length)) as real / window.Length as real
    {
      CountIsLosses();
      rate := count as real / window.Length as real;
    }

    method RecommendedConfig() returns (config: FecConfig)
      requires Valid()
      ensures config == ForLossRate(Losses(LastRecords(history, window.Length)) as real / window.Length as real)
    {
      var rate := LossRate();
      config := ForLossRate(rate);
    }

    /** What the single-peer receive loop records of one packet: a loss if it is truncated; otherwise every
        number skipped is a loss, the one received is not, and one that fails to decrypt adds a loss. */
    method OnPacket(expectedSeq: nat, seqNo: nat, truncated: bool, decrypts: bool) returns (expected: nat)
      requires Valid() && expectedSeq < U64 && seqNo < U64
      modifies this, window
      ensures Valid() && window == old(window)
      ensures truncated ==> history == old(history) + [false] && expected == expectedSeq
      ensures !truncated ==>
        history == old(history) + PacketRecords(expectedSeq, seqNo, decrypts) && expected == (seqNo + 1) % U64
    {
      expected := expectedSeq;
      if truncated {
        Record(false);
        return;
      }
      while expected != seqNo
        invariant Valid() && window == old(window) && expected < U64
        invariant Gap(expected, seqNo) <= Gap(expectedSeq, seqNo)
        invariant history == old(history) + Repeated(false, Gap(expectedSeq, seqNo) - Gap(expected, seqNo))
        decreases Gap(expected, seqNo)
      {
        Record(false);
        expected := (expected + 1) % U64;
      }
      Record(true);
      expected := (expected + 1) % U64;
      if !decrypts {
        Record(false);
      }
    }

    /** The whole loop, over the packets it is given. */
    method ReceiveLoop(packets: seq<Packet>)
      requires Valid() && SeqNumbers(Numbers(packets))
      modifies this, window
      ensures Valid() && window == old(window) && history == old(history) + LoopRecords(packets)
    {
      hide Numbers, LoopRecords, PacketRecords, LossTracker.Valid, Expected, SeqNumbers;
      var expected := 0;
      LoopStarts(packets);
      for i := 0 to |packets|
        invariant Valid() && window == old(window) && SeqNumbers(Numbers(packets[..i]))
        invariant expected == Expected(Numbers(packets[..i]))
        invariant history == old(history) + LoopRecords(packets[..i])
      {
        LoopGoesOn(packets, i);
        NumberFits(packets, i);
        match packets[i]
        case Truncated => expected := OnPacket(expected, 0, true, false);
        case Framed(seqNo, decrypts) => expected := OnPacket(expected, seqNo, false, decrypts);
      }
      assert packets[..|packets|] == packets;
    }
  }

  lemma {:induction false} NoLosses(n: nat)
    ensures Losses(Repeated(true, n)) == 0
  {
    if n > 0 {
      NoLosses(n - 1);
      assert Repeated(true, n)[..n - 1] == Repeated(true, n - 1);
    }
  }

  lemma {:induction false} LossesBounded(h: seq<bool>)
    ensures Losses(h) <= |h|
  {
    if h != [] {
      LossesBounded(h[..|h| - 1]);
    }
  }

  /** Read from the next position, the ring has lost its oldest slot and gained the new one at the end. */
  lemma RingAdvances(h: seq<bool>, pos: nat, next: nat, v: bool)
    requires pos < |h| && next == if pos + 1 < |h| then pos + 1 else 0
    ensures h[pos := v][next..] + h[pos := v][..next] == (h[pos..] + h[..pos])[1..] + [v]
  {
    if next == 0 {
      assert (h[pos..] + h[..pos])[1..] == h[..pos];
    } else {
      assert (h[pos..] + h[..pos])[1..] == h[next..] + h[..pos];
      assert h[pos := v][next..] == h[next..] && h[pos := v][..next] == h[..pos] + [v];
    }
  }

  lemma NextSlot(n: nat, pos: nat)
    requires pos < n
    ensures (pos + 1) % n == if pos + 1 < n then pos + 1 else 0
  {
  }

  lemma LastRecordsAdvance(h: seq<bool>, w: nat, v: bool)
    requires w > 0
    ensures LastRecords(h + [v], w) == LastRecords(h, w)[1..] + [v]
  {
  }

  /** Overwriting the oldest slot turns the last records of a history into those of the longer history. */
  lemma RecordKeeps(ring: seq<bool>, pos: nat, v: bool, history: seq<bool>)
    requires pos < |ring| && ring[pos..] + ring[..pos] == LastRecords(history, |ring|)
    ensures var (r, p) := (ring[pos := v], (pos + 1) % |ring|);
            && r[p..] + r[..p] == LastRecords(history + [v], |ring|)
            && Losses(r) == SatSub(Losses(ring), if ring[pos] then 0 else 1) + (if v then 0 else 1)
  {
    hide LastRecords, Losses;
    NextSlot(|ring|, pos);
    RingAdvances(ring, pos, (pos + 1) % |ring|, v);
    LastRecordsAdvance(history, |ring|, v);
    LossesUpdate(ring, pos, v);
  }

  // ----- gaps -----

  /** How many numbers are skipped, counting modulo 2^64. */
  function Gap(expected: nat, seqNo: nat): nat
    requires expected < U64 && seqNo < U64
  {
    if expected <= seqNo then seqNo - expected else U64 - expected + seqNo
  }

  function PacketRecords(expected: nat, seqNo: nat, decrypts: bool): seq<bool>
    requires expected < U64 && seqNo < U64
  {
    Repeated(false, Gap(expected, seqNo)) + [true] + (if decrypts then [] else [false])
  }

  predicate SeqNumbers(s: seq<nat>) {
    forall i :: 0 <= i < |s| ==> s[i] < U64
  }

  function Expected(s: seq<nat>): (e: nat)
    requires SeqNumbers(s)
    ensures e < U64
  {
    if s == [] then 0 else (s[|s| - 1] + 1) % U64
  }

  /** The records of a run of packets that all decrypt. */
  function RunRecords(s: seq<nat>): seq<bool>
    requires SeqNumbers(s)
  {
    if s == [] then []
    else RunRecords(s[..|s| - 1]) + PacketRecords(Expected(s[..|s| - 1]), s[|s| - 1], true)
  }

  /** Which of the numbers from 0 to the latest were received. */
  function Indicator(s: seq<nat>): seq<bool>
    requires SeqNumbers(s)
  {
    if s == [] then [] else seq(s[|s| - 1] + 1, i => i in s)
  }

  predicate StrictlyIncreasing(s: seq<nat>) {
    forall i, j :: 0 <= i < j < |s| ==> s[i] < s[j]
  }

  lemma IndicatorExtends(init: seq<nat>, x: nat)
    requires SeqNumbers(init + [x]) && SeqNumbers(init) && forall i :: 0 <= i < |init| ==> init[i] < x
    requires init != [] ==> forall i :: 0 <= i < |init| ==> init[i] <= init[|init| - 1]
    ensures |Indicator(init)| <= x
    ensures Indicator(init + [x]) == Indicator(init) + Repeated(false, x - |Indicator(init)|) + [true]
  {
    var s := init + [x];
    var ind := Indicator(init) + Repeated(false, x - |Indicator(init)|) + [true];
    forall i | 0 <= i <= x ensures ind[i] == (i in s) {
      assert i in s <==> i in init || i == x;
      if |Indicator(init)| <= i {
        assert i !in init;
      }
    }
  }

  lemma RunRecordsSnoc(init: seq<nat>, x: nat)
    requires SeqNumbers(init + [x]) && SeqNumbers(init) && x < U64
    ensures RunRecords(init + [x]) == RunRecords(init) + Repeated(false, Gap(Expected(init), x)) + [true]
  {
    assert (init + [x])[..|init + [x]| - 1] == init;
    var r := Repeated(false, Gap(Expected(init), x)) + [true];
    assert r + [] == r;
    assert RunRecords(init) + r == RunRecords(init) + Repeated(false, Gap(Expected(init), x)) + [true];
  }

  lemma GapIsMissing(init: seq<nat>, x: nat)
    requires SeqNumbers(init) && x < U64 && (init == [] || init[|init| - 1] < x)
    ensures |Indicator(init)| <= x && Gap(Expected(init), x) == x - |Indicator(init)|
  {
    if init != [] {
      GapAfter(init[|init| - 1], x);
    }
  }

  lemma IncreasingPrefix(init: seq<nat>, x: nat)
    requires SeqNumbers(init + [x]) && StrictlyIncreasing(init + [x])
    ensures SeqNumbers(init) && StrictlyIncreasing(init) && x < U64
    ensures forall i :: 0 <= i < |init| ==> init[i] < x && init[i] <= init[|init| - 1]
  {
    var s := init + [x];
    assert forall i :: 0 <= i < |init| ==> s[i] == init[i];
    assert s[|init|] == x;
  }

  /** In-order packets are recorded exactly: one record a number, true where it was received. */
  lemma {:induction false} InOrderIsExact(s: seq<nat>)
    requires SeqNumbers(s) && StrictlyIncreasing(s)
    ensures RunRecords(s) == Indicator(s)
    decreases |s|
  {
    hide RunRecords, Indicator, StrictlyIncreasing;
    if s == [] {
      EmptyRecords();
    } else {
      var init, x := s[..|s| - 1], s[|s| - 1];
      assert s == init + [x];
      IncreasingPrefix(init, x);
      InOrderIsExact(init);
      IndicatorExtends(init, x);
      RunRecordsSnoc(init, x);
      GapIsMissing(init, x);
    }
  }

  lemma EmptyRecords()
    ensures RunRecords([]) == [] == Indicator([])
  {
  }

  lemma IncreasingSnoc(s: seq<nat>)
    requires |s| >= 2
    ensures StrictlyIncreasing(s) <==> StrictlyIncreasing(s[..|s| - 1]) && s[|s| - 2] < s[|s| - 1]
  {
    var n := |s| - 1;
    var init := s[..n];
    if StrictlyIncreasing(init) && s[n - 1] < s[n] {
      forall i, j | 0 <= i < j < |s| ensures s[i] < s[j] {
        assert i < n ==> init[i] == s[i];
        assert j < n ==> init[j] == s[j];
        assert i < n - 1 ==> init[i] < init[n - 1];
      }
    }
    if StrictlyIncreasing(s) {
      forall i, j | 0 <= i < j < n ensures init[i] < init[j] {
        assert s[i] < s[j];
      }
    }
  }

  /** The number of records exceeds the latest number by whole multiples of 2^64, one for each packet that
      does not move forward. */
  lemma {:induction false} RecordCount(s: seq<nat>) returns (laps: nat)
    requires SeqNumbers(s) && s != []
    ensures |RunRecords(s)| == s[|s| - 1] + 1 + U64 * laps
    ensures laps == 0 <==> StrictlyIncreasing(s)
  {
    var n := |s| - 1;
    if n == 0 {
      laps := 0;
      assert s[..0] == [];
    } else {
      var init := s[..n];
      var before := RecordCount(init);
      IncreasingSnoc(s);
      laps := if s[n] > s[n - 1] then before else before + 1;
      assert U64 * (before + 1) == U64 * before + U64;
      GapAfter(s[n - 1], s[n]);
    }
  }

  lemma GapAfter(last: nat, seqNo: nat)
    requires last < U64 && seqNo < U64
    ensures Gap((last + 1) % U64, seqNo) == if seqNo > last then seqNo - last - 1 else U64 + seqNo - last - 1
  {
  }

  /** The records are that indicator exactly when the packets arrive in strictly increasing order. */
  lemma ExactIffInOrder(s: seq<nat>)
    requires SeqNumbers(s)
    ensures RunRecords(s) == Indicator(s) <==> StrictlyIncreasing(s)
  {
    if StrictlyIncreasing(s) {
      InOrderIsExact(s);
    } else {
      var laps := RecordCount(s);
      assert |Indicator(s)| == s[|s| - 1] + 1;
    }
  }

  // ----- packets that fail -----

  /** A packet that is cut short before it can be read, or one with a number, which may fail to decrypt. */
  datatype Packet = Truncated | Framed(seqNo: nat, decrypts: bool)

  /** The numbers read, in order. */
  function Numbers(s: seq<Packet>): seq<nat> {
    if s == [] then []
    else
      var p := s[|s| - 1];
      Numbers(s[..|s| - 1]) + (if p.Framed? then [p.seqNo] else [])
  }

  function Failures(s: seq<Packet>): nat {
    if s == [] then 0
    else Failures(s[..|s| - 1]) + (if s[|s| - 1].Framed? && s[|s| - 1].decrypts then 0 else 1)
  }

  lemma NumbersPrefix(s: seq<Packet>)
    requires s != [] && SeqNumbers(Numbers(s))
    ensures SeqNumbers(Numbers(s[..|s| - 1])) && (s[|s| - 1].Framed? ==> s[|s| - 1].seqNo < U64)
  {
    var init := Numbers(s[..|s| - 1]);
    assert forall i :: 0 <= i < |init| ==> Numbers(s)[i] == init[i];
    if s[|s| - 1].Framed? {
      assert Numbers(s)[|init|] == s[|s| - 1].seqNo;
    }
  }

  lemma {:induction false} NumbersUpTo(s: seq<Packet>, i: nat)
    requires SeqNumbers(Numbers(s)) && i <= |s|
    ensures SeqNumbers(Numbers(s[..i]))
    decreases |s|
  {
    if i < |s| {
      NumbersPrefix(s);
      NumbersUpTo(s[..|s| - 1], i);
      assert s[..|s| - 1][..i] == s[..i];
    } else {
      assert s[..i] == s;
    }
  }

  lemma LoopStarts(s: seq<Packet>)
    ensures SeqNumbers(Numbers(s[..0])) && Expected(Numbers(s[..0])) == 0 && LoopRecords(s[..0]) == []
  {
  }

  lemma LoopGoesOn(s: seq<Packet>, i: nat)
    requires SeqNumbers(Numbers(s)) && i < |s|
    ensures SeqNumbers(Numbers(s[..i])) && SeqNumbers(Numbers(s[..i + 1]))
    ensures LoopRecords(s[..i + 1]) == LoopRecords(s[..i]) +
      (if s[i].Truncated? then [false]
       else NumberFits(s, i); PacketRecords(Expected(Numbers(s[..i])), s[i].seqNo, s[i].decrypts))
    ensures Expected(Numbers(s[..i + 1]))
         == if s[i].Truncated? then Expected(Numbers(s[..i])) else (s[i].seqNo + 1) % U64
  {
    hide LoopRecords, Numbers, Expected, PacketRecords, SeqNumbers;
    NumbersUpTo(s, i);
    NumbersUpTo(s, i + 1);
    NumberFits(s, i);
    assert s[..i + 1] == s[..i] + [s[i]];
    LoopSnoc(s[..i], s[i]);
  }

  lemma LoopSnoc(init: seq<Packet>, p: Packet)
    requires SeqNumbers(Numbers(init)) && SeqNumbers(Numbers(init + [p])) && (p.Framed? ==> p.seqNo < U64)
    ensures LoopRecords(init + [p]) == LoopRecords(init) +
      (if p.Truncated? then [false] else PacketRecords(Expected(Numbers(init)), p.seqNo, p.decrypts))
    ensures Expected(Numbers(init + [p])) == if p.Truncated? then Expected(Numbers(init)) else (p.seqNo + 1) % U64
  {
    hide PacketRecords, SeqNumbers;
    assert (init + [p])[..|init|] == init;
    assert Numbers(init) + [] == Numbers(init);
  }

  lemma NumberFits(s: seq<Packet>, i: nat)
    requires SeqNumbers(Numbers(s)) && i < |s|
    ensures s[i].Framed? ==> s[i].seqNo < U64
  {
    NumbersUpTo(s, i + 1);
    NumbersPrefix(s[..i + 1]);
  }

  /** The records of a run of any packets. */
  function LoopRecords(s: seq<Packet>): seq<bool>
    requires SeqNumbers(Numbers(s))
  {
    if s == [] then []
    else
      var init, p := s[..|s| - 1], s[|s| - 1];
      NumbersPrefix(s);
      LoopRecords(init) +
      (if p.Truncated? then [false] else PacketRecords(Expected(Numbers(init)), p.seqNo, p.decrypts))
  }

  lemma {:induction false} RunLosses(s: seq<nat>)
    requires SeqNumbers(s)
    ensures |s| <= |RunRecords(s)| && Losses(RunRecords(s)) == |RunRecords(s)| - |s|
    decreases |s|
  {
    hide RunRecords, Losses;
    if s == [] {
      EmptyRecords();
      NoLosses(0);
    } else {
      var init, x := s[..|s| - 1], s[|s| - 1];
      assert s == init + [x];
      RunLosses(init);
      RunRecordsSnoc(init, x);
      var gap := Repeated(false, Gap(Expected(init), x));
      LossesConcat(RunRecords(init) + gap, [true]);
      LossesConcat(RunRecords(init), gap);
      AllLosses(|gap|);
      OneRecord();
    }
  }

  lemma OneRecord()
    ensures Losses([true]) == 0 && Losses([false]) == 1
  {
    assert [true][..0] == [] && [false][..0] == [];
  }

  /** Each failure adds one loss to what the numbers alone would record. */
  lemma {:induction false} FailuresAreLosses(s: seq<Packet>)
    requires SeqNumbers(Numbers(s))
    ensures |LoopRecords(s)| == |RunRecords(Numbers(s))| + Failures(s)
    ensures Losses(LoopRecords(s)) == Losses(RunRecords(Numbers(s))) + Failures(s)
    ensures Failures(s) == 0 ==> LoopRecords(s) == RunRecords(Numbers(s))
    decreases |s|
  {
    hide RunRecords, Losses, Expected;
    if s == [] {
      EmptyRecords();
    } else {
      var init, p := s[..|s| - 1], s[|s| - 1];
      NumbersPrefix(s);
      FailuresAreLosses(init);
      OneRecord();
      if p.Truncated? {
        assert Numbers(init) + [] == Numbers(init);
        LossesConcat(LoopRecords(init), [false]);
      } else {
        FramedRecords(LoopRecords(init), Numbers(init), p.seqNo, p.decrypts);
      }
    }
  }

  lemma FramedRecords(records: seq<bool>, init: seq<nat>, x: nat, decrypts: bool)
    requires SeqNumbers(init) && SeqNumbers(init + [x]) && x < U64
    ensures var after := records + PacketRecords(Expected(init), x, decrypts);
            && |after| == |records| + |RunRecords(init + [x])| - |RunRecords(init)| + (if decrypts then 0 else 1)
            && Losses(after) ==
                 Losses(records) + Losses(RunRecords(init + [x])) - Losses(RunRecords(init))
                 + (if decrypts then 0 else 1)
            && (decrypts && records == RunRecords(init) ==> after == RunRecords(init + [x]))
  {
    hide RunRecords, Losses, Expected;
    RunRecordsSnoc(init, x);
    var r := Repeated(false, Gap(Expected(init), x)) + [true];
    var last := if decrypts then [] else [false];
    assert RunRecords(init + [x]) == RunRecords(init) + r;
    assert PacketRecords(Expected(init), x, decrypts) == r + last;
    assert decrypts ==> r + last == r;
    LossesConcat(RunRecords(init), r);
    LossesConcat(records, r + last);
    LossesConcat(r, last);
    OneRecord();
    NoLosses(0);
  }

  /** Whatever the packets are, the records tell received numbers from missing ones exactly when the numbers strictly
      increase and no packet fails; and every failure, like every missing number, is one loss. */
  lemma LoopIsExactly(s: seq<Packet>)
    requires SeqNumbers(Numbers(s))
    ensures LoopRecords(s) == Indicator(Numbers(s)) <==> StrictlyIncreasing(Numbers(s)) && Failures(s) == 0
    ensures Numbers(s) != [] && StrictlyIncreasing(Numbers(s)) ==>
      Losses(LoopRecords(s)) == Numbers(s)[|Numbers(s)| - 1] + 1 - |Numbers(s)| + Failures(s)
  {
    hide LoopRecords, RunRecords, Numbers, Losses, StrictlyIncreasing;
    var ns := Numbers(s);
    FailuresAreLosses(s);
    RunLosses(ns);
    ExactIffInOrder(ns);
    if ns == [] {
      EmptyRecords();
    } else {
      var laps := RecordCount(ns);
      assert |Indicator(ns)| == ns[|ns| - 1] + 1;
    }
  }

  /** A single packet that arrives one place late is recorded as 2^64 - 2 or more losses: it wipes any window
      of that size or less down to its last slot. */
  lemma OneLatePacketFloodsWindow(h: seq<bool>, expected: nat, seqNo: nat, w: nat)
    requires seqNo < expected < U64 && 0 < w <= Gap(expected, seqNo) + 1
    ensures Gap(expected, seqNo) == U64 - (expected - seqNo)
    ensures Losses(LastRecords(h + PacketRecords(expected, seqNo, true), w)) == w - 1
    ensures w >= 2 ==> ForLossRate((w - 1) as real / w as real) == FecConfig(6, 4)
  {
    var n := Gap(expected, seqNo);
    var last := LastRecords(h + PacketRecords(expected, seqNo, true), w);
    assert last == Repeated(false, w - 1) + [true];
    LossesConcat(Repeated(false, w - 1), [true]);
    AllLosses(w - 1);
    assert [true][..0] == [];
    assert w >= 2 ==> (w - 1) as real / w as real >= 0.5;
  }

  lemma {:induction false} AllLosses(n: nat)
    ensures Losses(Repeated(false, n)) == n
  {
    if n > 0 {
      AllLosses(n - 1);
      assert Repeated(false, n)[..n - 1] == Repeated(false, n - 1);
    }
  }
}
