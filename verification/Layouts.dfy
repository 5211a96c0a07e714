/** What the bytes on the wire are, offset by offset, and what a receiver makes of any bytes at all. */
module Layouts {
  import opened Bytes
  import opened ErasureCode
  import opened FecCodec
  import opened FecBlocks
  import opened Wire
  import H = RelayHeader

  /** Byte `i` of a little-endian field. */
  lemma {:induction false} LeAt(v: nat, n: nat, i: nat)
    requires i < n
    ensures Le(v, n)[i] == (v / Pow256(i)) % 256
    decreases n
  {
    if i > 0 {
      LeAt(v / 256, n - 1, i - 1);
      assert Le(v, n)[i] == Le(v / 256, n - 1)[i - 1];
      DivTwice(v, Pow256(i - 1));
    }
  }

  lemma DivTwice(v: nat, b: nat)
    requires b > 0
    ensures v / 256 / b == v / (256 * b)
  {
    var w := v / 256;
    var q, r := w / b, w % b;
    DivisionParts(w, b);
    var bq := b * q;
    assert v == 256 * bq + (256 * r + v % 256);
    Regroup(b, q);
    ModUnique(v, 256 * b, q, 256 * r + v % 256);
  }

  lemma DivisionParts(w: nat, b: nat)
    requires b > 0
    ensures w == b * (w / b) + w % b && 0 <= w % b < b
  {
  }

  lemma Regroup(b: nat, q: nat)
    ensures 256 * (b * q) == (256 * b) * q
  {
  }

  lemma TwoBytes(v: nat)
    ensures Le(v, 2) == [v % 256, v / 256 % 256]
  {
    LeAt(v, 2, 0);
    LeAt(v, 2, 1);
  }

  // ----- frames -----

  /** A tunnel's frame: packet type, sequence number, length of the ciphertext, ciphertext. */
  lemma SealedLayout(a: Aead, p: Packet)
    ensures var (d, cipher) := (Sealed(a, p), a.encrypt(p.seqNo, p.payload));
            && |d| == 11 + |cipher| && d[0] == p.packetType && d[11..] == cipher
            && (forall i: nat :: i < 8 ==> d[1 + i] == (p.seqNo / Pow256(i)) % 256)
            && d[9] == |cipher| % 256 && d[10] == |cipher| / 256 % 256
            && (Sealing(a) ==> |d| == 27 + |p.payload|)
  {
    var cipher := a.encrypt(p.seqNo, p.payload);
    var d := Sealed(a, p);
    TwoBytes(|cipher|);
    if Sealing(a) {
      SealLawHolds(a, p.seqNo, p.payload, cipher);
    }
    forall i: nat | i < 8 ensures d[1 + i] == (p.seqNo / Pow256(i)) % 256 {
      LeAt(p.seqNo, 8, i);
      assert d[1 + i] == Le(p.seqNo, 8)[i];
    }
  }

  /** A relay payload: flow id, length of the destination's name, name, data. */
  lemma RelayLayout(r: H.Relayed)
    requires |r.dest.name| <= 255
    ensures var (d, n) := (H.Encode(r), |r.dest.name|);
            && |d| == 5 + n + |r.data| && d[4] == n && d[5..5 + n] == r.dest.name && d[5 + n..] == r.data
            && (forall i: nat :: i < 4 ==> d[i] == (r.flowId / Pow256(i)) % 256)
  {
    var d := H.Encode(r);
    forall i: nat | i < 4 ensures d[i] == (r.flowId / Pow256(i)) % 256 {
      LeAt(r.flowId, 4, i);
    }
    assert r.dest.name[..|r.dest.name|] == r.dest.name;
  }

  /** The header every shard of a block carries, and its packet type: 1 for data, 2 for parity. */
  lemma ShardFrameLayout(code: Code, cfg: FecConfig, blockId: nat, payloads: seq<Data>, i: nat)
    requires Lawful(code) && ValidCounts(cfg.dataShards, cfg.parityShards) && |payloads| <= cfg.dataShards
    requires blockId < U16 && i < cfg.dataShards + cfg.parityShards
    ensures |BlockFrames(code, cfg, blockId, payloads)| == cfg.dataShards + cfg.parityShards
    ensures var (t, d) := BlockFrames(code, cfg, blockId, payloads)[i];
            && t == (if i < cfg.dataShards then 1 else 2)
            && |d| == 7 + ShardLen(payloads) && d[7..] == BlockWord(code, cfg, payloads)[i]
            && d[0] as nat + 256 * d[1] as nat == blockId
            && d[2] == i && d[3] == cfg.dataShards && d[4] == cfg.parityShards
            && d[5] == (if i < cfg.dataShards then d[7] else 0) && d[6] == (if i < cfg.dataShards then d[8] else 0)
  {
    hide BlockWord, OriginalLen;
    BlockWordShape(code, cfg, payloads);
    var shard := BlockWord(code, cfg, payloads)[i];
    OriginalBytes(cfg, i, shard);
    TwoBytes(blockId);
    var d := BlockFrames(code, cfg, blockId, payloads)[i].1;
    assert d[7] == shard[0] && d[8] == shard[1];
  }

  lemma OriginalBytes(cfg: FecConfig, i: nat, shard: Data)
    requires |shard| >= 2
    ensures Le(OriginalLen(cfg, i, shard), 2) == if i < cfg.dataShards then shard[..2] else [0, 0]
  {
    if i < cfg.dataShards {
      LeOfFromLe(shard[..2]);
    } else {
      TwoBytes(0);
    }
  }

  /** The data shards behind it: the payload's length and the payload, or nothing, and then zeros. */
  lemma DataShardLayout(n: nat, payloads: seq<Data>, i: nat)
    requires |payloads| <= n && i < n
    ensures var s := DataShards(n, payloads)[i];
            && |s| == ShardLen(payloads)
            && (i < |payloads| ==>
                  var len := |payloads[i]|;
                  && 2 + len <= |s| && s[0] == len % 256 && s[1] == len / 256 % 256 && s[2..2 + len] == payloads[i]
                  && forall t :: 2 + len <= t < |s| ==> s[t] == 0)
            && (i >= |payloads| ==> forall t :: 0 <= t < |s| ==> s[t] == 0)
  {
    if i < |payloads| {
      TwoBytes(|payloads[i]|);
      assert Prefixed(payloads[i])[2..] == payloads[i];
    } else {
      assert DataShards(n, payloads)[i] == Zeros(ShardLen(payloads));
    }
  }

  // ----- any bytes at all -----

  /** A half-filled block: its slots are counted right, and are fewer than it needs. */
  ghost predicate Filling(p: Pending) {
    && |p.shards| == p.dataShards + p.parityShards
    && p.received == |Present(p.shards)| < p.dataShards
  }

  ghost predicate AllFilling(blocks: map<nat, Pending>) {
    forall id :: id in blocks ==> Filling(blocks[id])
  }

  /** The block that a shard with this header meets: the one held under its id, whose counts stay what its first shard
      said; or a new one with the shard's own counts. */
  function Met(blocks: map<nat, Pending>, id: nat, n: nat, k: nat, now: Nanos): Pending {
    if id in blocks then blocks[id] else Pending(n, k, seq(n + k, _ => None), 0, now)
  }

  function Filled(p: Pending, i: nat, shard: Data): Slots
    requires |p.shards| == p.dataShards + p.parityShards
  {
    if i < |p.shards| && p.shards[i].None? then p.shards[i := Some(shard)] else p.shards
  }

  /** What is recovered from all shards of a block, if the library has recovered them. */
  function Recovered(n: nat, shards: Option<seq<Data>>): Outcome {
    if shards.None? || |shards.value| < n then Nothing else Payloads(Unpack(shards.value[..n]))
  }

  /** A payload is recovered exactly if it is what some data shard says: its first two bytes give a length that is not 0
      and not more than what follows. */
  lemma {:induction false} RecoveredExactly(shards: seq<Data>, q: Data)
    ensures q in Unpack(shards) <==>
      exists i :: 0 <= i < |shards| && q != [] && |shards[i]| >= 2 + |q| && q == shards[i][2..2 + |q|]
                  && shards[i][0] as nat + 256 * shards[i][1] as nat == |q|
    decreases |shards|
  {
    if shards != [] {
      var init, last := shards[..|shards| - 1], shards[|shards| - 1];
      RecoveredExactly(init, q);
      if |last| >= 2 {
        TwoByteId(last);
      }
      assert forall i :: 0 <= i < |init| ==> init[i] == shards[i];
    }
  }

  lemma FilledCounts(p: Pending, i: nat, shard: Data)
    requires |p.shards| == p.dataShards + p.parityShards && p.received == |Present(p.shards)|
    ensures Inserted(p, i, shard) == p.(shards := Filled(p, i, shard), received := |Present(Filled(p, i, shard))|)
  {
    if i < |p.shards| && p.shards[i].None? {
      assert Present(p.shards[i := Some(shard)]) == Present(p.shards) + {i};
    }
  }

  lemma NoneFilled(n: nat, k: nat)
    ensures Present(seq(n + k, _ => None)) == {}
  {
  }

  /** Whatever bytes arrive, fewer than 7 do nothing; otherwise they concern one block, which takes the shard if its
      slot is free, and goes when it has as many as it needs. Then it panics exactly if the library refuses its
      counts. */
  lemma IntakeExactly(code: Code, blocks: map<nat, Pending>, payload: Data, now: Nanos)
    requires AllFilling(blocks)
    ensures AllFilling(Receive(code, blocks, payload, now).0)
    ensures |payload| < 7 ==> Receive(code, blocks, payload, now) == (blocks, Nothing)
    ensures |payload| >= 7 ==>
      var id, n: nat, k: nat := payload[0] as nat + 256 * payload[1] as nat, payload[3], payload[4];
      var p := Met(blocks, id, n, k, now);
      var (after, o) := Receive(code, blocks, payload, now);
      && |p.shards| == p.dataShards + p.parityShards
      && var shards := Filled(p, payload[2], payload[7..]);
         && after - {id} == blocks - {id}
         && (id in after <==> |Present(shards)| < p.dataShards)
         && (id in after ==>
               o == Nothing && after[id] == p.(shards := shards, received := |Present(shards)|))
         && (o == Panics <==> id !in after && (p.dataShards == 0 || p.parityShards == 0 ||
                                               p.dataShards + p.parityShards > 256))
         && (id !in after && o != Panics ==>
               o == Recovered(p.dataShards, code.rebuild(p.dataShards, p.parityShards, shards)))
  {
    hide Present;
    if |payload| >= 7 {
      var id, n: nat, k: nat := payload[0] as nat + 256 * payload[1] as nat, payload[3], payload[4];
      TwoByteId(payload);
      NoneFilled(n, k);
      var p := Met(blocks, id, n, k, now);
      FilledCounts(p, payload[2], payload[7..]);
    }
  }

  lemma TwoByteId(payload: Data)
    requires |payload| >= 2
    ensures FromLe(payload[..2]) == payload[0] as nat + 256 * payload[1] as nat
  {
    var two := payload[..2];
    assert two[1..][1..] == [];
    assert FromLe(two[1..]) == two[1];
    assert FromLe(two) == two[0] as nat + 256 * FromLe(two[1..]);
  }

  datatype Arriving = Bytes(payload: Data, now: Nanos) | Timer(now: Nanos)

  function Fed(code: Code, events: seq<Arriving>): map<nat, Pending> {
    if events == [] then map[]
    else
      var blocks := Fed(code, events[..|events| - 1]);
      match events[|events| - 1]
      case Bytes(payload, now) => Receive(code, blocks, payload, now).0
      case Timer(now) => Unexpired(blocks, MAX_AGE_MS, now)
  }

  /** In every run of a receiver on whatever bytes, no block is held that has the shards it needs. */
  lemma {:induction false} HeldBlocksAreFilling(code: Code, events: seq<Arriving>)
    ensures AllFilling(Fed(code, events))
    decreases |events|
  {
    hide Receive, Filling;
    if events != [] {
      HeldBlocksAreFilling(code, events[..|events| - 1]);
      match events[|events| - 1]
      case Bytes(payload, now) => IntakeExactly(code, Fed(code, events[..|events| - 1]), payload, now);
      case Timer(_) =>
    }
  }
}
