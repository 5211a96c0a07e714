/** The FEC codec: `FecSender` turns relay payloads into framed shards, `FecReceiver` turns shards back. */
module FecCodec {
  import opened Bytes
  import opened ErasureCode

  datatype FecConfig = FecConfig(dataShards: nat, parityShards: nat)

  const PACKET_DATA: byte := 1
  const PACKET_PARITY: byte := 2
  const SHARD_HEADER_SIZE: nat := 7

  /** The age at which the flush timer gives up on a half-filled block. */
  const MAX_AGE_MS: nat := 500

  // ----- shard header -----

  datatype ShardHeader = ShardHeader(blockId: nat, shardIdx: byte, dataShards: byte, parityShards: byte,
                                     originalLen: nat)

  function EncodeShardHeader(h: ShardHeader): (d: Data)
    ensures |d| == SHARD_HEADER_SIZE
  {
    Le(h.blockId, 2) + [h.shardIdx, h.dataShards, h.parityShards] + Le(h.originalLen, 2)
  }

  function DecodeShardHeader(buf: Data): Option<ShardHeader> {
    if |buf| < SHARD_HEADER_SIZE then None
    else Some(ShardHeader(FromLe(buf[..2]), buf[2], buf[3], buf[4], FromLe(buf[5..7])))
  }

  lemma ShardHeaderRoundTrip(h: ShardHeader, rest: Data)
    requires h.blockId < U16 && h.originalLen < U16
    ensures DecodeShardHeader(EncodeShardHeader(h) + rest) == Some(h)
    ensures (EncodeShardHeader(h) + rest)[SHARD_HEADER_SIZE..] == rest
  {
    var d := EncodeShardHeader(h) + rest;
    FieldSizes();
    FromLeOfLe(h.blockId, 2);
    FromLeOfLe(h.originalLen, 2);
    assert d[..2] == Le(h.blockId, 2) && d[5..7] == Le(h.originalLen, 2);
  }

  // ----- what a block looks like on the wire -----

  function Zeros(n: nat): (d: Data)
    ensures |d| == n && forall i :: 0 <= i < n ==> d[i] == 0
  {
    seq(n, _ => 0)
  }

  /** `Vec::resize(len, 0)`. */
  function Resize(d: Data, len: nat): (r: Data)
    ensures |r| == len
  {
    if |d| >= len then d[..len] else d + Zeros(len - |d|)
  }

  /** The payload behind its 16-bit length; a length of 65536 or more is cut to its low 16 bits. */
  function Prefixed(p: Data): (d: Data)
    ensures |d| == 2 + |p|
  {
    Le(|p|, 2) + p
  }

  /** The common shard length of a block: its longest prefixed payload. */
  function ShardLen(payloads: seq<Data>): (len: nat)
    ensures len >= 2
    ensures forall i :: 0 <= i < |payloads| ==> 2 + |payloads[i]| <= len
  {
    if payloads == [] then 2
    else
      var rest := ShardLen(payloads[..|payloads| - 1]);
      var len := 2 + |payloads[|payloads| - 1]|;
      if rest < len then len else rest
  }

  /** The n data shards: padded payloads, then shards of zeros. */
  function DataShards(n: nat, payloads: seq<Data>): (s: seq<Data>)
    requires |payloads| <= n
    ensures |s| == n && forall i :: 0 <= i < n ==> |s[i]| == ShardLen(payloads)
  {
    seq(n, i requires 0 <= i < n =>
      if i < |payloads| then Resize(Prefixed(payloads[i]), ShardLen(payloads)) else Zeros(ShardLen(payloads)))
  }

  function BlockWord(code: Code, cfg: FecConfig, payloads: seq<Data>): seq<Data>
    requires |payloads| <= cfg.dataShards
  {
    Codeword(code, cfg.dataShards, cfg.parityShards, DataShards(cfg.dataShards, payloads))
  }

  function OriginalLen(cfg: FecConfig, i: nat, shard: Data): nat {
    if i < cfg.dataShards && |shard| >= 2 then FromLe(shard[..2]) else 0
  }

  function Frame(cfg: FecConfig, blockId: nat, i: nat, shard: Data): (byte, Data) {
    (if i < cfg.dataShards then PACKET_DATA else PACKET_PARITY,
     EncodeShardHeader(ShardHeader(blockId, i % 256, cfg.dataShards % 256, cfg.parityShards % 256,
                                   OriginalLen(cfg, i, shard))) + shard)
  }

  function BlockFrames(code: Code, cfg: FecConfig, blockId: nat, payloads: seq<Data>): seq<(byte, Data)>
    requires |payloads| <= cfg.dataShards
  {
    var w := BlockWord(code, cfg, payloads);
    seq(|w|, i requires 0 <= i < |w| => Frame(cfg, blockId, i, w[i]))
  }

  // ----- sender -----

  /** The sender's abstract state. */
  datatype Sending = Sending(buffer: seq<Data>, blockId: nat)

  /** One submitted payload: the batch it completes, if it completes one. */
  function Submitted(cfg: FecConfig, s: Sending, payload: Data): (Sending, Option<seq<Data>>) {
    var all := s.buffer + [payload];
    if |all| >= cfg.dataShards then (Sending([], (s.blockId + 1) % U16), Some(all)) else (s.(buffer := all), None)
  }

  /** The flush timer: a partial batch goes out, an empty one does not. */
  function Flushed(s: Sending): (Sending, Option<seq<Data>>) {
    if s.buffer == [] then (s, None) else (Sending([], (s.blockId + 1) % U16), Some(s.buffer))
  }

  function Emitted(code: Code, cfg: FecConfig, blockId: nat, batch: Option<seq<Data>>): Option<seq<(byte, Data)>> {
    if batch.Some? && |batch.value| <= cfg.dataShards then Some(BlockFrames(code, cfg, blockId, batch.value)) else None
  }

  class FecSender {
    const code: Code
    const config: FecConfig
    var blockId: nat
    var buffer: seq<Data>
    var payloadLens: seq<nat>

    ghost predicate Valid()
      reads this
    {
      && ValidCounts(config.dataShards, config.parityShards)
      && blockId < U16
      && |buffer| < config.dataShards
      && |payloadLens| == |buffer| && forall i :: 0 <= i < |buffer| ==> payloadLens[i] == |buffer[i]| % U16
    }

    ghost function View(): Sending
      reads this
    {
      Sending(buffer, blockId)
    }

    constructor (code: Code, config: FecConfig)
      requires ValidCounts(config.dataShards, config.parityShards)
      ensures Valid() && View() == Sending([], 0)
      ensures this.code == code && this.config == config
    {
      this.code := code;
      this.config := config;
      blockId := 0;
      buffer := [];
      payloadLens := [];
    }

    method Submit(payload: Data) returns (out: Option<seq<(byte, Data)>>)
      requires Valid()
      modifies this
      ensures Valid()
      ensures var (s, batch) := Submitted(config, old(View()), payload);
              View() == s && out == Emitted(code, config, old(blockId), batch)
              && (batch.Some? ==> |batch.value| == config.dataShards)
    {
      payloadLens := payloadLens + [|payload| % U16];
      buffer := buffer + [payload];
      if |buffer| >= config.dataShards {
        var frames := Flush();
        return Some(frames);
      } else {
        return None;
      }
    }

    method FlushPartial() returns (out: Option<seq<(byte, Data)>>)
      requires Valid()
      modifies this
      ensures Valid()
      ensures var (s, batch) := Flushed(old(View()));
              View() == s && out == Emitted(code, config, old(blockId), batch)
    {
      if buffer == [] {
        return None;
      }
      var frames := Flush();
      return Some(frames);
    }

    method Flush() returns (output: seq<(byte, Data)>)
      requires ValidCounts(config.dataShards, config.parityShards)
      requires 0 < |buffer| <= config.dataShards
      modifies this
      ensures output == BlockFrames(code, config, old(blockId), old(buffer))
      ensures buffer == [] && payloadLens == [] && blockId == (old(blockId) + 1) % U16
    {
      var id := blockId;
      blockId := (blockId + 1) % U16;
      var shards := PaddedShards(config.dataShards, buffer);
      buffer := [];
      payloadLens := [];
      shards := Codeword(code, config.dataShards, config.parityShards, shards);
      output := FramedShards(config, id, shards);
    }
  }

  method PaddedShards(n: nat, payloads: seq<Data>) returns (shards: seq<Data>)
    requires |payloads| <= n
    ensures shards == DataShards(n, payloads)
  {
    shards := [];
    for i := 0 to |payloads|
      invariant |shards| == i && forall j :: 0 <= j < i ==> shards[j] == Prefixed(payloads[j])
    {
      shards := shards + [Prefixed(payloads[i])];
    }

    var maxLen := 2;
    for i := 0 to |shards|
      invariant maxLen == ShardLen(payloads[..i])
    {
      assert payloads[..i + 1][..i] == payloads[..i];
      if maxLen < |shards[i]| {
        maxLen := |shards[i]|;
      }
    }
    assert payloads[..|payloads|] == payloads;

    for i := 0 to |shards|
      invariant |shards| == |payloads|
      invariant forall j :: 0 <= j < i ==> shards[j] == Resize(Prefixed(payloads[j]), maxLen)
      invariant forall j :: i <= j < |shards| ==> shards[j] == Prefixed(payloads[j])
    {
      shards := shards[i := Resize(shards[i], maxLen)];
    }

    while |shards| < n
      invariant |payloads| <= |shards| <= n
      invariant shards == DataShards(n, payloads)[..|shards|]
    {
      shards := shards + [Zeros(maxLen)];
    }
  }

  method FramedShards(cfg: FecConfig, blockId: nat, shards: seq<Data>) returns (output: seq<(byte, Data)>)
    ensures |output| == |shards| && forall i :: 0 <= i < |shards| ==> output[i] == Frame(cfg, blockId, i, shards[i])
  {
    output := [];
    for i := 0 to |shards|
      invariant |output| == i && forall j :: 0 <= j < i ==> output[j] == Frame(cfg, blockId, j, shards[j])
    {
      var ptype := if i < cfg.dataShards then PACKET_DATA else PACKET_PARITY;
      var shard := shards[i];
      var originalLen := if i < cfg.dataShards && |shard| >= 2 then FromLe(shard[..2]) else 0;
      var header := ShardHeader(blockId, i % 256, cfg.dataShards % 256, cfg.parityShards % 256, originalLen);
      output := output + [(ptype, EncodeShardHeader(header) + shard)];
    }
  }

  // ----- receiver, on values -----

  datatype Pending = Pending(dataShards: nat, parityShards: nat, shards: Slots, received: nat, createdAt: Nanos)

  /** `Panics` stands for the codec constructor's panic on shard counts the library refuses. */
  datatype Outcome = Nothing | Payloads(list: seq<Data>) | Panics

  function NewPending(n: nat, k: nat, now: Nanos): Pending {
    Pending(n, k, seq(n + k, _ => None), 0, now)
  }

  function Inserted(p: Pending, idx: nat, shard: Data): Pending {
    if idx >= p.dataShards + p.parityShards || idx >= |p.shards| || p.shards[idx].Some? then p
    else p.(shards := p.shards[idx := Some(shard)], received := p.received + 1)
  }

  /** The payload inside one data shard, if there is one. */
  function UnpackOne(s: Data): seq<Data> {
    if |s| < 2 then []
    else
      var len := FromLe(s[..2]);
      if len == 0 || 2 + len > |s| then [] else [s[2..2 + len]]
  }

  function Unpack(shards: seq<Data>): seq<Data> {
    if shards == [] then [] else Unpack(shards[..|shards| - 1]) + UnpackOne(shards[|shards| - 1])
  }

  function Reconstructed(code: Code, p: Pending): Outcome {
    if p.received < p.dataShards then Nothing
    else if !ValidCounts(p.dataShards, p.parityShards) then Panics
    else
      match code.rebuild(p.dataShards, p.parityShards, p.shards)
      case None => Nothing
      case Some(w) => if |w| < p.dataShards then Nothing else Payloads(Unpack(w[..p.dataShards]))
  }

  /** One shard arriving for the block with the given key. */
  function Accept(code: Code, blocks: map<nat, Pending>, key: nat, idx: nat, n: nat, k: nat, shard: Data, now: Nanos)
    : (map<nat, Pending>, Outcome)
  {
    var p := Inserted(if key in blocks then blocks[key] else NewPending(n, k, now), idx, shard);
    if p.received >= p.dataShards then (blocks - {key}, Reconstructed(code, p)) else (blocks[key := p], Nothing)
  }

  function Receive(code: Code, blocks: map<nat, Pending>, payload: Data, now: Nanos): (map<nat, Pending>, Outcome) {
    match DecodeShardHeader(payload)
    case None => (blocks, Nothing)
    case Some(h) =>
      Accept(code, blocks, h.blockId, h.shardIdx, h.dataShards, h.parityShards, payload[SHARD_HEADER_SIZE..], now)
  }

  function AgeMs(now: Nanos, since: Nanos): nat {
    (if now < since then 0 else now - since) / 1_000_000
  }

  function Unexpired(blocks: map<nat, Pending>, maxAgeMs: nat, now: Nanos): map<nat, Pending> {
    map id | id in blocks && AgeMs(now, blocks[id].createdAt) < maxAgeMs :: blocks[id]
  }

  /** Exactly the blocks begun less than that many milliseconds ago stay, as they are. */
  lemma StaysExactly(blocks: map<nat, Pending>, maxAgeMs: nat, now: Nanos, id: nat)
    ensures var left := Unexpired(blocks, maxAgeMs, now);
            && (id in left <==> id in blocks && 0 < maxAgeMs && now - blocks[id].createdAt < maxAgeMs * 1_000_000)
            && (id in left ==> left[id] == blocks[id])
  {
    if id in blocks && blocks[id].createdAt <= now {
      WholeMillis(now - blocks[id].createdAt, maxAgeMs);
    }
  }

  lemma WholeMillis(d: nat, n: nat)
    ensures d / 1_000_000 < n <==> d < n * 1_000_000
  {
  }

  // ----- receiver -----

  class PendingBlock {
    const dataShards: nat
    const parityShards: nat
    var shards: Slots
    var received: nat
    const createdAt: Nanos

    ghost predicate Valid()
      reads this
    {
      |shards| == dataShards + parityShards
    }

    ghost function View(): Pending
      reads this
    {
      Pending(dataShards, parityShards, shards, received, createdAt)
    }

    constructor (dataShards: byte, parityShards: byte, now: Nanos)
      ensures Valid() && View() == NewPending(dataShards, parityShards, now)
    {
      this.dataShards := dataShards;
      this.parityShards := parityShards;
      shards := seq(dataShards + parityShards, _ => None);
      received := 0;
      createdAt := now;
    }

    method Insert(shardIdx: byte, shard: Data) returns (ready: bool)
      requires Valid()
      modifies this
      ensures Valid() && View() == Inserted(old(View()), shardIdx, shard)
      ensures ready == (received >= dataShards)
    {
      var total := dataShards + parityShards;
      if shardIdx >= total || shards[shardIdx].Some? {
        return received >= dataShards;
      }
      shards := shards[shardIdx := Some(shard)];
      received := received + 1;
      return received >= dataShards;
    }

    method Reconstruct(code: Code) returns (o: Outcome)
      modifies this
      ensures o == Reconstructed(code, old(View()))
    {
      if received < dataShards {
        return Nothing;
      }
      if !ValidCounts(dataShards, parityShards) {
        return Panics;
      }
      var w := code.rebuild(dataShards, parityShards, shards);
      if w.None? || |w.value| < dataShards {
        return Nothing;
      }
      shards := seq(|w.value|, i requires 0 <= i < |w.value| => Some(w.value[i]));
      var payloads: seq<Data> := [];
      for i := 0 to dataShards
        invariant payloads == Unpack(w.value[..i])
      {
        assert w.value[..i + 1][..i] == w.value[..i];
        var shard := shards[i].value;
        if |shard| < 2 {
          continue;
        }
        var len := FromLe(shard[..2]);
        if len == 0 {
          continue;
        }
        if 2 + len > |shard| {
          continue;
        }
        payloads := payloads + [shard[2..2 + len]];
      }
      return Payloads(payloads);
    }
  }

  class FecReceiver {
    var blocks: map<nat, PendingBlock>
    ghost var Repr: set<object>

    ghost predicate Valid()
      reads this, Repr
    {
      && this in Repr && blocks.Values <= Repr
      && (forall id :: id in blocks ==> blocks[id].Valid())
      && (forall id, id' :: id in blocks && id' in blocks && id != id' ==> blocks[id] != blocks[id'])
    }

    ghost function View(): map<nat, Pending>
      requires Valid()
      reads this, Repr
    {
      map id | id in blocks :: blocks[id].View()
    }

    constructor ()
      ensures Valid() && View() == map[] && fresh(Repr)
    {
      blocks := map[];
      Repr := {this};
    }

    /** `HashMap::entry(id).or_insert_with(...)`. */
    method Entry(id: nat, n: byte, k: byte, now: Nanos)
      requires Valid()
      modifies this
      ensures Valid() && fresh(Repr - old(Repr)) && id in blocks
      ensures View() == old(View())[id := if id in old(View()) then old(View())[id] else NewPending(n, k, now)]
    {
      if id !in blocks {
        var block := new PendingBlock(n, k, now);
        blocks := blocks[id := block];
        Repr := Repr + {block};
      }
    }

    /** Inserts into one block and touches no other. */
    method InsertAt(id: nat, shardIdx: byte, shard: Data) returns (ready: bool)
      requires Valid() && id in blocks
      modifies blocks[id]
      ensures Valid() && View() == old(View())[id := Inserted(old(View())[id], shardIdx, shard)]
      ensures ready == (View()[id].received >= View()[id].dataShards)
    {
      assert forall id' :: id' in blocks && id' != id ==> blocks[id'] != blocks[id];
      ready := blocks[id].Insert(shardIdx, shard);
    }

    method RemoveAndReconstruct(code: Code, id: nat) returns (o: Outcome)
      requires Valid() && id in blocks
      modifies this, blocks[id]
      ensures Valid() && Repr == old(Repr)
      ensures View() == old(View()) - {id} && o == Reconstructed(code, old(View())[id])
    {
      var block := blocks[id];
      ghost var view := View();
      blocks := blocks - {id};
      assert View() == view - {id};
      o := block.Reconstruct(code);
    }

    /** Opens the shard's block if need be, and puts the shard in. */
    method Store(h: ShardHeader, shard: Data, now: Nanos) returns (ready: bool)
      requires Valid()
      modifies Repr
      ensures Valid() && fresh(Repr - old(Repr)) && h.blockId in blocks
      ensures var p := if h.blockId in old(View()) then old(View())[h.blockId]
                       else NewPending(h.dataShards, h.parityShards, now);
              View() == old(View())[h.blockId := Inserted(p, h.shardIdx, shard)]
      ensures ready == (View()[h.blockId].received >= View()[h.blockId].dataShards)
    {
      hide Inserted, NewPending;
      Entry(h.blockId, h.dataShards, h.parityShards, now);
      ready := InsertAt(h.blockId, h.shardIdx, shard);
    }

    method ReceiveShard(code: Code, payload: Data, now: Nanos) returns (o: Outcome)
      requires Valid()
      modifies Repr
      ensures Valid() && fresh(Repr - old(Repr))
      ensures (View(), o) == Receive(code, old(View()), payload, now)
    {
      hide Inserted, Reconstructed, NewPending;
      var header := DecodeShardHeader(payload);
      if header.None? {
        return Nothing;
      }
      var h := header.value;
      ghost var before := View();
      var canReconstruct := Store(h, payload[SHARD_HEADER_SIZE..], now);
      if canReconstruct {
        ghost var ready := View();
        o := RemoveAndReconstruct(code, h.blockId);
        assert ready - {h.blockId} == before - {h.blockId};
        return;
      }
      return Nothing;
    }

    method ExpireOld(maxAgeMs: nat, now: Nanos)
      requires Valid()
      modifies this
      ensures Valid() && Repr == old(Repr) && View() == Unexpired(old(View()), maxAgeMs, now)
      ensures forall id :: id in View() <==>
        id in old(View()) && 0 < maxAgeMs && now - old(View())[id].createdAt < maxAgeMs * 1_000_000
    {
      forall id {
        StaysExactly(View(), maxAgeMs, now, id);
      }
      blocks := map id | id in blocks && AgeMs(now, blocks[id].createdAt) < maxAgeMs :: blocks[id];
    }
  }
}
