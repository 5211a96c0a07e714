/** One FEC block, from the payloads submitted to the payloads reconstructed. */
module FecBlocks {
  import opened Bytes
  import opened ErasureCode
  import opened FecCodec

  /** What the receiver gets back of one payload: nothing of a payload whose length is 0 modulo 65536,
      and the first (length modulo 65536) bytes of any other. */
  function Kept(p: Data): seq<Data> {
    var len := |p| % U16;
    if len == 0 then [] else [p[..len]]
  }

  function KeptAll(payloads: seq<Data>): (k: seq<Data>)
    ensures |k| <= |payloads|
  {
    if payloads == [] then [] else KeptAll(payloads[..|payloads| - 1]) + Kept(payloads[|payloads| - 1])
  }

  predicate FitsPrefix(p: Data) {
    0 < |p| < U16
  }

  lemma UnpackPadded(p: Data, len: nat)
    requires 2 + |p| <= len
    ensures UnpackOne(Resize(Prefixed(p), len)) == Kept(p)
  {
    var s := Resize(Prefixed(p), len);
    FieldSizes();
    FromLeOfLe(|p|, 2);
    assert s[..2] == Le(|p|, 2);
    var kept := |p| % U16;
    assert s[2..2 + kept] == p[..kept];
  }

  lemma UnpackZeros(len: nat)
    requires len >= 2
    ensures UnpackOne(Zeros(len)) == []
  {
    var two := Zeros(len)[..2];
    assert two[1..][1..] == [];
    assert FromLe(two[1..]) == 0;
  }

  lemma UnpackDataShard(n: nat, payloads: seq<Data>, i: nat)
    requires |payloads| <= n && i < n
    ensures UnpackOne(DataShards(n, payloads)[i]) == if i < |payloads| then Kept(payloads[i]) else []
  {
    hide UnpackOne, Kept, Resize, Prefixed;
    if i < |payloads| {
      UnpackPadded(payloads[i], ShardLen(payloads));
    } else {
      UnpackZeros(ShardLen(payloads));
    }
  }

  lemma {:induction false} UnpackPrefix(n: nat, payloads: seq<Data>, i: nat)
    requires |payloads| <= n && i <= n
    ensures Unpack(DataShards(n, payloads)[..i]) == KeptAll(if i < |payloads| then payloads[..i] else payloads)
  {
    hide DataShards, UnpackOne, Kept;
    if i > 0 {
      UnpackPrefix(n, payloads, i - 1);
      UnpackDataShard(n, payloads, i - 1);
      var d := DataShards(n, payloads);
      assert d[..i][..i - 1] == d[..i - 1];
      assert i <= |payloads| ==> payloads[..i][..i - 1] == payloads[..i - 1];
      assert payloads[..|payloads|] == payloads;
    }
  }

  /** Padding never leaks: unpacking the data shards of a block gives the kept payloads, in order. */
  lemma UnpackDataShards(n: nat, payloads: seq<Data>)
    requires |payloads| <= n
    ensures Unpack(DataShards(n, payloads)) == KeptAll(payloads)
  {
    UnpackPrefix(n, payloads, n);
    assert DataShards(n, payloads)[..n] == DataShards(n, payloads);
  }

  lemma KeptExact(p: Data)
    ensures Kept(p) == [p] <==> FitsPrefix(p)
  {
    if FitsPrefix(p) {
      assert p[..|p|] == p;
    } else if |p| % U16 != 0 {
      assert |Kept(p)[0]| == |p| % U16 < |p|;
    }
  }

  lemma SplitEqual(a: seq<Data>, b: seq<Data>, c: seq<Data>, d: seq<Data>)
    requires a + b == c + d && |a| <= |c| && |b| <= |d|
    ensures a == c && b == d
  {
    assert a == (a + b)[..|a|] && c == (c + d)[..|c|];
    assert b == (a + b)[|a|..] && d == (c + d)[|c|..];
  }

  /** A batch comes back byte for byte exactly when every payload has between 1 and 65535 bytes. */
  lemma {:induction false} KeptAllExact(payloads: seq<Data>)
    ensures KeptAll(payloads) == payloads <==> forall i :: 0 <= i < |payloads| ==> FitsPrefix(payloads[i])
    decreases |payloads|
  {
    hide Kept, FitsPrefix;
    if payloads != [] {
      var init, last := payloads[..|payloads| - 1], payloads[|payloads| - 1];
      KeptAllExact(init);
      KeptExact(last);
      KeptShort(last);
      assert payloads == init + [last];
      if KeptAll(payloads) == payloads {
        SplitEqual(KeptAll(init), Kept(last), init, [last]);
      }
    }
  }

  lemma KeptShort(p: Data)
    ensures |Kept(p)| <= 1
  {
  }

  // ----- with an erasure code -----

  lemma DataShardsAreBlock(n: nat, payloads: seq<Data>)
    requires |payloads| <= n && n >= 1
    ensures IsBlock(n, DataShards(n, payloads))
  {
  }

  /** The receiver's half-filled block holds nothing but shards of this batch. */
  ghost predicate Collects(code: Code, cfg: FecConfig, payloads: seq<Data>, p: Pending)
    requires |payloads| <= cfg.dataShards
  {
    && p.dataShards == cfg.dataShards && p.parityShards == cfg.parityShards
    && SlotsOf(p.shards, BlockWord(code, cfg, payloads))
    && p.received == |Present(p.shards)|
  }

  lemma BlockWordShape(code: Code, cfg: FecConfig, payloads: seq<Data>)
    requires Lawful(code) && ValidCounts(cfg.dataShards, cfg.parityShards) && |payloads| <= cfg.dataShards
    ensures var w := BlockWord(code, cfg, payloads);
            |w| == cfg.dataShards + cfg.parityShards
            && w[..cfg.dataShards] == DataShards(cfg.dataShards, payloads)
            && forall i :: 0 <= i < |w| ==> |w[i]| == ShardLen(payloads)
  {
    DataShardsAreBlock(cfg.dataShards, payloads);
    CodewordShape(code, cfg.dataShards, cfg.parityShards, DataShards(cfg.dataShards, payloads));
  }

  /** Block round trip: whichever n or more of the shards are there, reconstruction yields the kept
      payloads; with fewer it yields nothing. */
  lemma BlockRoundTrip(code: Code, cfg: FecConfig, payloads: seq<Data>, p: Pending)
    requires Lawful(code) && ValidCounts(cfg.dataShards, cfg.parityShards) && |payloads| <= cfg.dataShards
    requires Collects(code, cfg, payloads, p)
    ensures Reconstructed(code, p) ==
      if |Present(p.shards)| >= cfg.dataShards then Payloads(KeptAll(payloads)) else Nothing
  {
    var data := DataShards(cfg.dataShards, payloads);
    DataShardsAreBlock(cfg.dataShards, payloads);
    BlockWordShape(code, cfg, payloads);
    assert RebuildLaw(code, cfg.dataShards, cfg.parityShards, data, p.shards);
    UnpackDataShards(cfg.dataShards, payloads);
  }

  /** A frame the sender emits is taken as the shard it carries, of the block whose id it carries. */
  lemma FrameIsAccepted(code: Code, cfg: FecConfig, blockId: nat, payloads: seq<Data>, i: nat,
                        blocks: map<nat, Pending>, now: Nanos)
    requires Lawful(code) && ValidCounts(cfg.dataShards, cfg.parityShards) && |payloads| <= cfg.dataShards
    requires blockId < U16 && i < cfg.dataShards + cfg.parityShards
    ensures |BlockFrames(code, cfg, blockId, payloads)| == cfg.dataShards + cfg.parityShards
    ensures Receive(code, blocks, BlockFrames(code, cfg, blockId, payloads)[i].1, now)
         == Accept(code, blocks, blockId, i, cfg.dataShards, cfg.parityShards, BlockWord(code, cfg, payloads)[i], now)
  {
    hide BlockWord, EncodeShardHeader, DecodeShardHeader, Accept, OriginalLen;
    BlockWordShape(code, cfg, payloads);
    var shard := BlockWord(code, cfg, payloads)[i];
    var h := ShardHeader(blockId, i % 256, cfg.dataShards % 256, cfg.parityShards % 256, OriginalLen(cfg, i, shard));
    OriginalLenFits(cfg, i, shard);
    ShardHeaderRoundTrip(h, shard);
  }

  lemma OriginalLenFits(cfg: FecConfig, i: nat, shard: Data)
    ensures OriginalLen(cfg, i, shard) < U16
  {
    if |shard| >= 2 {
      LeOfFromLe(shard[..2]);
      FieldSizes();
    }
  }
}
