/** The tunnel's frames: header, encryption, the receive loop's checks, and what fits through them. */
module Wire {
  import opened Bytes
  import opened ErasureCode
  import opened FecCodec
  import opened FecBlocks
  import RelayHeader

  const HEADER_SIZE: nat := 11
  const AUTH_TAG_SIZE: nat := 16
  const MAX_PAYLOAD: nat := 1400
  const MAX_PACKET: nat := HEADER_SIZE + MAX_PAYLOAD + AUTH_TAG_SIZE
  const MAX_RELAY_DATA: nat := 1400

  /** An authenticated cipher for one peer, keyed; the sequence number is the nonce. */
  datatype Aead = Aead(encrypt: (nat, Data) -> Data, decrypt: (nat, Data) -> Option<Data>)

  /** The tag adds 16 bytes, and decryption accepts exactly what encryption of its result produces
      (section 2.8 of RFC 8439). */
  ghost predicate SealLaw(a: Aead, seqNo: nat, plain: Data, cipher: Data) {
    && |a.encrypt(seqNo, plain)| == |plain| + AUTH_TAG_SIZE
    && (a.decrypt(seqNo, cipher) == Some(plain) <==> cipher == a.encrypt(seqNo, plain))
  }

  ghost predicate Sealing(a: Aead) {
    forall seqNo: nat, plain, cipher {:trigger SealLaw(a, seqNo, plain, cipher)} :: SealLaw(a, seqNo, plain, cipher)
  }

  function EncodeHeader(packetType: byte, seqNo: nat, payloadLen: nat): (d: Data)
    ensures |d| == HEADER_SIZE
  {
    [packetType] + Le(seqNo, 8) + Le(payloadLen, 2)
  }

  function DecodeHeader(buf: Data): (byte, nat, nat)
    requires |buf| >= HEADER_SIZE
  {
    (buf[0], FromLe(buf[1..9]), FromLe(buf[9..11]))
  }

  lemma HeaderRoundTrip(packetType: byte, seqNo: nat, payloadLen: nat, rest: Data)
    requires seqNo < U64
    ensures DecodeHeader(EncodeHeader(packetType, seqNo, payloadLen) + rest) == (packetType, seqNo, payloadLen % U16)
  {
    var d := EncodeHeader(packetType, seqNo, payloadLen) + rest;
    FieldSizes();
    FromLeOfLe(seqNo, 8);
    FromLeOfLe(payloadLen, 2);
    assert d[1..9] == Le(seqNo, 8) && d[9..11] == Le(payloadLen, 2);
  }

  datatype Packet = Packet(packetType: byte, seqNo: nat, payload: Data)

  /** One frame; the length field keeps the low 16 bits of the ciphertext's length. */
  function Sealed(a: Aead, p: Packet): Data {
    var cipher := a.encrypt(p.seqNo, p.payload);
    EncodeHeader(p.packetType, p.seqNo, |cipher|) + cipher
  }

  /** The receive loop's treatment of one datagram, which its buffer cuts to MAX_PACKET bytes. */
  function Opened(a: Aead, datagram: Data): Option<Packet> {
    var buf := if |datagram| > MAX_PACKET then datagram[..MAX_PACKET] else datagram;
    if |buf| < HEADER_SIZE then None
    else
      var (packetType, seqNo, payloadLen) := DecodeHeader(buf);
      if HEADER_SIZE + payloadLen > |buf| then None
      else
        match a.decrypt(seqNo, buf[HEADER_SIZE..HEADER_SIZE + payloadLen])
        case None => None
        case Some(plain) => Some(Packet(packetType, seqNo, plain))
  }

  class Tunnel {
    const crypto: Aead
    var txSeq: nat

    constructor (crypto: Aead)
      ensures this.crypto == crypto && txSeq == 0
    {
      this.crypto := crypto;
      txSeq := 0;
    }

    method Send(packetType: byte, payload: Data) returns (frame: Data)
      requires txSeq < U64
      modifies this
      ensures frame == Sealed(crypto, Packet(packetType, old(txSeq), payload))
      ensures txSeq == (old(txSeq) + 1) % U64
    {
      var seqNo := txSeq;
      txSeq := (txSeq + 1) % U64;
      var cipher := crypto.encrypt(seqNo, payload);
      frame := EncodeHeader(packetType, seqNo, |cipher| % U16) + cipher;
      LeTruncates(|cipher|);
    }
  }

  lemma LeTruncates(n: nat)
    ensures Le(n % U16, 2) == Le(n, 2)
  {
    FieldSizes();
    FromLeOfLe(n, 2);
    FromLeOfLe(n % U16, 2);
    LeOfFromLe(Le(n, 2));
    LeOfFromLe(Le(n % U16, 2));
  }

  lemma SealLawHolds(a: Aead, seqNo: nat, plain: Data, cipher: Data)
    requires Sealing(a)
    ensures |a.encrypt(seqNo, plain)| == |plain| + AUTH_TAG_SIZE
    ensures a.decrypt(seqNo, cipher) == Some(plain) <==> cipher == a.encrypt(seqNo, plain)
  {
    assert SealLaw(a, seqNo, plain, cipher);
  }

  lemma ShortFrameFits(a: Aead, p: Packet, rest: Data)
    requires Sealing(a) && p.seqNo < U64 && |p.payload| <= MAX_PAYLOAD
    ensures Opened(a, Sealed(a, p) + rest) == Some(p)
  {
    hide Sealing;
    var cipher, d := a.encrypt(p.seqNo, p.payload), Sealed(a, p) + rest;
    SealLawHolds(a, p.seqNo, p.payload, cipher);
    var room := if |rest| <= MAX_PAYLOAD - |p.payload| then |rest| else MAX_PAYLOAD - |p.payload|;
    var buf := if |d| > MAX_PACKET then d[..MAX_PACKET] else d;
    assert buf == EncodeHeader(p.packetType, p.seqNo, |cipher|) + (cipher + rest[..room]);
    HeaderRoundTrip(p.packetType, p.seqNo, |cipher|, cipher + rest[..room]);
    hide EncodeHeader, DecodeHeader;
    assert buf[HEADER_SIZE..HEADER_SIZE + |cipher|] == cipher;
  }

  lemma LongFrameFails(a: Aead, p: Packet, rest: Data)
    requires Sealing(a) && p.seqNo < U64 && |p.payload| > MAX_PAYLOAD
    ensures Opened(a, Sealed(a, p) + rest) != Some(p)
  {
    hide Sealing;
    var cipher, d := a.encrypt(p.seqNo, p.payload), Sealed(a, p) + rest;
    SealLawHolds(a, p.seqNo, p.payload, cipher);
    var kept := cipher[..MAX_PACKET - HEADER_SIZE];
    var buf := d[..MAX_PACKET];
    assert buf == EncodeHeader(p.packetType, p.seqNo, |cipher|) + kept;
    HeaderRoundTrip(p.packetType, p.seqNo, |cipher|, kept);
    hide EncodeHeader, DecodeHeader;
    if HEADER_SIZE + |cipher| % U16 <= MAX_PACKET {
      SealLawHolds(a, p.seqNo, p.payload, buf[HEADER_SIZE..HEADER_SIZE + |cipher| % U16]);
    }
  }

  /** A packet goes through intact exactly when its payload has at most 1400 bytes, whatever follows it in the
      datagram. */
  lemma FrameFits(a: Aead, p: Packet, rest: Data)
    requires Sealing(a) && p.seqNo < U64
    ensures Opened(a, Sealed(a, p) + rest) == Some(p) <==> |p.payload| <= 1400
  {
    hide Sealing, Opened, Sealed;
    if |p.payload| <= 1400 {
      ShortFrameFits(a, p, rest);
    } else {
      LongFrameFails(a, p, rest);
    }
  }

  // ----- blocks -----

  /** A relay payload small enough not to lose its block. */
  predicate Carried(p: Data) {
    |p| <= MAX_PAYLOAD - SHARD_HEADER_SIZE - 2
  }

  /** No payload of the block is too long. */
  predicate Passes(payloads: seq<Data>) {
    forall i :: 0 <= i < |payloads| ==> Carried(payloads[i])
  }

  lemma {:induction false} ShardLenIsLongest(payloads: seq<Data>, m: nat)
    ensures ShardLen(payloads) <= 2 + m <==> forall i :: 0 <= i < |payloads| ==> |payloads[i]| <= m
    decreases |payloads|
  {
    if payloads != [] {
      ShardLenIsLongest(payloads[..|payloads| - 1], m);
    }
  }

  /** The frames of a block go through all together or not at all, and they do exactly when every relay
      payload in it has at most 1391 bytes. */
  lemma BlockFits(a: Aead, code: Code, cfg: FecConfig, blockId: nat, payloads: seq<Data>, i: nat, seqNo: nat)
    requires Sealing(a) && Lawful(code) && ValidCounts(cfg.dataShards, cfg.parityShards)
    requires |payloads| <= cfg.dataShards && i < cfg.dataShards + cfg.parityShards && seqNo < U64
    ensures |BlockFrames(code, cfg, blockId, payloads)| == cfg.dataShards + cfg.parityShards
    ensures var (packetType, shard) := BlockFrames(code, cfg, blockId, payloads)[i];
            Opened(a, Sealed(a, Packet(packetType, seqNo, shard))) == Some(Packet(packetType, seqNo, shard)) <==>
              Passes(payloads)
  {
    BlockWordShape(code, cfg, payloads);
    var (packetType, shard) := BlockFrames(code, cfg, blockId, payloads)[i];
    FrameFits(a, Packet(packetType, seqNo, shard), []);
    assert Sealed(a, Packet(packetType, seqNo, shard)) + [] == Sealed(a, Packet(packetType, seqNo, shard));
    ShardLenIsLongest(payloads, MAX_PAYLOAD - SHARD_HEADER_SIZE - 2);
  }

  // ----- the TCP edge -----

  /** `slice::chunks(size)`. */
  function Chunks(d: Data, size: nat): (c: seq<Data>)
    requires size > 0
    decreases |d|
  {
    if d == [] then [] else if |d| <= size then [d] else [d[..size]] + Chunks(d[size..], size)
  }

  function Joined(shards: seq<Data>): Data {
    if shards == [] then [] else shards[0] + Joined(shards[1..])
  }

  /** The chunks are the data, in order; all but the last have `size` bytes, and none is empty. */
  lemma {:induction false} ChunksJoin(d: Data, size: nat)
    requires size > 0
    ensures Joined(Chunks(d, size)) == d
    ensures var c := Chunks(d, size);
            forall i :: 0 <= i < |c| ==> 0 < |c[i]| <= size && (i + 1 < |c| ==> |c[i]| == size)
    decreases |d|
  {
    hide Joined;
    if |d| > size {
      var rest := Chunks(d[size..], size);
      ChunksJoin(d[size..], size);
      JoinedCons(d[..size], rest);
      assert d[..size] + d[size..] == d;
      forall i | 0 <= i < |rest| + 1
        ensures Chunks(d, size)[i] == if i == 0 then d[..size] else rest[i - 1]
      {
      }
    } else if d != [] {
      assert Chunks(d, size) == [d] + [];
      JoinedCons(d, []);
      JoinedNone();
      assert d + [] == d;
    } else {
      JoinedNone();
    }
  }

  lemma JoinedCons(first: Data, rest: seq<Data>)
    ensures Joined([first] + rest) == first + Joined(rest)
  {
    assert ([first] + rest)[1..] == rest;
  }

  lemma JoinedNone()
    ensures Joined([]) == []
  {
  }

  /** Every relay payload a read is cut into gets through. */
  ghost predicate ReadCarried(flowId: nat, dest: Node, read: Data) {
    forall c :: c in Chunks(read, MAX_RELAY_DATA) ==> Carried(RelayHeader.Encode(RelayHeader.Relayed(flowId, dest, c)))
  }

  /** A read goes through whole exactly when it and the destination's name have at most 1386 bytes together:
      a longer read has a chunk, full or not, that loses its whole block. */
  lemma ReadSurvives(flowId: nat, dest: Node, read: Data)
    requires read != [] && |dest.name| <= 255
    ensures ReadCarried(flowId, dest, read) <==> |dest.name| + |read| <= 1386
  {
    var c := Chunks(read, MAX_RELAY_DATA);
    assert c[0] == if |read| <= MAX_RELAY_DATA then read else read[..MAX_RELAY_DATA];
    assert c[0] in c;
    assert Carried(RelayHeader.Encode(RelayHeader.Relayed(flowId, dest, c[0]))) <==> |dest.name| + |c[0]| <= 1386;
  }

  // ----- the unframed FEC path -----

  function DivCeil(a: nat, b: nat): nat
    requires b > 0
  {
    (a + b - 1) / b
  }

  lemma DivCeilCovers(a: nat, n: nat)
    requires n > 0
    ensures a <= n * DivCeil(a, n)
    ensures a > 0 ==> DivCeil(a, n) > 0 && (DivCeil(a, n) - 1) * n < a
  {
  }

  /** `n` pieces of `size` bytes: the data in order, then zeros. */
  function Pieces(data: Data, n: nat, size: nat): (p: seq<Data>)
    ensures |p| == n && forall i :: 0 <= i < n ==> |p[i]| == size
  {
    if n == 0 then []
    else
      var cut := if |data| < size then |data| else size;
      [Resize(data[..cut], size)] + Pieces(data[cut..], n - 1, size)
  }

  /** Put together again, the pieces are the data, padded. */
  lemma {:induction false} PiecesJoin(data: Data, n: nat, size: nat)
    requires |data| <= n * size
    ensures |Joined(Pieces(data, n, size))| == n * size
    ensures Joined(Pieces(data, n, size)) == Resize(data, n * size)
  {
    if n > 0 {
      var cut := if |data| < size then |data| else size;
      assert n * size == (n - 1) * size + size;
      assert |data[cut..]| <= (n - 1) * size by {
        NonNegative(n - 1, size);
      }
      PiecesJoin(data[cut..], n - 1, size);
      var p := Pieces(data, n, size);
      assert p[1..] == Pieces(data[cut..], n - 1, size);
      PaddingJoins(data, cut, size, (n - 1) * size);
    }
  }

  lemma NonNegative(a: nat, b: nat)
    ensures a * b >= 0
  {
  }

  lemma PaddingJoins(data: Data, cut: nat, size: nat, rest: nat)
    requires cut == if |data| < size then |data| else size
    requires |data| <= size + rest
    ensures Resize(data[..cut], size) + Resize(data[cut..], rest) == Resize(data, size + rest)
  {
    if |data| <= size {
      assert data[..cut] == data && data[cut..] == [];
    }
  }

  /** `send_with_fec`'s splitting: n equal shards, no longer than they must be, that begin with the data and end in
      zeros. Empty data is refused, as `chunks(0)` refuses it. */
  method SplitForFec(data: Data, n: nat) returns (shards: seq<Data>)
    requires n >= 1 && data != []
    ensures IsBlock(n, shards)
    ensures (|shards[0]| - 1) * n < |data| <= n * |shards[0]|
    ensures Joined(shards) == Resize(data, n * |shards[0]|)
  {
    var size := DivCeil(|data|, n);
    DivCeilCovers(|data|, n);
    shards := [];
    var rest := data;
    while |shards| < n
      invariant |shards| <= n
      invariant shards + Pieces(rest, n - |shards|, size) == Pieces(data, n, size)
    {
      var cut := if |rest| < size then |rest| else size;
      var shard := Resize(rest[..cut], size);
      ghost var later := Pieces(rest[cut..], n - |shards| - 1, size);
      assert shards + ([shard] + later) == (shards + [shard]) + later;
      shards := shards + [shard];
      rest := rest[cut..];
    }
    assert shards + [] == shards;
    PiecesJoin(data, n, size);
  }

  function TagOf(cipher: Data): Data
    requires |cipher| >= AUTH_TAG_SIZE
  {
    cipher[|cipher| - AUTH_TAG_SIZE..]
  }

  function ZeroTagOpen(cipher: Data): Option<Data> {
    if |cipher| >= AUTH_TAG_SIZE && TagOf(cipher) == Zeros(AUTH_TAG_SIZE) then Some(cipher[..|cipher| - AUTH_TAG_SIZE])
    else None
  }

  lemma ZeroTagLaw(plain: Data, cipher: Data)
    ensures ZeroTagOpen(cipher) == Some(plain) <==> cipher == plain + Zeros(AUTH_TAG_SIZE)
  {
    var sealed := plain + Zeros(AUTH_TAG_SIZE);
    assert TagOf(sealed) == Zeros(AUTH_TAG_SIZE) && sealed[..|plain|] == plain;
    if |cipher| >= AUTH_TAG_SIZE {
      assert cipher == cipher[..|cipher| - AUTH_TAG_SIZE] + TagOf(cipher);
    }
  }

  /** The laws asked of the cipher can be met. */
  lemma SealingExists() returns (a: Aead)
    ensures Sealing(a)
  {
    a := Aead((s: nat, p: Data) => p + Zeros(AUTH_TAG_SIZE), (s: nat, c: Data) => ZeroTagOpen(c));
    forall seqNo: nat, plain: Data, cipher: Data ensures SealLaw(a, seqNo, plain, cipher) {
      hide ZeroTagOpen;
      ZeroTagLaw(plain, cipher);
    }
  }
}
