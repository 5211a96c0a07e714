/** The header that names a relay payload's flow and destination. */
module RelayHeader {
  import opened Bytes

  predicate Tail(b: byte) {
    0x80 <= b <= 0xBF
  }

  /** Length of the well-formed UTF-8 sequence `d` starts with (section 4 of RFC 3629), or 0. */
  function Utf8Lead(d: Data): (n: nat)
    ensures n <= |d|
  {
    if d == [] then 0
    else if d[0] <= 0x7F then 1
    else if 0xC2 <= d[0] <= 0xDF then
      if |d| >= 2 && Tail(d[1]) then 2 else 0
    else if 0xE0 <= d[0] <= 0xEF then
      if |d| >= 3 && Tail(d[1]) && Tail(d[2])
         && (d[0] == 0xE0 ==> d[1] >= 0xA0) && (d[0] == 0xED ==> d[1] <= 0x9F) then 3 else 0
    else if 0xF0 <= d[0] <= 0xF4 then
      if |d| >= 4 && Tail(d[1]) && Tail(d[2]) && Tail(d[3])
         && (d[0] == 0xF0 ==> d[1] >= 0x90) && (d[0] == 0xF4 ==> d[1] <= 0x8F) then 4 else 0
    else 0
  }

  /** `std::str::from_utf8` succeeds. */
  predicate ValidUtf8(d: Data)
    decreases |d|
  {
    d == [] || (Utf8Lead(d) > 0 && ValidUtf8(d[Utf8Lead(d)..]))
  }

  datatype Relayed = Relayed(flowId: nat, dest: Node, data: Data)

  /** What a node hands to its own edge; `sourceNode` is the peer it came from last. */
  datatype LocalDelivery = LocalDelivery(flowId: nat, data: Data, sourceNode: Node)

  /** A name longer than 255 bytes is cut to its first 255. */
  function Encode(r: Relayed): (d: Data) {
    var destLen: nat := if |r.dest.name| < 255 then |r.dest.name| else 255;
    Le(r.flowId, 4) + [destLen as byte] + r.dest.name[..destLen] + r.data
  }

  function Decode(buf: Data): Option<Relayed> {
    if |buf| < 5 then None
    else
      var destLen: nat := buf[4];
      if |buf| < 5 + destLen then None
      else if !ValidUtf8(buf[5..5 + destLen]) then None
      else Some(Relayed(FromLe(buf[..4]), Node(buf[5..5 + destLen]), buf[5 + destLen..]))
  }

  /** What a `u32` flow id and a `&str` name can be. */
  predicate Typed(r: Relayed) {
    r.flowId < U32 && ValidUtf8(r.dest.name)
  }

  /** Decoding gives back what was encoded exactly when the name has at most 255 bytes. */
  lemma DecodeOfEncode(r: Relayed)
    requires Typed(r)
    ensures Decode(Encode(r)) == Some(r) <==> |r.dest.name| <= 255
  {
    var d, n := Encode(r), if |r.dest.name| < 255 then |r.dest.name| else 255;
    FieldSizes();
    FromLeOfLe(r.flowId, 4);
    assert d[..4] == Le(r.flowId, 4);
    assert d[5..5 + n] == r.dest.name[..n];
    assert d[5 + n..] == r.data;
    if |r.dest.name| <= 255 {
      assert r.dest.name[..n] == r.dest.name;
    }
  }

  /** Whatever decodes is re-encoded to the same bytes. */
  lemma EncodeOfDecode(buf: Data)
    requires Decode(buf).Some?
    ensures Encode(Decode(buf).value) == buf
    ensures Typed(Decode(buf).value) && |Decode(buf).value.dest.name| <= 255
  {
    var r, n: nat := Decode(buf).value, buf[4];
    FieldSizes();
    LeOfFromLe(buf[..4]);
    assert r.dest.name[..n] == buf[5..5 + n];
    assert buf == buf[..4] + [buf[4]] + buf[5..5 + n] + buf[5 + n..];
  }
}
