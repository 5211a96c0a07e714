/** The check of a destination's name, against the definition of UTF-8 (section 3 of RFC 3629). */
module Utf8 {
  import opened Bytes
  import opened RelayHeader

  /** A Unicode scalar value. */
  predicate Scalar(c: nat) {
    c < 0xD800 || 0xE000 <= c <= 0x10FFFF
  }

  function EncodeScalar(c: nat): (d: Data)
    requires Scalar(c)
    ensures 1 <= |d| <= 4
  {
    if c < 0x80 then [c]
    else if c < 0x800 then [0xC0 + c / 0x40, 0x80 + c % 0x40]
    else if c < 0x1_0000 then [0xE0 + c / 0x1000, 0x80 + c / 0x40 % 0x40, 0x80 + c % 0x40]
    else [0xF0 + c / 0x4_0000, 0x80 + c / 0x1000 % 0x40, 0x80 + c / 0x40 % 0x40, 0x80 + c % 0x40]
  }

  predicate Scalars(cs: seq<nat>) {
    forall i :: 0 <= i < |cs| ==> Scalar(cs[i])
  }

  function EncodeAll(cs: seq<nat>): Data
    requires Scalars(cs)
  {
    if cs == [] then [] else EncodeScalar(cs[0]) + EncodeAll(cs[1..])
  }

  lemma LeadOfScalar(c: nat, rest: Data)
    requires Scalar(c)
    ensures Utf8Lead(EncodeScalar(c) + rest) == |EncodeScalar(c)|
  {
    var d := EncodeScalar(c) + rest;
    assert forall i :: 0 <= i < |EncodeScalar(c)| ==> d[i] == EncodeScalar(c)[i];
  }

  /** The six bits that a later byte of a sequence carries. */
  function Bits(b: byte): nat
    requires Tail(b)
  {
    b - 0x80
  }

  lemma Shift(hi: nat, lo: nat, unit: nat)
    requires lo < unit
    ensures (hi * unit + lo) / unit == hi && (hi * unit + lo) % unit == lo
  {
    ModUnique(hi * unit + lo, unit, hi, lo);
  }

  lemma TwoBytes(lead: nat, x: nat) returns (c: nat)
    requires 2 <= lead < 0x20 && x < 0x40
    ensures Scalar(c) && EncodeScalar(c) == [0xC0 + lead, 0x80 + x]
  {
    c := lead * 0x40 + x;
    Shift(lead, x, 0x40);
  }

  lemma ThreeBytes(lead: nat, x: nat, y: nat) returns (c: nat)
    requires lead < 0x10 && x < 0x40 && y < 0x40 && (lead == 0 ==> x >= 0x20) && (lead == 0xD ==> x < 0x20)
    ensures Scalar(c) && EncodeScalar(c) == [0xE0 + lead, 0x80 + x, 0x80 + y]
  {
    c := lead * 0x1000 + x * 0x40 + y;
    Shift(lead, x * 0x40 + y, 0x1000);
    Shift(lead * 0x40 + x, y, 0x40);
    Shift(lead, x, 0x40);
  }

  lemma FourBytes(lead: nat, x: nat, y: nat, z: nat) returns (c: nat)
    requires lead < 5 && x < 0x40 && y < 0x40 && z < 0x40 && (lead == 0 ==> x >= 0x10) && (lead == 4 ==> x < 0x10)
    ensures Scalar(c) && EncodeScalar(c) == [0xF0 + lead, 0x80 + x, 0x80 + y, 0x80 + z]
  {
    c := lead * 0x4_0000 + x * 0x1000 + y * 0x40 + z;
    Shift(lead, x * 0x1000 + y * 0x40 + z, 0x4_0000);
    Shift(lead * 0x40 + x, y * 0x40 + z, 0x1000);
    Shift(lead, x, 0x40);
    Shift((lead * 0x40 + x) * 0x40 + y, z, 0x40);
    Shift(lead * 0x40 + x, y, 0x40);
  }

  lemma ScalarOfLead(d: Data) returns (c: nat)
    requires Utf8Lead(d) > 0
    ensures Scalar(c) && EncodeScalar(c) == d[..Utf8Lead(d)]
  {
    hide EncodeScalar, Scalar;
    var lead: nat := d[0];
    match Utf8Lead(d)
    case 1 =>
      c := lead;
      OneByte(lead);
    case 2 => c := TwoBytes(lead - 0xC0, Bits(d[1]));
    case 3 => c := ThreeBytes(lead - 0xE0, Bits(d[1]), Bits(d[2]));
    case _ => c := FourBytes(lead - 0xF0, Bits(d[1]), Bits(d[2]), Bits(d[3]));
  }

  lemma OneByte(c: nat)
    requires c < 0x80
    ensures Scalar(c) && EncodeScalar(c) == [c]
  {
  }

  lemma {:induction false} EncodedIsValid(cs: seq<nat>)
    requires Scalars(cs)
    ensures ValidUtf8(EncodeAll(cs))
    decreases |cs|
  {
    hide Utf8Lead, EncodeScalar;
    if cs != [] {
      EncodedIsValid(cs[1..]);
      LeadOfScalar(cs[0], EncodeAll(cs[1..]));
      assert EncodeAll(cs)[|EncodeScalar(cs[0])|..] == EncodeAll(cs[1..]);
    }
  }

  lemma {:induction false} ValidIsEncoded(d: Data) returns (cs: seq<nat>)
    requires ValidUtf8(d)
    ensures Scalars(cs) && EncodeAll(cs) == d
    decreases |d|
  {
    hide Utf8Lead, EncodeScalar;
    if d == [] {
      cs := [];
    } else {
      var c := ScalarOfLead(d);
      var rest := ValidIsEncoded(d[Utf8Lead(d)..]);
      cs := [c] + rest;
      assert cs[1..] == rest;
      assert d == d[..Utf8Lead(d)] + d[Utf8Lead(d)..];
    }
  }

  /** A name is accepted exactly if it is the encoding of some scalar values. */
  lemma ValidExactly(d: Data)
    ensures ValidUtf8(d) <==> exists cs :: Scalars(cs) && EncodeAll(cs) == d
  {
    hide ValidUtf8, EncodeAll;
    if ValidUtf8(d) {
      var cs := ValidIsEncoded(d);
    }
    if cs :| Scalars(cs) && EncodeAll(cs) == d {
      EncodedIsValid(cs);
    }
  }
}
