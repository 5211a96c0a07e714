/** Bytes, node names, durations and the little-endian fields shared by every header. */
module Bytes {

  datatype Option<+T> = None | Some(value: T)

  type byte = x: int | 0 <= x < 256

  type Data = seq<byte>

  /** A node identifier: the bytes of its name. */
  datatype Node = Node(name: Data)

  /** A `Duration` or `Instant`, in whole nanoseconds. */
  type Nanos = nat

  const U16: nat := 0x1_0000
  const U32: nat := 0x1_0000_0000
  const U64: nat := 0x1_0000_0000_0000_0000
  const U64_MAX: nat := U64 - 1

  /** `u64::saturating_add`. */
  function SatAdd(a: nat, b: nat): (r: nat)
    ensures r <= U64_MAX && r <= a + b && (r < U64_MAX ==> r == a + b)
  {
    if a + b <= U64_MAX then a + b else U64_MAX
  }

  /** `usize::saturating_sub`. */
  function SatSub(a: nat, b: nat): nat {
    if a <= b then 0 else a - b
  }

  ghost function Below(n: nat): (s: set<nat>)
    ensures |s| == n && forall i :: i in s <==> 0 <= i < n
  {
    if n == 0 then {} else Below(n - 1) + {n - 1}
  }

  /** `n` bytes of `v`, least significant first; higher bytes are cut off, as an `as` cast does. */
  function Le(v: nat, n: nat): (d: Data)
    ensures |d| == n
  {
    if n == 0 then [] else [v % 256] + Le(v / 256, n - 1)
  }

  function FromLe(d: Data): nat {
    if d == [] then 0 else d[0] + 256 * FromLe(d[1..])
  }

  function Pow256(n: nat): (p: nat)
    ensures p > 0
  {
    if n == 0 then 1 else 256 * Pow256(n - 1)
  }

  /** Decoding an encoded field keeps the low `n` bytes of the value, and all of it when it fits. */
  lemma {:induction false} FromLeOfLe(v: nat, n: nat)
    ensures FromLe(Le(v, n)) == v % Pow256(n)
    ensures v < Pow256(n) ==> FromLe(Le(v, n)) == v
  {
    if n > 0 {
      FromLeOfLe(v / 256, n - 1);
      assert Le(v, n)[1..] == Le(v / 256, n - 1);
      DigitSplit(v, Pow256(n - 1));
    }
  }

  lemma DigitSplit(v: nat, m: nat)
    requires m > 0
    ensures v % (256 * m) == v % 256 + 256 * ((v / 256) % m)
  {
    var a, q := v / 256, v / 256 / m;
    assert v == (256 * m) * q + (v % 256 + 256 * (a % m));
    assert a % m <= m - 1;
    ModUnique(v, 256 * m, q, v % 256 + 256 * (a % m));
  }

  lemma ModUnique(v: nat, m: nat, q: nat, r: nat)
    requires m > 0 && v == m * q + r && r < m
    ensures v % m == r && v / m == q
  {
    var q', r' := v / m, v % m;
    if q > q' {
      MulAtLeast(m, q - q');
    } else if q < q' {
      MulAtLeast(m, q' - q);
    }
  }

  lemma MulAtLeast(m: nat, d: nat)
    requires d >= 1
    ensures m * d >= m
  {
    assert m * d == m + m * (d - 1);
  }

  /** Encoding a decoded field gives the same bytes back. */
  lemma {:induction false} LeOfFromLe(d: Data)
    ensures Le(FromLe(d), |d|) == d
    ensures FromLe(d) < Pow256(|d|)
  {
    if d != [] {
      LeOfFromLe(d[1..]);
      assert d == [d[0]] + d[1..];
      assert FromLe(d) % 256 == d[0] && FromLe(d) / 256 == FromLe(d[1..]);
    }
  }

  lemma FieldSizes()
    ensures Pow256(1) == 256 && Pow256(2) == U16 && Pow256(4) == U32 && Pow256(8) == U64
  {
    assert Pow256(3) == 256 * Pow256(2);
    assert Pow256(4) == 256 * Pow256(3);
    assert Pow256(6) == 256 * (256 * Pow256(4));
    assert Pow256(8) == 256 * (256 * Pow256(6));
  }
}
