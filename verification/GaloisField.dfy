/** Polynomials of degree at most 7 over GF(2), as bit-vectors. */
module Polynomials8 {

  /** Multiplication by x: the bit shifted out comes back as x^4 + x^3 + x^2 + 1. */
  function X(a: bv8): bv8 {
    (a << 1) ^ ((a >> 7) ^ ((a >> 7) << 2) ^ ((a >> 7) << 3) ^ ((a >> 7) << 4))
  }

  lemma XLinear(a: bv8, b: bv8)
    ensures X(Plus(a, b)) == Plus(X(a), X(b))
  {
  }

  lemma XNonzero(a: bv8)
    ensures X(a) == 0 <==> a == 0
  {
  }

  lemma XInjective(a: bv8, b: bv8)
    requires X(a) == X(b)
    ensures a == b
  {
  }

  function Plus(a: bv8, b: bv8): bv8 {
    a ^ b
  }

  lemma PlusLaws(a: bv8, b: bv8, c: bv8)
    ensures Plus(Plus(a, b), c) == Plus(a, Plus(b, c)) && Plus(a, b) == Plus(b, a)
    ensures Plus(a, 0) == a && Plus(a, a) == 0
  {
  }
}

/** The field of 256 elements, as polynomials over GF(2) modulo x^8 + x^4 + x^3 + x^2 + 1, with x as generator. */
module GaloisField {
  import opened Polynomials8
  import opened Bytes
  import opened Field

  /** Multiplication by x^k. */
  function Pw(k: nat, a: bv8): bv8 {
    if k == 0 then a else X(Pw(k - 1, a))
  }

  lemma {:induction false} PwLinear(k: nat, a: bv8, b: bv8)
    ensures Pw(k, Plus(a, b)) == Plus(Pw(k, a), Pw(k, b))
  {
    hide X, Plus;
    if k > 0 {
      PwLinear(k - 1, a, b);
      XLinear(Pw(k - 1, a), Pw(k - 1, b));
    }
  }

  lemma {:induction false} PwAdd(j: nat, k: nat, a: bv8)
    ensures Pw(j, Pw(k, a)) == Pw(j + k, a)
  {
    hide X;
    if j > 0 {
      PwAdd(j - 1, k, a);
    }
  }

  lemma {:induction false} PwNonzero(k: nat, a: bv8)
    ensures Pw(k, a) == 0 <==> a == 0
  {
    hide X;
    if k > 0 {
      PwNonzero(k - 1, a);
      XNonzero(Pw(k - 1, a));
    }
  }

  lemma {:induction false} PwInjective(k: nat, a: bv8, b: bv8)
    requires Pw(k, a) == Pw(k, b)
    ensures a == b
  {
    hide X;
    if k > 0 {
      XInjective(Pw(k - 1, a), Pw(k - 1, b));
      PwInjective(k - 1, a, b);
    }
  }

  // ----- x generates all 255 nonzero elements -----

  lemma PwStep(k: nat, a: bv8)
    ensures Pw(k + 1, a) == X(Pw(k, a))
  {
  }

  lemma PwFive(a: bv8)
    ensures Pw(5, a) == X(X(X(X(X(a)))))
  {
    hide X, Pw;
    PwZero(a);
    PwStep(0, a);
    PwStep(1, a);
    PwStep(2, a);
    PwStep(3, a);
    PwStep(4, a);
  }

  lemma PwZero(a: bv8)
    ensures Pw(0, a) == a
  {
  }

  lemma FifteenMore(k: nat, a: bv8, b: bv8, c: bv8, d: bv8)
    requires Pw(k, 1) == a
    requires X(X(X(X(X(a))))) == b && X(X(X(X(X(b))))) == c && X(X(X(X(X(c))))) == d
    ensures Pw(k + 5, 1) == b && Pw(k + 10, 1) == c && Pw(k + 15, 1) == d
  {
    hide X, Pw;
    PwFive(a);
    PwFive(b);
    PwFive(c);
    PwAdd(5, k, 1);
    PwAdd(5, k + 5, 1);
    PwAdd(5, k + 10, 1);
  }

  /** No power of x whose exponent is a proper multiple of 15, 51 or 85 is 1, and the 255th is. */
  lemma Powers()
    ensures Pw(255, 1) == 1 && Pw(51, 1) != 1 && Pw(85, 1) != 1 && Pw(15, 1) != 1
  {
    hide Pw;
    PwZero(1);
    FifteenMore(0, 0x01, 0x20, 0x74, 0x26);
    FifteenMore(15, 0x26, 0xB4, 0x03, 0x60);
    FifteenMore(30, 0x60, 0x9C, 0x6A, 0xC1);
    FifteenMore(45, 0xC1, 0x05, 0xA0, 0xB9);
    PwStep(50, 1);
    FifteenMore(60, 0xB9, 0xBE, 0x5E, 0x0F);
    FifteenMore(75, 0x0F, 0xFD, 0xD6, 0xDF);
    FifteenMore(90, 0xDF, 0xE2, 0x11, 0x1A);
    FifteenMore(105, 0x1A, 0x67, 0x7C, 0x3B);
    FifteenMore(120, 0x3B, 0x33, 0x2E, 0xA9);
    FifteenMore(135, 0xA9, 0x84, 0x4D, 0x55);
    FifteenMore(150, 0x55, 0x72, 0xE6, 0x91);
    FifteenMore(165, 0x91, 0xD7, 0xFF, 0x96);
    FifteenMore(180, 0x96, 0x37, 0xAE, 0x64);
    FifteenMore(195, 0x64, 0x1C, 0xA7, 0x59);
    FifteenMore(210, 0x59, 0xEF, 0xAC, 0x24);
    FifteenMore(225, 0x24, 0xF4, 0xEB, 0x2C);
    FifteenMore(240, 0x2C, 0xE9, 0x6C, 0x01);
  }

  /** If x^d is 1 then so is every power of it. */
  lemma {:induction false} PeriodMultiple(d: nat, m: nat)
    requires Pw(d, 1) == 1
    ensures Pw(d * m, 1) == 1
  {
    hide X, Pw;
    if m == 0 {
      PwZero(1);
    } else {
      PeriodMultiple(d, m - 1);
      PwAdd(d * (m - 1), d, 1);
      assert d * (m - 1) + d == d * m;
    }
  }

  lemma MissingPrimeArithmetic(p: nat, q: nat, r: nat, e: nat, u: nat, v: nat)
    requires p * e == 255 && r * u == p * v + 1
    ensures (p * q + r) * (e * u) == 255 * (q * u + v) + e
  {
    calc {
      (p * q + r) * (e * u);
      == { Distribute(p * q, r, e * u); }
      (p * q) * (e * u) + (1 * r) * (e * u);
      == { Regroup(p, q, e, u); Regroup(1, r, e, u); }
      (p * e) * (q * u) + (1 * e) * (r * u);
      == { Distribute(p * v, 1, e); Regroup(p, v, e, 1); }
      255 * (q * u) + 255 * v + e;
    }
  }

  lemma Distribute(a: nat, b: nat, c: nat)
    ensures (a + b) * c == a * c + b * c
  {
  }

  lemma Regroup(a: nat, b: nat, c: nat, d: nat)
    ensures (a * b) * (c * d) == (a * c) * (b * d)
  {
    assert (a * b) * (c * d) == a * (b * (c * d)) == a * ((b * c) * d) == a * ((c * b) * d) == a * (c * (b * d));
  }

  /** A period with a multiple congruent to e modulo 255 makes x^e equal to 1. */
  lemma PeriodReaches(d: nat, m: nat, w: nat, e: nat)
    requires Pw(d, 1) == 1 && d * m == 255 * w + e
    ensures Pw(e, 1) == 1
  {
    hide X, Pw;
    Powers();
    PeriodMultiple(d, m);
    PeriodMultiple(255, w);
    PwAdd(e, 255 * w, 1);
  }

  /** A period that is invertible modulo a prime factor p of 255 makes x^(255 / p) equal to 1. */
  lemma PeriodMissingPrime(d: nat, p: nat, e: nat, u: nat, v: nat)
    requires Pw(d, 1) == 1 && p > 0 && p * e == 255 && (d % p) * u == p * v + 1
    ensures Pw(e, 1) == 1
  {
    hide X, Pw;
    MissingPrimeArithmetic(p, d / p, d % p, e, u, v);
    assert p * (d / p) + d % p == d;
    PeriodReaches(d, e * u, (d / p) * u + v, e);
  }

  /** Inverses modulo 3, 5 and 17, with the quotients. */
  lemma Inverse(p: nat, r: nat) returns (u: nat, v: nat)
    requires p in {3, 5, 17} && 0 < r < p
    ensures r * u == p * v + 1
  {
    if p == 3 {
      u, v := r, r - 1;
    } else if p == 5 {
      u, v := [0, 1, 3, 2, 4][r], [0, 0, 1, 1, 3][r];
    } else {
      u := [0, 1, 9, 6, 13, 7, 3, 5, 15, 2, 12, 14, 10, 4, 11, 8, 16][r];
      v := [0, 0, 1, 1, 3, 2, 1, 2, 7, 1, 7, 9, 7, 3, 9, 7, 15][r];
    }
  }

  /** The powers x^1 to x^254 differ from 1: a period below 255 = 3 * 5 * 17 misses one of the primes. */
  lemma NoShortPeriod(d: nat)
    requires 0 < d < 255
    ensures Pw(d, 1) != 1
  {
    hide X, Pw;
    Powers();
    if Pw(d, 1) == 1 {
      var p := if d % 3 != 0 then 3 else if d % 5 != 0 then 5 else 17;
      assert d % p != 0;
      var u, v := Inverse(p, d % p);
      PeriodMissingPrime(d, p, if p == 3 then 85 else if p == 5 then 51 else 15, u, v);
    }
  }

  lemma PowersDistinct(i: nat, j: nat)
    requires i < j < 255
    ensures Pw(i, 1) != Pw(j, 1)
  {
    hide X, Pw;
    if Pw(i, 1) == Pw(j, 1) {
      PwAdd(i, j - i, 1);
      PwInjective(i, Pw(j - i, 1), 1);
      NoShortPeriod(j - i);
    }
  }

  ghost predicate IsPower(a: int, n: nat) {
    exists i :: 0 <= i < n && Pw(i, 1) as int == a
  }

  lemma {:induction false} PowersBelow(n: nat) returns (s: set<int>)
    requires n <= 255
    ensures |s| == n && forall a :: a in s ==> 1 <= a <= 255 && IsPower(a, n)
  {
    hide X, Pw;
    if n == 0 {
      s := {};
    } else {
      var s' := PowersBelow(n - 1);
      var a := Pw(n - 1, 1) as int;
      PwNonzero(n - 1, 1);
      BvInt(Pw(n - 1, 1));
      assert IsPower(a, n);
      forall b | b in s' ensures b != a && IsPower(b, n) {
        var i :| 0 <= i < n - 1 && Pw(i, 1) as int == b;
        PowersDistinct(i, n - 1);
        BvInt(Pw(i, 1));
      }
      s := s' + {a};
    }
  }

  lemma BvInt(v: bv8)
    ensures (v as int) as bv8 == v && (v != 0 ==> 1 <= v as int <= 255)
  {
  }

  ghost function Range(n: nat): (s: set<int>)
    ensures |s| == n && forall a :: a in s <==> 1 <= a <= n
  {
    if n == 0 then {} else Range(n - 1) + {n}
  }

  lemma SameSize(s: set<int>, t: set<int>)
    requires s <= t && |s| == |t|
    ensures s == t
  {
    assert t == s + (t - s);
  }

  /** Every nonzero element is a power of x: the 255 powers are distinct, and there are no more elements. */
  lemma AllPowers()
    ensures forall a :: 1 <= a <= 255 ==> IsPower(a, 255)
  {
    hide X, Pw;
    var s := PowersBelow(255);
    SameSize(s, Range(255));
  }

  lemma LogExists(a: bv8)
    requires a != 0
    ensures exists k :: 0 <= k < 255 && Pw(k, 1) == a
  {
    hide X, Pw;
    AllPowers();
    BvInt(a);
    assert IsPower(a as int, 255);
    var k :| 0 <= k < 255 && Pw(k, 1) as int == a as int;
    BvInt(Pw(k, 1));
  }

  ghost function Log(a: bv8): (k: nat)
    requires a != 0
    ensures k < 255 && Pw(k, 1) == a
  {
    LogExists(a);
    var k :| 0 <= k < 255 && Pw(k, 1) == a;
    k
  }

  // ----- the field -----

  ghost function Times(a: bv8, b: bv8): bv8 {
    if a == 0 || b == 0 then 0 else Pw(Log(a) + Log(b), 1)
  }

  ghost function Inverted(a: bv8): bv8 {
    if a == 0 then 0 else Pw(255 - Log(a), 1)
  }

  lemma TimesIsPower(a: bv8, b: bv8)
    requires b != 0
    ensures Times(a, b) == Pw(Log(b), a)
    ensures a != 0 ==> Times(a, b) != 0
  {
    hide X, Pw;
    PwNonzero(Log(b), a);
    if a != 0 {
      PwAdd(Log(b), Log(a), 1);
    }
  }

  lemma TimesCommutes(a: bv8, b: bv8)
    ensures Times(a, b) == Times(b, a)
  {
    hide X, Pw;
  }

  lemma TimesAssociative(a: bv8, b: bv8, c: bv8)
    ensures Times(Times(a, b), c) == Times(a, Times(b, c))
  {
    hide X, Pw;
    if a != 0 && b != 0 && c != 0 {
      TimesIsPower(a, b);
      TimesIsPower(b, c);
      TimesIsPower(Times(a, b), c);
      TimesCommutes(a, Times(b, c));
      TimesIsPower(Times(b, c), a);
      PwAdd(Log(c), Log(a) + Log(b), 1);
      PwAdd(Log(a), Log(b) + Log(c), 1);
    }
  }

  lemma TimesDistributes(a: bv8, b: bv8, c: bv8)
    ensures Times(a, Plus(b, c)) == Plus(Times(a, b), Times(a, c))
  {
    hide X, Pw, Plus;
    if a == 0 {
      PlusLaws(0, 0, 0);
    } else {
      TimesByFixed(a, b);
      TimesByFixed(a, c);
      TimesByFixed(a, Plus(b, c));
      PwLinear(Log(a), b, c);
    }
  }

  lemma TimesByFixed(a: bv8, b: bv8)
    requires a != 0
    ensures Times(a, b) == Pw(Log(a), b)
  {
    TimesCommutes(a, b);
    TimesIsPower(b, a);
  }

  lemma TimesOne(a: bv8)
    ensures Times(a, 1) == a
  {
    hide X, Pw;
    TimesIsPower(a, 1);
    PwNonzero(Log(1), 0);
    if a != 0 {
      PwAdd(Log(1), Log(a), 1);
      PwAdd(Log(a), Log(1), 1);
    }
  }

  lemma TimesInverse(a: bv8)
    requires a != 0
    ensures Times(a, Inverted(a)) == 1
  {
    hide X, Pw;
    Powers();
    TimesByFixed(a, Inverted(a));
    PwAdd(Log(a), 255 - Log(a), 1);
  }

  /** The bits of a byte. */
  ghost function Bits(a: byte): bv8 {
    if a == 0 then 0
    else
      AllPowers();
      assert IsPower(a, 255);
      var i :| 0 <= i < 255 && Pw(i, 1) as int == a;
      Pw(i, 1)
  }

  lemma BitsAsInt(a: byte)
    ensures Bits(a) as int == a
    ensures Bits(a) == 0 ==> a == 0
  {
    if a != 0 {
      AllPowers();
      assert IsPower(a, 255);
    }
  }

  lemma BitsOf(v: bv8)
    ensures Bits(v as int) == v
  {
    hide Bits;
    BvInt(v);
    BitsAsInt(v as int);
    BvInt(Bits(v as int));
  }

  lemma SameBits(a: byte, b: byte)
    requires Bits(a) == Bits(b)
    ensures a == b
  {
    hide Bits;
    BitsAsInt(a);
    BitsAsInt(b);
  }

  ghost function AddBytes(a: byte, b: byte): byte {
    Plus(Bits(a), Bits(b)) as byte
  }

  ghost function MulBytes(a: byte, b: byte): byte {
    Times(Bits(a), Bits(b)) as byte
  }

  ghost function InvByte(a: byte): byte {
    Inverted(Bits(a)) as byte
  }

  /** Bytes with exclusive or as addition. */
  ghost function Gf256(): Field<byte> {
    Field(0, 1, (a: byte, b: byte) => AddBytes(a, b), (a: byte) => a,
          (a: byte, b: byte) => MulBytes(a, b), (a: byte) => InvByte(a))
  }

  lemma ByteBits(a: byte, b: byte)
    ensures Bits(0) == 0 && Bits(1) == 1
    ensures Bits(AddBytes(a, b)) == Plus(Bits(a), Bits(b))
    ensures Bits(MulBytes(a, b)) == Times(Bits(a), Bits(b))
    ensures Bits(InvByte(a)) == Inverted(Bits(a))
  {
    hide Bits, Plus, Times, Inverted;
    BitsOf(0);
    BitsOf(1);
    BitsOf(Plus(Bits(a), Bits(b)));
    BitsOf(Times(Bits(a), Bits(b)));
    BitsOf(Inverted(Bits(a)));
  }

  lemma AddLaws(a: byte, b: byte, c: byte)
    ensures AddBytes(AddBytes(a, b), c) == AddBytes(a, AddBytes(b, c))
    ensures AddBytes(a, b) == AddBytes(b, a) && AddBytes(a, 0) == a && AddBytes(a, a) == 0
  {
    hide Bits, Plus, AddBytes, MulBytes, InvByte;
    ByteBits(a, b);
    ByteBits(b, c);
    ByteBits(b, a);
    ByteBits(AddBytes(a, b), c);
    ByteBits(a, AddBytes(b, c));
    ByteBits(a, 0);
    ByteBits(a, a);
    PlusLaws(Bits(a), Bits(b), Bits(c));
    SameBits(AddBytes(AddBytes(a, b), c), AddBytes(a, AddBytes(b, c)));
    SameBits(AddBytes(a, b), AddBytes(b, a));
    SameBits(AddBytes(a, 0), a);
    SameBits(AddBytes(a, a), 0);
  }

  lemma MulLaws(a: byte, b: byte, c: byte)
    ensures MulBytes(MulBytes(a, b), c) == MulBytes(a, MulBytes(b, c))
    ensures MulBytes(a, b) == MulBytes(b, a) && MulBytes(a, 1) == a
    ensures a != 0 ==> MulBytes(a, InvByte(a)) == 1
  {
    hide Bits, Plus, AddBytes, MulBytes, InvByte, Times, Inverted;
    ByteBits(a, b);
    ByteBits(b, c);
    ByteBits(b, a);
    ByteBits(MulBytes(a, b), c);
    ByteBits(a, MulBytes(b, c));
    ByteBits(a, 1);
    ByteBits(a, InvByte(a));
    TimesAssociative(Bits(a), Bits(b), Bits(c));
    TimesCommutes(Bits(a), Bits(b));
    TimesOne(Bits(a));
    SameBits(MulBytes(MulBytes(a, b), c), MulBytes(a, MulBytes(b, c)));
    SameBits(MulBytes(a, b), MulBytes(b, a));
    SameBits(MulBytes(a, 1), a);
    if a != 0 {
      BitsAsInt(a);
      TimesInverse(Bits(a));
      SameBits(MulBytes(a, InvByte(a)), 1);
    }
  }

  lemma DistributiveLaw(a: byte, b: byte, c: byte)
    ensures MulBytes(a, AddBytes(b, c)) == AddBytes(MulBytes(a, b), MulBytes(a, c))
  {
    hide Bits, Plus, AddBytes, MulBytes, InvByte, Times, Inverted;
    ByteBits(b, c);
    ByteBits(a, b);
    ByteBits(a, c);
    ByteBits(a, AddBytes(b, c));
    ByteBits(MulBytes(a, b), MulBytes(a, c));
    TimesDistributes(Bits(a), Bits(b), Bits(c));
    SameBits(MulBytes(a, AddBytes(b, c)), AddBytes(MulBytes(a, b), MulBytes(a, c)));
  }

  lemma Gf256IsAField()
    ensures IsField(Gf256())
  {
    hide AddBytes, MulBytes, InvByte;
    forall a: byte, b: byte, c: byte ensures Laws(Gf256(), a, b, c) {
      AddLaws(a, b, c);
      MulLaws(a, b, c);
      DistributiveLaw(a, b, c);
    }
  }
}
