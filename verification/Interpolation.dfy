/** Interpolation over any field, with polynomials in Newton form. */
module Interpolation {
  import opened Field

  /** A list of (node, coefficient): c0 + (x - x0) * (c1 + (x - x1) * ...). */
  type Poly<F> = seq<(F, F)>

  ghost function Sub<F>(k: Field<F>, a: F, b: F): F {
    k.add(a, k.neg(b))
  }

  ghost function Div<F>(k: Field<F>, a: F, b: F): F {
    k.mul(a, k.inv(b))
  }

  ghost function Eval<F>(k: Field<F>, p: Poly<F>, x: F): F {
    if p == [] then k.zero else k.add(p[0].1, k.mul(Sub(k, x, p[0].0), Eval(k, p[1..], x)))
  }

  // ----- ring identities -----

  lemma AddZeroLeft<F(!new)>(k: Field<F>, a: F)
    requires IsField(k)
    ensures k.add(k.zero, a) == a
  {
    assert Laws(k, k.zero, a, a) && Laws(k, a, a, a);
  }

  lemma AddCancel<F(!new)>(k: Field<F>, a: F, b: F, c: F)
    requires IsField(k) && k.add(a, b) == k.add(a, c)
    ensures b == c
  {
    assert Laws(k, k.neg(a), a, b) && Laws(k, k.neg(a), a, c) && Laws(k, a, k.neg(a), a);
    AddZeroLeft(k, b);
    AddZeroLeft(k, c);
  }

  lemma MulZero<F(!new)>(k: Field<F>, a: F)
    requires IsField(k)
    ensures k.mul(a, k.zero) == k.zero && k.mul(k.zero, a) == k.zero
  {
    assert Laws(k, a, k.zero, k.zero) && Laws(k, k.zero, a, a) && Laws(k, k.mul(a, k.zero), a, a);
    AddCancel(k, k.mul(a, k.zero), k.mul(a, k.zero), k.zero);
  }

  lemma SubSelf<F(!new)>(k: Field<F>, a: F)
    requires IsField(k)
    ensures Sub(k, a, a) == k.zero
  {
    assert Laws(k, a, a, a);
  }

  /** b + (a - b) = a. */
  lemma SubRestores<F(!new)>(k: Field<F>, a: F, b: F)
    requires IsField(k)
    ensures k.add(b, Sub(k, a, b)) == a
  {
    assert Laws(k, b, Sub(k, a, b), a) && Laws(k, a, k.neg(b), b) && Laws(k, k.neg(b), b, b);
    assert Laws(k, b, k.neg(b), b) && Laws(k, a, a, a);
  }

  lemma SubNonzero<F(!new)>(k: Field<F>, a: F, b: F)
    requires IsField(k) && a != b
    ensures Sub(k, a, b) != k.zero
  {
    SubRestores(k, a, b);
    assert Laws(k, b, b, b);
  }

  /** (a - c) + (x - a) = x - c. */
  lemma SubTelescopes<F(!new)>(k: Field<F>, x: F, a: F, c: F)
    requires IsField(k)
    ensures k.add(Sub(k, a, c), Sub(k, x, a)) == Sub(k, x, c)
  {
    SubRestores(k, a, c);
    SubRestores(k, x, a);
    SubRestores(k, x, c);
    assert Laws(k, c, Sub(k, a, c), Sub(k, x, a));
    AddCancel(k, c, k.add(Sub(k, a, c), Sub(k, x, a)), Sub(k, x, c));
  }

  lemma DivMul<F(!new)>(k: Field<F>, a: F, b: F)
    requires IsField(k) && b != k.zero
    ensures k.mul(b, Div(k, a, b)) == a
    ensures Div(k, k.mul(b, a), b) == a
  {
    assert Laws(k, b, Div(k, a, b), a) && Laws(k, a, k.inv(b), b) && Laws(k, k.inv(b), b, a) && Laws(k, b, b, b);
    assert Laws(k, b, a, a) && Laws(k, a, b, k.inv(b)) && Laws(k, a, a, a);
  }

  /** (x - c)(r + (x - a)s) = (a - c)r + (x - a)(r + (x - c)s). */
  lemma DivisionStep<F(!new)>(k: Field<F>, x: F, a: F, c: F, r: F, s: F)
    requires IsField(k)
    ensures var xc, xa, ac := Sub(k, x, c), Sub(k, x, a), Sub(k, a, c);
            k.mul(xc, k.add(r, k.mul(xa, s))) == k.add(k.mul(ac, r), k.mul(xa, k.add(r, k.mul(xc, s))))
  {
    var xc, xa, ac := Sub(k, x, c), Sub(k, x, a), Sub(k, a, c);
    SubTelescopes(k, x, a, c);
    var acr, xar, t := k.mul(ac, r), k.mul(xa, r), k.mul(xc, k.mul(xa, s));
    assert Laws(k, xc, r, k.mul(xa, s));
    assert k.mul(xc, r) == k.add(acr, xar) by {
      assert Laws(k, r, ac, xa) && Laws(k, r, xc, xc) && Laws(k, r, xa, xa);
    }
    assert t == k.mul(xa, k.mul(xc, s)) by {
      assert Laws(k, xc, xa, s) && Laws(k, xa, xc, s);
    }
    assert Laws(k, xa, r, k.mul(xc, s));
    assert Laws(k, acr, xar, t);
  }

  // ----- division by a linear factor -----

  /** The quotient of `p - p(a)` by `x - a`. */
  ghost function Quotient<F>(k: Field<F>, p: Poly<F>, a: F): (q: Poly<F>)
    ensures |q| == if |p| == 0 then 0 else |p| - 1
  {
    if |p| <= 1 then [] else [(p[0].0, Eval(k, p[1..], a))] + Quotient(k, p[1..], a)
  }

  lemma {:induction false} Division<F(!new)>(k: Field<F>, p: Poly<F>, a: F, x: F)
    requires IsField(k)
    ensures Eval(k, p, x) == k.add(Eval(k, p, a), k.mul(Sub(k, x, a), Eval(k, Quotient(k, p, a), x)))
  {
    if |p| <= 1 {
      MulZero(k, Sub(k, x, a));
      assert Laws(k, Eval(k, p, a), a, a);
      if |p| == 1 {
        assert p[1..] == [];
        MulZero(k, Sub(k, x, p[0].0));
        MulZero(k, Sub(k, a, p[0].0));
      }
    } else {
      var c, c0, rest := p[0].0, p[0].1, p[1..];
      var r, s := Eval(k, rest, a), Eval(k, Quotient(k, rest, a), x);
      Division(k, rest, a, x);
      assert Quotient(k, p, a)[1..] == Quotient(k, rest, a);
      DivisionStep(k, x, a, c, r, s);
      assert Laws(k, c0, k.mul(Sub(k, a, c), r), k.mul(Sub(k, x, a), k.add(r, k.mul(Sub(k, x, c), s))));
    }
  }

  // ----- interpolation -----

  ghost predicate DistinctNodes<F>(pts: seq<(F, F)>) {
    forall i, j :: 0 <= i < j < |pts| ==> pts[i].0 != pts[j].0
  }

  /** The points of (f - y0) / (x - x0), given those of f after the first. */
  ghost function Reduced<F>(k: Field<F>, pts: seq<(F, F)>): (q: seq<(F, F)>)
    requires pts != []
    ensures |q| == |pts| - 1
    ensures forall i :: 0 <= i < |q| ==>
      q[i] == (pts[i + 1].0, Div(k, Sub(k, pts[i + 1].1, pts[0].1), Sub(k, pts[i + 1].0, pts[0].0)))
  {
    seq(|pts| - 1, i requires 0 <= i < |pts| - 1 =>
      (pts[i + 1].0, Div(k, Sub(k, pts[i + 1].1, pts[0].1), Sub(k, pts[i + 1].0, pts[0].0))))
  }

  /** The polynomial with at most |pts| coefficients through the given points. */
  ghost function Interpolate<F>(k: Field<F>, pts: seq<(F, F)>): (p: Poly<F>)
    ensures |p| == |pts|
    decreases |pts|
  {
    if pts == [] then [] else [pts[0]] + Interpolate(k, Reduced(k, pts))
  }

  lemma {:induction false} InterpolateHits<F(!new)>(k: Field<F>, pts: seq<(F, F)>, i: nat)
    requires IsField(k) && DistinctNodes(pts) && i < |pts|
    ensures Eval(k, Interpolate(k, pts), pts[i].0) == pts[i].1
    decreases |pts|
  {
    var q := Reduced(k, pts);
    assert Interpolate(k, pts)[1..] == Interpolate(k, q);
    var x0, y0 := pts[0].0, pts[0].1;
    if i == 0 {
      SubSelf(k, x0);
      MulZero(k, Eval(k, Interpolate(k, q), x0));
      assert Laws(k, y0, y0, y0);
    } else {
      InterpolateHits(k, q, i - 1);
      SubNonzero(k, pts[i].0, x0);
      DivMul(k, Sub(k, pts[i].1, y0), Sub(k, pts[i].0, x0));
      SubRestores(k, pts[i].1, y0);
    }
  }

  /** No other polynomial with that many coefficients goes through the points. */
  lemma {:induction false} InterpolateUnique<F(!new)>(k: Field<F>, pts: seq<(F, F)>, f: Poly<F>, x: F)
    requires IsField(k) && DistinctNodes(pts) && |f| <= |pts|
    requires forall i :: 0 <= i < |pts| ==> Eval(k, f, pts[i].0) == pts[i].1
    ensures Eval(k, Interpolate(k, pts), x) == Eval(k, f, x)
    decreases |pts|
  {
    if pts != [] {
      var q, x0, y0 := Reduced(k, pts), pts[0].0, pts[0].1;
      var g := Quotient(k, f, x0);
      forall i | 0 <= i < |q| ensures Eval(k, g, q[i].0) == q[i].1 {
        var xi, yi := pts[i + 1].0, pts[i + 1].1;
        Division(k, f, x0, xi);
        SubNonzero(k, xi, x0);
        var prod := k.mul(Sub(k, xi, x0), Eval(k, g, xi));
        SubRestores(k, yi, y0);
        AddCancel(k, y0, prod, Sub(k, yi, y0));
        DivMul(k, Eval(k, g, xi), Sub(k, xi, x0));
      }
      InterpolateUnique(k, q, g, x);
      assert Interpolate(k, pts)[1..] == Interpolate(k, q);
      Division(k, f, x0, x);
    }
  }
}
