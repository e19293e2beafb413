/**
 decafDecode of pak.go: which numbers it accepts, the point it returns, and the
 round trip through decafEncode.
 */
module Decoder {
  import opened Wrappers
  import opened ModArith
  import opened Residues
  import opened SquareRoot
  import opened Edwards
  import opened Points
  import opened Decaf

  /** u = Z^2 - 4 d s^2 with Z = 1 + s^2. */
  ghost function U(d: int, s: int): int {
    (1 + s * s) * (1 + s * s) - 4 * d * (s * s)
  }

  /** u never vanishes, since d is not a square. */
  lemma UNonzero(c: Curve, s: int)
    requires Params(c)
    ensures !Zero(c.p, U(c.d, s))
  {
    var p, d := c.p, c.d;
    if Zero(p, U(d, s)) {
      var m, k := 1 + s * s, 2 * s;
      UTerms(d, s, m);
      Combine(p, m * m, d * k * k, 1, U(d, s), 0);
      SmallNonzero(p, 2);
      NoZeroDivisors(p, 2, s);
      if Zero(p, s) {
        MulCong(p, s, 0, s, 0);
        UAtZero(p, d, s * s);
        OneNotZero(p, U(d, s));
      } else {
        SquareQuotient(p, d, k, m);
      }
    }
  }

  lemma UTerms(d: int, s: int, m: int)
    ensures m * m - 4 * d * (s * s) == m * m - d * (2 * s) * (2 * s)
  {
  }

  lemma UAtZero(p: int, d: int, ss: int)
    requires Cong(p, ss, 0)
    ensures Cong(p, (1 + ss) * (1 + ss) - 4 * d * ss, 1)
  {
    assert (1 + ss) * (1 + ss) - 4 * d * ss - 1 == (ss + 2 - 4 * d) * (ss - 0);
    Combine(p, (1 + ss) * (1 + ss) - 4 * d * ss, 1, ss + 2 - 4 * d, ss, 0);
  }

  // ----- What the lines of decafDecode compute

  lemma DecodeNumbers(p: nat, d: int, s: int)
    requires p > 0
    ensures var ss := Square(p, s);
            var Z := ModAdd(p, ModMul(p, 1, ss), 1);
            var u := ModSub(p, Square(p, Z), ModMul(p, ModMul(p, 4, d), ss));
            Cong(p, Z, 1 + s * s) && Cong(p, u, U(d, s)) && Cong(p, ModMul(p, u, ss), U(d, s) * (s * s))
  {
    var ss := Square(p, s);
    var Z := ModAdd(p, ModMul(p, 1, ss), 1);
    var u := ModSub(p, Square(p, Z), ModMul(p, ModMul(p, 4, d), ss));
    Refl(p, s);
    Refl(p, 1);
    Refl(p, 4);
    Refl(p, d);
    Ops(p, s, s, s, s);
    Ops(p, 1, 1, ss, s * s);
    Ops(p, ModMul(p, 1, ss), s * s, 1, 1);
    Ops(p, Z, 1 + s * s, Z, 1 + s * s);
    Ops(p, 4, 4, d, d);
    Ops(p, ModMul(p, 4, d), 4 * d, ss, s * s);
    Ops(p, Square(p, Z), (1 + s * s) * (1 + s * s), ModMul(p, ModMul(p, 4, d), ss), 4 * d * (s * s));
    Ops(p, u, U(d, s), ss, s * s);
  }

  /** The shape of a decoded point: w is the affine y. */
  ghost predicate Shape(p: nat, P: ExtPoint, s: int, w: int) {
    Stands(p, P, 2 * s, w * (1 + s * s), 1 + s * s, w * (2 * s))
  }

  lemma DecodedShape(p: nat, s: nat, Z: nat, v: nat, c: Curve)
    requires p == c.p > 0 && s != 0 && Cong(p, Z, 1 + s * s)
    ensures Shape(p, Decoded(c, s, Z, v), s, v * s * (1 - s * s))
  {
    var w0 := ModMul(p, ModMul(p, v, s), ModSub(p, 2, Z));
    var w := v * s * (1 - s * s);
    var X := ModAdd(p, s, s);
    Refl(p, s);
    Refl(p, v);
    Refl(p, 2);
    Ops(p, v, v, s, s);
    Ops(p, 2, 2, Z, 1 + s * s);
    Ops(p, ModMul(p, v, s), v * s, ModSub(p, 2, Z), 1 - s * s);
    Ops(p, s, s, s, s);
    Ops(p, w0, w, Z, 1 + s * s);
    Ops(p, w0, w, X, 2 * s);
    Renew(p, X, 2 * s);
    Renew(p, ModMul(p, w0, Z), w * (1 + s * s));
    Renew(p, Z, 1 + s * s);
    Renew(p, ModMul(p, w0, X), w * (2 * s));
  }

  lemma DecodedAtZero(c: Curve, Z: nat, v: nat)
    requires c.p >= 2 && Cong(c.p, Z, 1)
    ensures Decoded(c, 0, Z, v) == ExtPoint(0, 1, 1, 0)
  {
    var p := c.p;
    CongIffMod(p, Z, 1);
    ModSmall(p, 1);
    ModSmall(p, 0);
    assert ModMul(p, v, 0) == 0 && ModMul(p, ModMul(p, v, 0), ModSub(p, 2, Z)) == 0;
  }

  /** The v of a successful decoding: v^2 u s^2 = 1, with u v non-negative. */
  ghost predicate IsV(p: nat, d: int, s: int, v: int)
    requires p > 0
  {
    Cong(p, (U(d, s) * (s * s)) * (v * v), 1) && NonNegative(p, U(d, s) * v)
  }

  /** decafNeg(u i, i) makes u v non-negative. */
  lemma ChosenSign(p: nat, u: int, u': int, n: int, i: int, v: int)
    requires p > 0 && p % 2 == 1 && Cong(p, u, u') && Cong(p, n, u * i) && SignedBy(p, n, i, v) && !Zero(p, u' * i)
    ensures PlusMinus(p, v, i) && NonNegative(p, u' * v)
  {
    Refl(p, i);
    MulCong(p, u, u', i, i);
    Trans(p, n, u * i, u' * i);
    NonNegativeCong(p, n, u' * i);
    Refl(p, u');
    if NonNegative(p, n) {
      MulCong(p, u', u', v, i);
      NonNegativeCong(p, u' * v, u' * i);
    } else {
      MulCong(p, u', u', v, -i);
      assert u' * (-i) == -(u' * i);
      SignDichotomy(p, u' * i);
      NonNegativeCong(p, u' * v, -(u' * i));
    }
  }

  lemma PlusMinusSquares(p: int, a: int, b: int)
    requires PlusMinus(p, a, b)
    ensures Cong(p, a * a, b * b)
  {
    if Cong(p, a, b) {
      MulCong(p, a, b, a, b);
    } else {
      MulCong(p, a, -b, a, -b);
      NegatedSquare(b);
    }
  }

  /** A nonzero root r of t inverts to i with t i^2 = 1. */
  lemma InvertRoot(p: nat, r: int, t: int) returns (i: nat)
    requires IsPrime(p) && Cong(p, r * r, t) && !Zero(p, t)
    ensures i == ModInv(p, r) && Cong(p, t * (i * i), 1) && !Zero(p, i)
  {
    NoZeroDivisors(p, r, r);
    if Zero(p, r) {
      Sym(p, r * r, t);
      Trans(p, t, r * r, 0);
    }
    Inverse(p, r);
    i := ModInv(p, r);
    MulCong(p, r * i, 1, r * i, 1);
    ProductSquare(r, i);
    ReplaceFactor(p, r * r, t, i * i, 1);
  }

  lemma FindV(p: nat, d: int, s: int, u: nat, t: nat, root: nat) returns (i: nat, v: nat)
    requires OddPrime(p) && !Zero(p, U(d, s)) && !Zero(p, t)
    requires Cong(p, u, U(d, s)) && Cong(p, t, U(d, s) * (s * s)) && Cong(p, root * root, t)
    ensures i == ModInv(p, root) && v == DecafNeg(p, ModMul(p, u, i), i) && IsV(p, d, s, v)
  {
    i := InvertRoot(p, root, t);
    v := DecafNeg(p, ModMul(p, u, i), i);
    DecafNegSigns(p, ModMul(p, u, i), i);
    ModCong(p, u * i);
    NoZeroDivisors(p, U(d, s), i);
    ChosenSign(p, u, U(d, s), ModMul(p, u, i), i, v);
    PlusMinusSquares(p, v, i);
    ReplaceFactor(p, t, U(d, s) * (s * s), i * i, 1);
    Refl(p, U(d, s) * (s * s));
    MulCong(p, U(d, s) * (s * s), U(d, s) * (s * s), v * v, i * i);
    Trans(p, (U(d, s) * (s * s)) * (v * v), (U(d, s) * (s * s)) * (i * i), 1);
  }

  /** P is what decafDecode returns for a nonzero s. */
  ghost predicate Decodes(p: nat, d: int, s: int, P: ExtPoint)
    requires p > 0
  {
    exists v :: IsV(p, d, s, v) && Shape(p, P, s, v * s * (1 - s * s))
  }

  lemma SquareTimesSquare(p: nat, a: int, s: int)
    requires IsPrime(p) && !Zero(p, s)
    ensures IsSquare(p, a * (s * s)) <==> IsSquare(p, a)
  {
    Assoc(a, s, s);
    if IsSquare(p, a) {
      var x :| IsRoot(p, x, a);
      Refl(p, s * s);
      MulCong(p, x * x, a, s * s, s * s);
      ProductSquare(x, s);
      assert IsRoot(p, x * s, a * (s * s));
    }
    if IsSquare(p, a * (s * s)) {
      var x :| IsRoot(p, x, a * (s * s));
      SquareQuotient(p, a, s, x);
    }
  }

  lemma NonzeroCong(p: int, a: int, b: int)
    requires Cong(p, a, b)
    ensures Zero(p, a) <==> Zero(p, b)
  {
    Sym(p, a, b);
    if Zero(p, a) { Trans(p, b, a, 0); }
    if Zero(p, b) { Trans(p, a, b, 0); }
  }

  lemma RootOfSpec(p: nat, v: int)
    requires OddPrime(p) && p % 4 == 3
    ensures CorrectRoot(p, v, Root(RootOf(p, v)))
  {
    HalfSplit(p);
    MsqrtCorrect(p, v);
  }

  /** decafDecode accepts exactly the s in [0, (p-1)/2] for which u is a square. */
  lemma DecodeUnfold(c: Curve, s: nat)
    requires Params(c) && 0 < s <= Half(c.p)
    ensures DecafDecode(c, s).Some? <==> IsSquare(c.p, U(c.d, s))
    ensures DecafDecode(c, s).Some? ==> Decodes(c.p, c.d, s, DecafDecode(c, s).value)
  {
    var p, d := c.p, c.d;
    var ss := Square(p, s);
    var Z := ModAdd(p, ModMul(p, 1, ss), 1);
    var u := ModSub(p, Square(p, Z), ModMul(p, ModMul(p, 4, d), ss));
    DecodeNumbers(p, d, s);
    DecodeFromSpec(c, s, Z, u, ModMul(p, u, ss));
  }

  lemma DecodeFromSpec(c: Curve, s: nat, Z: nat, u: nat, t: nat)
    requires Params(c) && 0 < s <= Half(c.p)
    requires Cong(c.p, Z, 1 + s * s) && Cong(c.p, u, U(c.d, s)) && Cong(c.p, t, U(c.d, s) * (s * s)) && t < c.p
    ensures DecodeFrom(c, s, Z, u, t).Some? <==> IsSquare(c.p, U(c.d, s))
    ensures DecodeFrom(c, s, Z, u, t).Some? ==> Decodes(c.p, c.d, s, DecodeFrom(c, s, Z, u, t).value)
  {
    var p, d := c.p, c.d;
    SmallNonzero(p, s);
    UNonzero(c, s);
    Radicand(p, U(d, s), s, t);
    RootOfSpec(p, t);
    var root := RootOf(p, t);
    if root != 0 {
      var i, v := FindV(p, d, s, u, t, root);
      DecodedShape(p, s, Z, v, c);
    }
  }

  lemma Radicand(p: nat, u: int, s: int, t: nat)
    requires IsPrime(p) && !Zero(p, u) && !Zero(p, s) && Cong(p, t, u * (s * s))
    ensures !Zero(p, t) && t != 0 && (IsSquare(p, t) <==> IsSquare(p, u))
  {
    NoZeroDivisors(p, s, s);
    NoZeroDivisors(p, u, s * s);
    NonzeroCong(p, t, u * (s * s));
    Refl(p, 0);
    SquareCong(p, t, u * (s * s));
    SquareTimesSquare(p, u, s);
  }

  lemma DecodeZero(c: Curve)
    requires Params(c)
    ensures DecafDecode(c, 0) == Some(ExtPoint(0, 1, 1, 0))
  {
    var p, d := c.p, c.d;
    DecodeNumbers(p, d, 0);
    var ss := Square(p, 0);
    var Z := ModAdd(p, ModMul(p, 1, ss), 1);
    var u := ModSub(p, Square(p, Z), ModMul(p, ModMul(p, 4, d), ss));
    assert ss == 0;
    assert ModMul(p, u, ss) == 0;
    DecodedAtZero(c, Z, DecafNeg(p, ModMul(p, u, 1), 1));
  }

  // ----- The decoded point

  lemma VSquared(p: int, u: int, ss: int, v: int)
    requires Cong(p, (u * ss) * (v * v), 1)
    ensures Cong(p, (v * v * ss * (1 - ss) * (1 - ss)) * u, (1 - ss) * (1 - ss))
  {
    VSquaredTerms(u, ss, v * v, (1 - ss) * (1 - ss));
    assert v * v * ss * (1 - ss) * (1 - ss) == v * v * ss * ((1 - ss) * (1 - ss));
    Combine(p, (v * v * ss * (1 - ss) * (1 - ss)) * u, (1 - ss) * (1 - ss), (1 - ss) * (1 - ss), (u * ss) * (v * v), 1);
  }

  lemma VSquaredTerms(u: int, ss: int, vv: int, m: int)
    ensures (vv * ss * m) * u - m == m * ((u * ss) * vv - 1)
  {
  }

  lemma WTerms(v: int, s: int, m: int)
    ensures (v * s * m) * (v * s * m) == v * v * (s * s) * m * m
  {
  }

  /** w^2 u = (1 - s^2)^2. */
  lemma WSquared(p: int, d: int, s: int, v: int)
    requires Cong(p, (U(d, s) * (s * s)) * (v * v), 1)
    ensures var w := v * s * (1 - s * s); Cong(p, (w * w) * U(d, s), (1 - s * s) * (1 - s * s))
  {
    VSquared(p, U(d, s), s * s, v);
    WTerms(v, s, 1 - s * s);
  }

  lemma ShapeResidual(d: int, s: int, w: int)
    ensures ((2 * s) * (2 * s) + (w * (1 + s * s)) * (w * (1 + s * s)))
          - ((1 + s * s) * (1 + s * s) + d * (w * (2 * s)) * (w * (2 * s)))
         == (w * w) * U(d, s) - (1 - s * s) * (1 - s * s)
  {
    ProductSquare(w, 1 + s * s);
    ShapeResidual'(d, s, w, s * s, w * w);
  }

  lemma ShapeResidual'(d: int, s: int, w: int, ss: int, ww: int)
    requires ss == s * s && ww == w * w
    ensures ((2 * s) * (2 * s) + ww * ((1 + ss) * (1 + ss))) - ((1 + ss) * (1 + ss) + d * (w * (2 * s)) * (w * (2 * s)))
         == ww * ((1 + ss) * (1 + ss) - 4 * d * ss) - (1 - ss) * (1 - ss)
  {
    assert d * (w * (2 * s)) * (w * (2 * s)) == 4 * d * ss * ww by { FourSquares(d, w, s); }
    assert (2 * s) * (2 * s) == 4 * ss;
    DistributeU(ww, (1 + ss) * (1 + ss), d, ss);
  }

  lemma FourSquares(d: int, w: int, s: int)
    ensures d * (w * (2 * s)) * (w * (2 * s)) == 4 * d * (s * s) * (w * w)
  {
  }

  lemma DistributeU(ww: int, m: int, d: int, ss: int)
    ensures ww * (m - 4 * d * ss) == ww * m - 4 * d * ss * ww
  {
  }

  /** A point of decoded shape with w^2 u = (1 - s^2)^2 is on the curve. */
  lemma ShapeIsPoint(c: Curve, P: ExtPoint, s: int, w: int)
    requires Params(c) && Shape(c.p, P, s, w) && Cong(c.p, (w * w) * U(c.d, s), (1 - s * s) * (1 - s * s))
    ensures Point(c, P)
  {
    var p, d := c.p, c.d;
    var (X, Y, Z, T) := (2 * s, w * (1 + s * s), 1 + s * s, w * (2 * s));
    ShapeResidual(d, s, w);
    Combine(p, X * X + Y * Y, Z * Z + d * T * T, 1, (w * w) * U(d, s), (1 - s * s) * (1 - s * s));
    ShapeProduct(s, w, 1 + s * s);
    Refl(p, X * Y);
    OnCurveCong(p, d, P, X, Y, Z, T);
    MinusOneNonSquare(p, s);
    NonzeroCong(p, P.Z, Z);
  }

  lemma ShapeProduct(s: int, w: int, z: int)
    ensures (2 * s) * (w * z) == z * (w * (2 * s))
  {
  }

  /** Every accepted number decodes to a point of the curve. */
  lemma DecodeIsPoint(c: Curve, s: nat)
    requires Params(c) && DecafDecode(c, s).Some?
    ensures Point(c, DecafDecode(c, s).value)
  {
    if s == 0 {
      DecodeZero(c);
      IdentityPoint(c);
    } else {
      DecodeUnfold(c, s);
      DecodesPoint(c, s, DecafDecode(c, s).value);
    }
  }

  lemma DecodesPoint(c: Curve, s: int, P: ExtPoint)
    requires Params(c) && Decodes(c.p, c.d, s, P)
    ensures Point(c, P)
  {
    var v :| IsV(c.p, c.d, s, v) && Shape(c.p, P, s, v * s * (1 - s * s));
    WSquared(c.p, c.d, s, v);
    ShapeIsPoint(c, P, s, v * s * (1 - s * s));
  }
}
