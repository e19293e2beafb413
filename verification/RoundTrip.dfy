/**
 The Decaf round trip: decafEncode(decafDecode(s)) = s for every s that
 decafDecode accepts.
 */
module RoundTrip {
  import opened Wrappers
  import opened ModArith
  import opened Residues
  import opened SquareRoot
  import opened Edwards
  import opened Decaf
  import opened Decoder

  // ----- The encoder on a point given up to congruence

  /** s is the number that a point with slope a is encoded as, up to sign. */
  ghost predicate Number(p: nat, X: int, Y: int, Z: int, a: int, s: int) {
    Cong(p, (X * Z) * s, Z * Z + a * (X * Y))
  }

  lemma EncodeStands(c: Curve, P: ExtPoint, X: int, Y: int, Z: int, T: int, a: int, s: int)
    requires Params(c) && Point(c, P) && Stands(c.p, P, X, Y, Z, T)
    requires !Zero(c.p, X) && !Zero(c.p, Z * Z - Y * Y) && Slope(c.p, c.d, Y, Z, a) && Number(c.p, X, Y, Z, a, s)
    ensures DecafEncode(c, P) == DecafNeg(c.p, s, s)
  {
    TransferSlope(c.p, c.d, P.Y, Y, P.Z, Z, a);
    TransferNumber(c.p, P.X, X, P.Y, Y, P.Z, Z, a, s);
    NonzeroCong(c.p, P.X, X);
    EncodeOf(c, P, a, s);
  }

  lemma TransferSlope(p: nat, d: int, y: int, Y: int, z: int, Z: int, a: int)
    requires p > 0 && Cong(p, y, Y) && Cong(p, z, Z) && Slope(p, d, Y, Z, a)
    ensures Slope(p, d, y, z, a) && (Zero(p, z * z - y * y) <==> Zero(p, Z * Z - Y * Y))
  {
    MulCong(p, y, Y, y, Y);
    MulCong(p, z, Z, z, Z);
    AddCong(p, z * z, Z * Z, y * y, Y * Y);
    NonzeroCong(p, z * z - y * y, Z * Z - Y * Y);
    Refl(p, a * a);
    Refl(p, 1 - d);
    MulCong(p, a * a, a * a, z * z - y * y, Z * Z - Y * Y);
    MulCong(p, 1 - d, 1 - d, z * z, Z * Z);
    Sym(p, (1 - d) * (z * z), (1 - d) * (Z * Z));
    Trans(p, (a * a) * (z * z - y * y), (a * a) * (Z * Z - Y * Y), (1 - d) * (Z * Z));
    Trans(p, (a * a) * (z * z - y * y), (1 - d) * (Z * Z), (1 - d) * (z * z));
  }

  lemma TransferNumber(p: nat, x: int, X: int, y: int, Y: int, z: int, Z: int, a: int, s: int)
    requires Cong(p, x, X) && Cong(p, y, Y) && Cong(p, z, Z) && Number(p, X, Y, Z, a, s)
    ensures Number(p, x, y, z, a, s)
  {
    Refl(p, a);
    Refl(p, s);
    MulCong(p, x, X, z, Z);
    MulCong(p, x * z, X * Z, s, s);
    MulCong(p, z, Z, z, Z);
    MulCong(p, x, X, y, Y);
    MulCong(p, a, a, x * y, X * Y);
    AddCong(p, z * z, Z * Z, a * (x * y), a * (X * Y));
    Sym(p, z * z + a * (x * y), Z * Z + a * (X * Y));
    Trans(p, (x * z) * s, (X * Z) * s, Z * Z + a * (X * Y));
    Trans(p, (x * z) * s, Z * Z + a * (X * Y), z * z + a * (x * y));
  }

  // ----- The slope of a decoded point is -u v / 2

  lemma HalfOf(p: nat, m: int) returns (a: int)
    requires OddPrime(p)
    ensures Cong(p, -2 * a, m)
  {
    SmallNonzero(p, -2);
    Inverse(p, -2);
    var h := ModInv(p, -2);
    a := h * m;
    Combine(p, -2 * a, m, m, -2 * h, 1);
  }

  /** u (1 - w^2) = 4 s^2 (1 - d). */
  lemma Gap(p: int, d: int, s: int, w: int)
    requires Cong(p, (w * w) * U(d, s), (1 - s * s) * (1 - s * s))
    ensures Cong(p, U(d, s) * (1 - w * w), (s * s) * (4 * (1 - d)))
  {
    GapTerms(d, s * s, w * w);
    Combine(p, U(d, s) * (1 - w * w), (s * s) * (4 * (1 - d)), -1, (w * w) * U(d, s), (1 - s * s) * (1 - s * s));
  }

  lemma GapTerms(d: int, ss: int, ww: int)
    ensures var u := (1 + ss) * (1 + ss) - 4 * d * ss;
            u * (1 - ww) - ss * (4 * (1 - d)) == -1 * (ww * u - (1 - ss) * (1 - ss))
  {
    var u := (1 + ss) * (1 + ss) - 4 * d * ss;
    assert u * (1 - ww) == u - ww * u;
  }

  lemma SlopeSquare(p: nat, d: int, s: int, u: int, v: int, w: int, a: int)
    requires OddPrime(p) && !Zero(p, s) && Cong(p, (u * (s * s)) * (v * v), 1)
    requires Cong(p, u * (1 - w * w), (s * s) * (4 * (1 - d))) && Cong(p, -2 * a, u * v)
    ensures Cong(p, (a * a) * (1 - w * w), 1 - d)
  {
    var (ss, g) := (s * s, 1 - w * w);
    MulCong(p, -2 * a, u * v, -2 * a, u * v);
    FourA(a);
    Refl(p, g);
    MulCong(p, 4 * (a * a), (u * v) * (u * v), g, g);
    Refl(p, u * g);
    MulCong(p, (u * ss) * (v * v), 1, u * g, u * g);
    SlopeMonomials(u, v, ss, g);
    Trans(p, ss * ((u * v) * (u * v) * g), u * g, ss * (4 * (1 - d)));
    NoZeroDivisors(p, s, s);
    Cancel(p, ss, (u * v) * (u * v) * g, 4 * (1 - d));
    Trans(p, 4 * (a * a) * g, (u * v) * (u * v) * g, 4 * (1 - d));
    SmallFour(p);
    Assoc(4, a * a, g);
    Cancel(p, 4, (a * a) * g, 1 - d);
  }

  lemma SmallFour(p: nat)
    requires OddPrime(p)
    ensures !Zero(p, 4)
  {
    SmallNonzero(p, 2);
    NoZeroDivisors(p, 2, 2);
  }

  lemma FourA(a: int)
    ensures (-2 * a) * (-2 * a) == 4 * (a * a)
  {
  }

  lemma SlopeMonomials(u: int, v: int, ss: int, g: int)
    ensures ((u * ss) * (v * v)) * (u * g) == ss * ((u * v) * (u * v) * g)
  {
    ProductSquare(u, v);
    SlopeMonomials'(u, v * v, ss, g);
  }

  lemma SlopeMonomials'(u: int, vv: int, ss: int, g: int)
    ensures ((u * ss) * vv) * (u * g) == ss * (((u * u) * vv) * g)
  {
  }

  /** -2 a s w = 1 - s^2. */
  lemma SlopeTimesW(p: nat, s: int, u: int, v: int, a: int)
    requires Cong(p, (u * (s * s)) * (v * v), 1) && Cong(p, -2 * a, u * v)
    ensures var w := v * s * (1 - s * s); Cong(p, -2 * a * (s * w), 1 - s * s)
  {
    var m := 1 - s * s;
    var w := v * s * m;
    Refl(p, s * w);
    MulCong(p, -2 * a, u * v, s * w, s * w);
    SlopeWTerms(u, v, s, m);
    Refl(p, m);
    MulCong(p, (u * (s * s)) * (v * v), 1, m, m);
    Trans(p, -2 * a * (s * w), (u * v) * (s * w), m);
  }

  lemma SlopeWTerms(u: int, v: int, s: int, m: int)
    ensures (u * v) * (s * (v * s * m)) == ((u * (s * s)) * (v * v)) * m
  {
    SlopeWTerms'(u, v, s, v * s, m);
  }

  lemma SlopeWTerms'(u: int, v: int, s: int, k: int, m: int)
    requires k == v * s
    ensures (u * v) * (s * (k * m)) == ((u * (s * s)) * (v * v)) * m
  {
    assert (u * v) * (s * (k * m)) == (u * (k * k)) * m;
    ProductSquare(v, s);
    assert u * ((v * v) * (s * s)) == (u * (s * s)) * (v * v);
  }

  lemma DecodedSlope(p: nat, d: int, s: int, w: int, a: int)
    requires p > 0 && Cong(p, (a * a) * (1 - w * w), 1 - d)
    ensures var z := 1 + s * s; Cong(p, (a * a) * (z * z - (w * z) * (w * z)), (1 - d) * (z * z))
  {
    var z := 1 + s * s;
    Refl(p, z * z);
    MulCong(p, (a * a) * (1 - w * w), 1 - d, z * z, z * z);
    ProductSquare(w, z);
    DecodedSlopeTerms(a * a, w * w, z * z);
  }

  lemma DecodedSlopeTerms(aa: int, ww: int, zz: int)
    ensures aa * (zz - ww * zz) == (aa * (1 - ww)) * zz
  {
  }

  lemma DecodedNumber(p: nat, s: int, w: int, a: int)
    requires p > 0 && Cong(p, -2 * a * (s * w), 1 - s * s)
    ensures var z := 1 + s * s; Number(p, 2 * s, w * z, z, a, s)
  {
    var z := 1 + s * s;
    DecodedNumberTerms(s, s * s, w, s * w, a, z);
    Combine(p, ((2 * s) * z) * s, z * z + a * ((2 * s) * (w * z)), z, -2 * a * (s * w), 1 - s * s);
  }

  lemma DecodedNumberTerms(s: int, ss: int, w: int, sw: int, a: int, z: int)
    requires z == 1 + ss && sw == s * w && ss == s * s
    ensures ((2 * s) * z) * s - (z * z + a * ((2 * s) * (w * z))) == z * (-2 * a * sw - (1 - ss))
  {
    assert ((2 * s) * z) * s == (2 * ss) * z;
    assert a * ((2 * s) * (w * z)) == z * (2 * a * sw) by { assert (2 * s) * (w * z) == (2 * sw) * z; }
  }

  /** The encoder undoes the decoder, on a nonzero number. */
  lemma DecodesEncodes(c: Curve, s: nat, P: ExtPoint)
    requires Params(c) && 0 < s <= Half(c.p) && Decodes(c.p, c.d, s, P)
    ensures DecafEncode(c, P) == s
  {
    var X, Y, Z, T, a := DecodesSlope(c, s, P);
    EncodeStands(c, P, X, Y, Z, T, a, s);
    AbsFixed(c.p, s);
  }

  lemma DecodesSlope(c: Curve, s: nat, P: ExtPoint) returns (X: int, Y: int, Z: int, T: int, a: int)
    requires Params(c) && 0 < s <= Half(c.p) && Decodes(c.p, c.d, s, P)
    ensures Point(c, P) && Stands(c.p, P, X, Y, Z, T) && !Zero(c.p, X) && !Zero(c.p, Z * Z - Y * Y)
    ensures Slope(c.p, c.d, Y, Z, a) && Number(c.p, X, Y, Z, a, s)
  {
    var p, d := c.p, c.d;
    var v :| IsV(p, d, s, v) && Shape(p, P, s, v * s * (1 - s * s));
    var w := v * s * (1 - s * s);
    a := HalfOf(p, U(d, s) * v);
    DecodesPoint(c, s, P);
    SmallNonzero(p, s);
    DecodedFacts(c, s, v, a);
    X, Y, Z, T := 2 * s, w * (1 + s * s), 1 + s * s, w * (2 * s);
  }

  lemma DecodedFacts(c: Curve, s: int, v: int, a: int)
    requires Params(c) && !Zero(c.p, s) && IsV(c.p, c.d, s, v) && Cong(c.p, -2 * a, U(c.d, s) * v)
    ensures var (w, z) := (v * s * (1 - s * s), 1 + s * s);
            !Zero(c.p, 2 * s) && !Zero(c.p, z * z - (w * z) * (w * z)) &&
            Slope(c.p, c.d, w * z, z, a) && Number(c.p, 2 * s, w * z, z, a, s)
  {
    var p, d := c.p, c.d;
    var (u, w, z) := (U(d, s), v * s * (1 - s * s), 1 + s * s);
    WSquared(p, d, s, v);
    Gap(p, d, s, w);
    SlopeSquare(p, d, s, u, v, w, a);
    SlopeTimesW(p, s, u, v, a);
    DecodedSlope(p, d, s, w, a);
    DecodedNumber(p, s, w, a);
    NonNegativeCong(p, -2 * a, u * v);
    SmallNonzero(p, 2);
    NoZeroDivisors(p, 2, s);
    OneMinusD(c);
    MinusOneNonSquare(p, s);
    SlopeGap(p, d, z, (w * z), a);
  }

  lemma SlopeGap(p: nat, d: int, Z: int, Y: int, a: int)
    requires IsPrime(p) && !Zero(p, Z) && !Zero(p, 1 - d) && Cong(p, (a * a) * (Z * Z - Y * Y), (1 - d) * (Z * Z))
    ensures !Zero(p, Z * Z - Y * Y)
  {
    NoZeroDivisors(p, Z, Z);
    NoZeroDivisors(p, 1 - d, Z * Z);
    NoZeroDivisors(p, a * a, Z * Z - Y * Y);
    NonzeroCong(p, (a * a) * (Z * Z - Y * Y), (1 - d) * (Z * Z));
  }

  lemma EncodeIdentity(c: Curve)
    requires Params(c)
    ensures DecafEncode(c, ExtPoint(0, 1, 1, 0)) == 0
  {
    Refl(c.p, 0);
    EncodeZero(c, ExtPoint(0, 1, 1, 0));
  }

  /** decafEncode(decafDecode(s)) = s, for every accepted s. */
  lemma EncodeDecode(c: Curve, s: nat)
    requires Params(c) && DecafDecode(c, s).Some?
    ensures DecafEncode(c, DecafDecode(c, s).value) == s
  {
    if s == 0 {
      DecodeZero(c);
      EncodeIdentity(c);
    } else {
      DecodeUnfold(c, s);
      DecodesEncodes(c, s, DecafDecode(c, s).value);
    }
  }

  // ----- The one exception: with p = 3, misqrt(0) is 0^0 = 1

  lemma SquareModThree(d: nat)
    requires d % 3 != 2
    ensures IsSquare(3, d)
  {
    var r := d % 3;
    assert r * r == r;
    Intro(3, r * r, d, -(d / 3));
    assert IsRoot(3, r, d);
  }

  /** From r0 = 1 the identity is encoded as 1 - d or d - 1, which is not 0. */
  lemma EncodeFromOne(c: Curve)
    requires OddPrime(c.p) && !Zero(c.p, 1 - c.d)
    ensures EncodeFrom(c, ExtPoint(0, 1, 1, 0), 1) != 0
  {
    var P := ExtPoint(0, 1, 1, 0);
    var u, r, s := EncodeFromUnfold(c, P, 1);
    IdentityTerms(c.d, u, r, P);
    Trans(c.p, s, u, 1 - c.d);
    NonzeroCong(c.p, s, 1 - c.d);
    AbsNonzero(c.p, s);
  }

  lemma EncodeFromUnfold(c: Curve, P: ExtPoint, r0: nat) returns (u: nat, r: nat, s: nat)
    requires c.p > 1
    ensures Cong(c.p, u, (1 - c.d) * r0) && Cong(c.p, s, u * (r * (P.Z * P.X - c.d * P.Y * P.T) + P.Y))
    ensures EncodeFrom(c, P, r0) == DecafNeg(c.p, s, s)
  {
    var p, d := c.p, c.d;
    u := ModMul(p, ModSub(p, 1, d), r0);
    r := DecafNeg(p, Neg(p, ModMul(p, ModAdd(p, u, u), P.Z)), r0);
    s := ModMul(p, ModMul(p, u, ModAdd(p,
      ModMul(p, r, ModSub(p, ModMul(p, ModMul(p, 1, P.Z), P.X), ModMul(p, ModMul(p, d, P.Y), P.T))), P.Y)), ModInv(p, 1));
    EncodeFactor(p, d, r0, P.Z);
    EncodeSum(p, d, u, r, P.X, P.Y, P.Z, P.T);
  }

  lemma IdentityTerms(d: int, u: int, r: int, P: ExtPoint)
    requires P == ExtPoint(0, 1, 1, 0)
    ensures u * (r * (P.Z * P.X - d * P.Y * P.T) + P.Y) == u
  {
  }

  lemma AbsNonzero(p: nat, s: int)
    requires p > 0 && p % 2 == 1 && !Zero(p, s)
    ensures DecafNeg(p, s, s) != 0
  {
    AbsSpec(p, s);
    PlusMinusSym(p, DecafNeg(p, s, s), s);
  }

  lemma EncodeIdentityModThree(d: nat)
    requires OddPrime(3) && !Zero(3, 1 - d)
    ensures DecafEncode(Curve(3, d), ExtPoint(0, 1, 1, 0)) != 0
  {
    var q := ModMul(3, ModMul(3, ModSub(3, 1, d), ModAdd(3, 1, 1)), ModSub(3, 1, 1));
    assert q == 0;
    assert Misqrt(3, 0).v == 1 by { assert Pow(0, 0) == 1; }
    EncodeFromOne(Curve(3, d));
  }

  lemma DecodeZeroModThree(d: nat)
    requires OddPrime(3) && d % 3 == 2
    ensures DecafDecode(Curve(3, d), 0) == Some(ExtPoint(0, 1, 1, 0))
  {
    assert Square(3, 0) == 0;
    assert ModMul(3, ModMul(3, 4, d), 0) == 0;
    Refl(3, 1);
    DecodedAtZero(Curve(3, d), 1, DecafNeg(3, ModMul(3, 1, 1), 1));
  }

  /** The round trip holds for every accepted number exactly when p is not 3. */
  lemma EncodeDecodeIff(c: Curve)
    requires IsPrime(c.p) && c.p % 4 == 3 && !IsSquare(c.p, c.d)
    ensures (forall s :: DecafDecode(c, s).Some? ==> DecafEncode(c, DecafDecode(c, s).value) == s) <==> c.p != 3
  {
    if c.p == 3 {
      if c.d % 3 != 2 {
        SquareModThree(c.d);
      }
      if Zero(3, 1 - c.d) {
        OneIsSquare(3, c.d);
      }
      DecodeZeroModThree(c.d);
      EncodeIdentityModThree(c.d);
      assert DecafDecode(c, 0).Some?;
    } else {
      forall s | DecafDecode(c, s).Some?
        ensures DecafEncode(c, DecafDecode(c, s).value) == s
      {
        EncodeDecode(c, s);
      }
    }
  }
}
