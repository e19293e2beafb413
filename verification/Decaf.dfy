/**
 Decaf point compression: decafEncode, decafDecode and decafNeg of pak.go, with
 fieldA = 1, over a field with p = 3 (mod 4) in which d is not a square.

 The analysis turns on one number. A point whose encoding is meaningful has a
 unique a with a^2 (Z^2 - Y^2) = (1-d) Z^2 and -2a non-negative, and its
 encoding is, up to sign, the s with X Z s = Z^2 + a X Y.
 */
module Decaf {
  import opened Wrappers
  import opened ModArith
  import opened Residues
  import opened SquareRoot
  import opened Edwards
  import opened GroupLaw

  /** What the shipped fieldP and fieldD satisfy. */
  ghost predicate Params(c: Curve) {
    OddPrime(c.p) && c.p % 4 == 3 && c.p > 3 && !IsSquare(c.p, c.d)
  }

  function DecafNeg(p: nat, n: int, r: int): nat
    requires p > 0
  {
    if Mod(p, n) > Half(p) then Neg(p, r) else Mod(p, r)
  }

  function DecafEncode(c: Curve, P: ExtPoint): nat
    requires OddPrime(c.p) && c.p % 4 == 3
  {
    var p, d := c.p, c.d;
    EncodeFrom(c, P, Misqrt(p, ModMul(p, ModMul(p, ModSub(p, 1, d), ModAdd(p, P.Z, P.Y)), ModSub(p, P.Z, P.Y))).v)
  }

  /** decafEncode from its inverse square root r0 on. */
  function EncodeFrom(c: Curve, P: ExtPoint, r0: nat): nat
    requires c.p > 0
  {
    var p, d := c.p, c.d;
    var u := ModMul(p, ModSub(p, 1, d), r0);
    var r := DecafNeg(p, Neg(p, ModMul(p, ModAdd(p, u, u), P.Z)), r0);
    var s := ModMul(p,
      ModMul(p, u, ModAdd(p,
        ModMul(p, r, ModSub(p, ModMul(p, ModMul(p, 1, P.Z), P.X), ModMul(p, ModMul(p, d, P.Y), P.T))),
        P.Y)),
      ModInv(p, 1));
    DecafNeg(p, s, s)
  }

  function DecafDecode(c: Curve, s: nat): Option<ExtPoint>
    requires OddPrime(c.p) && c.p % 4 == 3
  {
    var p, d := c.p, c.d;
    if s > Half(p) then None
    else
      var ss := Square(p, s);
      var Z := ModAdd(p, ModMul(p, 1, ss), 1);
      var u := ModSub(p, Square(p, Z), ModMul(p, ModMul(p, 4, d), ss));
      DecodeFrom(c, s, Z, u, ModMul(p, u, ss))
  }

  /** decafDecode from its square root on, where v = u s^2. */
  function DecodeFrom(c: Curve, s: nat, Z: nat, u: nat, v: nat): Option<ExtPoint>
    requires OddPrime(c.p) && c.p % 4 == 3
  {
    var p := c.p;
    var root := RootOf(p, v);
    if v != 0 && root == 0 then None
    else
      var i := if v == 0 then 1 else ModInv(p, root);
      Some(Decoded(c, s, Z, DecafNeg(p, ModMul(p, u, i), i)))
  }

  /** msqrt for p = 3 (mod 4), where it cannot panic. */
  function RootOf(p: nat, v: int): nat
    requires OddPrime(p) && p % 4 == 3
  {
    HalfSplit(p);
    MsqrtCorrect(p, v);
    Msqrt(p, v).v
  }

  /** The last lines of decafDecode. */
  function Decoded(c: Curve, s: nat, Z: nat, v: nat): ExtPoint
    requires c.p > 0
  {
    var p := c.p;
    var w0 := ModMul(p, ModMul(p, v, s), ModSub(p, 2, Z));
    var w := if s == 0 then ModAdd(p, w0, 1) else w0;
    var X := ModAdd(p, s, s);
    NewExtPoint(p, X, ModMul(p, w, Z), Z, ModMul(p, w, X))
  }

  // ----- Signs

  ghost predicate NonNegative(p: nat, n: int)
    requires p > 0
  {
    exists m: nat :: m <= Half(p) && Cong(p, n, m)
  }

  lemma NonNegativeMod(p: nat, n: int)
    requires p > 0
    ensures NonNegative(p, n) <==> Mod(p, n) <= Half(p)
  {
    ModCong(p, n);
    Sym(p, Mod(p, n), n);
    if NonNegative(p, n) {
      var m: nat :| m <= Half(p) && Cong(p, n, m);
      CongIffMod(p, n, m);
      ModSmall(p, m);
    }
  }

  lemma NonNegativeCong(p: nat, a: int, b: int)
    requires p > 0 && Cong(p, a, b)
    ensures NonNegative(p, a) <==> NonNegative(p, b)
  {
    CongIffMod(p, a, b);
    NonNegativeMod(p, a);
    NonNegativeMod(p, b);
  }

  lemma ModOfNegation(p: nat, a: int)
    requires p > 0 && !Zero(p, a)
    ensures Mod(p, -a) == p - Mod(p, a) && 0 < Mod(p, a)
  {
    ZeroMod(p, a);
    ModCong(p, a);
    ModCong(p, -a);
    Refl(p, p);
    Intro(p, p, 0, 1);
    AddCong(p, p, 0, Mod(p, a), a);
    Sym(p, p - Mod(p, a), 0 - a);
    Trans(p, Mod(p, -a), -a, p - Mod(p, a));
    CongUnique(p, Mod(p, -a), p - Mod(p, a));
  }

  /** Of a nonzero number and its negation exactly one is non-negative. */
  lemma SignDichotomy(p: nat, a: int)
    requires p > 0 && p % 2 == 1 && !Zero(p, a)
    ensures NonNegative(p, a) <==> !NonNegative(p, -a)
  {
    ModOfNegation(p, a);
    NonNegativeMod(p, a);
    NonNegativeMod(p, -a);
  }

  /** Non-negative numbers with equal squares are equal. */
  lemma SameSquareSameSign(p: nat, a: int, b: int)
    requires OddPrime(p) && !Zero(p, a) && Cong(p, a * a, b * b) && NonNegative(p, a) && NonNegative(p, b)
    ensures Cong(p, a, b)
  {
    RootsAgree(p, a, b);
    if Cong(p, a, -b) {
      SignDichotomy(p, a);
      NegateCong(p, a, b);
      NonNegativeCong(p, -a, b);
    }
  }

  lemma NegateCong(p: int, a: int, b: int)
    requires Cong(p, a, -b)
    ensures Cong(p, -a, b)
  {
    Refl(p, 0);
    AddCong(p, 0, 0, a, -b);
  }

  /** decafNeg(s, s) picks the non-negative one of s and -s. */
  lemma AbsSpec(p: nat, s: int)
    requires p > 0 && p % 2 == 1
    ensures var t := DecafNeg(p, s, s); t <= Half(p) && (Cong(p, t, s) || Cong(p, t, -s))
  {
    ModCong(p, s);
    Refl(p, s);
    NegOp(p, s, s);
    if Mod(p, s) > Half(p) {
      ZeroMod(p, s);
      ModOfNegation(p, s);
    }
  }

  lemma AbsFixed(p: nat, s: nat)
    requires p > 0 && s <= Half(p)
    ensures DecafNeg(p, s, s) == s
  {
    ModSmall(p, s);
  }

  /** It depends on the class of s up to sign only. */
  lemma AbsUnique(p: nat, s: int, t: int)
    requires p > 0 && p % 2 == 1 && (Cong(p, s, t) || Cong(p, s, -t))
    ensures DecafNeg(p, s, s) == DecafNeg(p, t, t)
  {
    AbsSpec(p, s);
    AbsSpec(p, t);
    var a, b := DecafNeg(p, s, s), DecafNeg(p, t, t);
    UpToSign(p, a, s, t);
    PlusMinusSym(p, b, t);
    UpToSign(p, a, t, b);
    AbsEqual(p, a, b);
  }

  ghost predicate PlusMinus(p: int, a: int, b: int) {
    Cong(p, a, b) || Cong(p, a, -b)
  }

  lemma UpToSign(p: int, a: int, b: int, c: int)
    requires PlusMinus(p, a, b) && PlusMinus(p, b, c)
    ensures PlusMinus(p, a, c)
  {
    if Cong(p, a, b) {
      if Cong(p, b, c) { Trans(p, a, b, c); } else { Trans(p, a, b, -c); }
    } else {
      NegateCong(p, a, b);
      if Cong(p, b, c) {
        Trans(p, -a, b, c);
        NegateBack(p, a, c);
      } else {
        Trans(p, -a, b, -c);
        Negate(p, a, c);
      }
    }
  }

  lemma NegateBack(p: int, a: int, c: int)
    requires Cong(p, -a, c)
    ensures Cong(p, a, -c)
  {
    Refl(p, 0);
    AddCong(p, 0, 0, -a, c);
  }

  lemma PlusMinusSym(p: int, a: int, b: int)
    requires PlusMinus(p, a, b)
    ensures PlusMinus(p, b, a)
  {
    if Cong(p, a, b) {
      Sym(p, a, b);
    } else {
      NegateCong(p, a, b);
      Sym(p, -a, b);
    }
  }

  lemma AbsEqual(p: nat, a: int, b: int)
    requires p > 0 && 0 <= a <= Half(p) && 0 <= b <= Half(p) && PlusMinus(p, a, b)
    ensures a == b
  {
    SmallSum(p, a, b);
    if Cong(p, a, b) {
      CongUnique(p, a, b);
    }
  }

  lemma SmallSum(p: nat, a: int, b: int)
    requires p > 0 && 0 <= a <= Half(p) && 0 <= b <= Half(p)
    ensures Cong(p, a, -b) ==> a == 0 && b == 0
  {
    if Cong(p, a, -b) {
      BoundedMultiple(p, Witness(p, a, -b));
    }
  }

  // ----- The encoder

  lemma EncodeRadicand(p: nat, d: int, Y: int, Z: int)
    requires p > 0
    ensures Cong(p, ModMul(p, ModMul(p, ModSub(p, 1, d), ModAdd(p, Z, Y)), ModSub(p, Z, Y)), (1 - d) * (Z * Z - Y * Y))
  {
    Refl(p, 1);
    Refl(p, d);
    Refl(p, Y);
    Refl(p, Z);
    Ops(p, 1, 1, d, d);
    Ops(p, Z, Z, Y, Y);
    Ops(p, ModSub(p, 1, d), 1 - d, ModAdd(p, Z, Y), Z + Y);
    Ops(p, ModMul(p, ModSub(p, 1, d), ModAdd(p, Z, Y)), (1 - d) * (Z + Y), ModSub(p, Z, Y), Z - Y);
    DifferenceOfSquares(1 - d, Z, Y);
  }

  lemma DifferenceOfSquares(k: int, z: int, y: int)
    ensures (k * (z + y)) * (z - y) == k * (z * z - y * y)
  {
  }

  lemma EncodeFactor(p: nat, d: int, r0: int, Z: int)
    requires p > 0
    ensures var u := ModMul(p, ModSub(p, 1, d), r0);
            Cong(p, u, (1 - d) * r0) && Cong(p, Neg(p, ModMul(p, ModAdd(p, u, u), Z)), -2 * (u * Z))
  {
    var u := ModMul(p, ModSub(p, 1, d), r0);
    Refl(p, 1);
    Refl(p, d);
    Refl(p, r0);
    Refl(p, Z);
    Refl(p, u);
    Ops(p, 1, 1, d, d);
    Ops(p, ModSub(p, 1, d), 1 - d, r0, r0);
    Ops(p, u, u, u, u);
    Ops(p, ModAdd(p, u, u), u + u, Z, Z);
    NegOp(p, ModMul(p, ModAdd(p, u, u), Z), (u + u) * Z);
    TwiceProduct(u, Z);
  }

  lemma TwiceProduct(u: int, z: int)
    ensures -((u + u) * z) == -2 * (u * z)
  {
  }

  lemma InverseOfOne(p: nat)
    requires p > 1
    ensures ModInv(p, 1) == 1
  {
    ModSmall(p, 1);
  }

  lemma EncodeSum(p: nat, d: int, u: int, r: int, X: int, Y: int, Z: int, T: int)
    requires p > 1
    ensures Cong(p, ModMul(p, ModMul(p, u, ModAdd(p,
                       ModMul(p, r, ModSub(p, ModMul(p, ModMul(p, 1, Z), X), ModMul(p, ModMul(p, d, Y), T))), Y)), ModInv(p, 1)),
                    u * (r * (Z * X - d * Y * T) + Y))
  {
    InverseOfOne(p);
    Refl(p, 1);
    Refl(p, d);
    Refl(p, u);
    Refl(p, r);
    Refl(p, X);
    Refl(p, Y);
    Refl(p, Z);
    Refl(p, T);
    Ops(p, 1, 1, Z, Z);
    Ops(p, ModMul(p, 1, Z), Z, X, X);
    Ops(p, d, d, Y, Y);
    Ops(p, ModMul(p, d, Y), d * Y, T, T);
    var e := ModSub(p, ModMul(p, ModMul(p, 1, Z), X), ModMul(p, ModMul(p, d, Y), T));
    Ops(p, ModMul(p, ModMul(p, 1, Z), X), Z * X, ModMul(p, ModMul(p, d, Y), T), d * Y * T);
    Ops(p, r, r, e, Z * X - d * Y * T);
    Ops(p, ModMul(p, r, e), r * (Z * X - d * Y * T), Y, Y);
    Ops(p, u, u, ModAdd(p, ModMul(p, r, e), Y), r * (Z * X - d * Y * T) + Y);
    Ops(p, ModMul(p, u, ModAdd(p, ModMul(p, r, e), Y)), u * (r * (Z * X - d * Y * T) + Y), 1, 1);
  }

  /** What misqrt promises. */
  ghost predicate IsInverseRoot(p: nat, q: int, r: int) {
    (!Zero(p, q) && IsSquare(p, q) ==> Cong(p, q * (r * r), 1)) && (Zero(p, q) && p > 3 ==> r == 0)
  }

  lemma MisqrtIsInverse(p: nat, q: int)
    requires OddPrime(p) && p % 4 == 3
    ensures IsInverseRoot(p, q, Misqrt(p, q).v)
  {
    MisqrtPower(p, q);
  }

  /** What decafNeg(n, r0) = r promises. */
  ghost predicate SignedBy(p: nat, n: int, r0: int, r: int)
    requires p > 0
  {
    if NonNegative(p, n) then Cong(p, r, r0) else Cong(p, r, -r0)
  }

  lemma DecafNegSigns(p: nat, n: int, r0: int)
    requires p > 0
    ensures SignedBy(p, n, r0, DecafNeg(p, n, r0))
  {
    NonNegativeMod(p, n);
    ModCong(p, r0);
    Refl(p, r0);
    NegOp(p, r0, r0);
  }

  /** The numbers that decafEncode computes on the way to s, each replaced by the polynomial it stands for. */
  ghost predicate EncoderRun(p: nat, d: int, P: ExtPoint, q: int, r0: int, u: int, n: int, r: int, s: int)
    requires p > 0
  {
    Cong(p, q, (1 - d) * (P.Z * P.Z - P.Y * P.Y)) && IsInverseRoot(p, q, r0) &&
    Cong(p, u, (1 - d) * r0) && Cong(p, n, -2 * (u * P.Z)) && SignedBy(p, n, r0, r) &&
    Cong(p, s, u * (r * (P.Z * P.X - d * P.Y * P.T) + P.Y))
  }

  ghost predicate Encodes(p: nat, d: int, P: ExtPoint, e: nat)
    requires p > 0
  {
    exists q, r0, u, n, r, s :: EncoderRun(p, d, P, q, r0, u, n, r, s) && e == DecafNeg(p, s, s)
  }

  lemma EncodeUnfold(c: Curve, P: ExtPoint)
    requires OddPrime(c.p) && c.p % 4 == 3
    ensures Encodes(c.p, c.d, P, DecafEncode(c, P))
  {
    var p, d := c.p, c.d;
    var q := ModMul(p, ModMul(p, ModSub(p, 1, d), ModAdd(p, P.Z, P.Y)), ModSub(p, P.Z, P.Y));
    EncodeRadicand(p, d, P.Y, P.Z);
    var r0 := Misqrt(p, q).v;
    MisqrtIsInverse(p, q);
    var u := ModMul(p, ModSub(p, 1, d), r0);
    EncodeFactor(p, d, r0, P.Z);
    var n := Neg(p, ModMul(p, ModAdd(p, u, u), P.Z));
    var r := DecafNeg(p, n, r0);
    DecafNegSigns(p, n, r0);
    EncodeSum(p, d, u, r, P.X, P.Y, P.Z, P.T);
    var s := ModMul(p, ModMul(p, u, ModAdd(p,
           ModMul(p, r, ModSub(p, ModMul(p, ModMul(p, 1, P.Z), P.X), ModMul(p, ModMul(p, d, P.Y), P.T))), P.Y)), ModInv(p, 1));
    assert EncoderRun(p, d, P, q, r0, u, n, r, s);
  }

  lemma OneMinusD(c: Curve)
    requires Params(c)
    ensures !Zero(c.p, 1 - c.d)
  {
    if Zero(c.p, 1 - c.d) {
      OneIsSquare(c.p, c.d);
    }
  }

  lemma OneIsSquare(p: int, d: int)
    requires Zero(p, 1 - d)
    ensures IsSquare(p, d)
  {
    Intro(p, 1 * 1, d, Witness(p, 1 - d, 0));
    assert IsRoot(p, 1, d);
  }

  /** A vanishing radicand is encoded as 0. */
  lemma EncodeZero(c: Curve, P: ExtPoint)
    requires Params(c) && Zero(c.p, P.Z * P.Z - P.Y * P.Y)
    ensures DecafEncode(c, P) == 0
  {
    EncodeUnfold(c, P);
    EncodesZero(c.p, c.d, P, DecafEncode(c, P));
  }

  lemma EncodesZero(p: nat, d: int, P: ExtPoint, e: nat)
    requires OddPrime(p) && p > 3 && Zero(p, P.Z * P.Z - P.Y * P.Y) && Encodes(p, d, P, e)
    ensures e == 0
  {
    var q, r0, u, n, r, s :| EncoderRun(p, d, P, q, r0, u, n, r, s) && e == DecafNeg(p, s, s);
    NoZeroDivisors(p, 1 - d, P.Z * P.Z - P.Y * P.Y);
    Trans(p, q, (1 - d) * (P.Z * P.Z - P.Y * P.Y), 0);
    assert (1 - d) * r0 == 0;
    var f := r * (P.Z * P.X - d * P.Y * P.T) + P.Y;
    NoZeroDivisors(p, u, f);
    Trans(p, s, u * f, 0);
    AbsUnique(p, s, 0);
    AbsFixed(p, 0);
  }

  /** The number that determines an encoding. */
  ghost predicate Slope(p: nat, d: int, Y: int, Z: int, a: int)
    requires p > 0
  {
    Cong(p, (a * a) * (Z * Z - Y * Y), (1 - d) * (Z * Z)) && NonNegative(p, -2 * a)
  }

  lemma SlopeArith(p: nat, k: int, r: int, z: int, w: int)
    requires Cong(p, (k * w) * (r * r), 1)
    ensures Cong(p, ((k * r * z) * (k * r * z)) * w, k * (z * z))
  {
    Refl(p, k * (z * z));
    MulCong(p, k * (z * z), k * (z * z), (k * w) * (r * r), 1);
    SlopeTerms(k, r, z, w);
  }

  lemma SlopeTerms(k: int, r: int, z: int, w: int)
    ensures ((k * r * z) * (k * r * z)) * w == (k * (z * z)) * ((k * w) * (r * r))
  {
    var a := r * z;
    assert k * r * z == k * a && a * a == (r * r) * (z * z);
    SlopeTerms'(k, a, w, r * r, z * z);
  }

  lemma SlopeTerms'(k: int, a: int, w: int, r: int, z: int)
    requires a * a == r * z
    ensures ((k * a) * (k * a)) * w == (k * z) * ((k * w) * r)
  {
    ProductSquare(k, a);
    assert (k * k) * (r * z) * w == (k * z) * ((k * w) * r);
  }

  lemma NegTwice(p: nat, a: int, b: int)
    requires OddPrime(p) && Cong(p, -2 * a, -2 * b)
    ensures Cong(p, a, b)
  {
    SmallNonzero(p, -2);
    Cancel(p, -2, a, b);
  }

  /** Whatever root misqrt returns, decafNeg turns it into the r with (1-d) r Z = a. */
  lemma EncodeRoot(p: nat, k: int, Z: int, w: int, a: int, r0: int, u: int, n: int, r: int)
    requires OddPrime(p) && !Zero(p, k) && !Zero(p, Z) && !Zero(p, w)
    requires Cong(p, (a * a) * w, k * (Z * Z)) && NonNegative(p, -2 * a)
    requires Cong(p, (k * w) * (r0 * r0), 1)
    requires Cong(p, u, k * r0) && Cong(p, n, -2 * (u * Z)) && SignedBy(p, n, r0, r)
    ensures Cong(p, k * r * Z, a) && PlusMinus(p, u, k * r) && Cong(p, (k * w) * (r * r), 1)
  {
    var b := k * r0 * Z;
    SlopeArith(p, k, r0, Z, w);
    SlopeSquares(p, a, b, w, k * (Z * Z));
    SlopeNonzero(p, a, w, k, Z);
    Refl(p, Z);
    MulCong(p, u, k * r0, Z, Z);
    MulCong2(p, u * Z, b);
    Trans(p, n, -2 * (u * Z), -2 * b);
    NonNegativeCong(p, n, -2 * b);
    if NonNegative(p, -2 * b) {
      SlopePositive(p, a, b);
      FinishRoot(p, k, Z, w, a, r0, u, r, 1);
    } else {
      SlopeNegative(p, a, b);
      FinishRoot(p, k, Z, w, a, r0, u, r, -1);
    }
  }

  lemma MulCong2(p: int, a: int, b: int)
    requires Cong(p, a, b)
    ensures Cong(p, -2 * a, -2 * b)
  {
    Refl(p, -2);
    MulCong(p, -2, -2, a, b);
  }

  lemma SlopeSquares(p: nat, a: int, b: int, w: int, t: int)
    requires IsPrime(p) && !Zero(p, w) && Cong(p, (a * a) * w, t) && Cong(p, (b * b) * w, t)
    ensures Cong(p, a * a, b * b)
  {
    Sym(p, (b * b) * w, t);
    Trans(p, (a * a) * w, t, (b * b) * w);
    Commute(a * a, w);
    Commute(b * b, w);
    Cancel(p, w, a * a, b * b);
  }

  lemma SlopeNonzero(p: nat, a: int, w: int, k: int, Z: int)
    requires IsPrime(p) && !Zero(p, k) && !Zero(p, Z) && Cong(p, (a * a) * w, k * (Z * Z))
    ensures !Zero(p, a)
  {
    NoZeroDivisors(p, Z, Z);
    NoZeroDivisors(p, k, Z * Z);
    NoZeroDivisors(p, a, a);
    NoZeroDivisors(p, a * a, w);
    if Zero(p, a) {
      Sym(p, (a * a) * w, k * (Z * Z));
      Trans(p, k * (Z * Z), (a * a) * w, 0);
    }
  }

  lemma DoubleSquares(p: int, a: int, b: int)
    requires Cong(p, a * a, b * b)
    ensures Cong(p, (-2 * a) * (-2 * a), (-2 * b) * (-2 * b))
  {
    Refl(p, 4);
    MulCong(p, 4, 4, a * a, b * b);
    assert (-2 * a) * (-2 * a) == 4 * (a * a) && (-2 * b) * (-2 * b) == 4 * (b * b);
  }

  lemma SlopePositive(p: nat, a: int, b: int)
    requires OddPrime(p) && !Zero(p, a) && Cong(p, a * a, b * b) && NonNegative(p, -2 * a) && NonNegative(p, -2 * b)
    ensures Cong(p, b, a)
  {
    DoubleSquares(p, a, b);
    SmallNonzero(p, -2);
    NoZeroDivisors(p, -2, a);
    SameSquareSameSign(p, -2 * a, -2 * b);
    NegTwice(p, a, b);
    Sym(p, a, b);
  }

  lemma SlopeNegative(p: nat, a: int, b: int)
    requires OddPrime(p) && Cong(p, a * a, b * b) && NonNegative(p, -2 * a) && !NonNegative(p, -2 * b)
    ensures Cong(p, -b, a)
  {
    RootsAgree(p, a, b);
    if Cong(p, a, b) {
      MulCong2(p, a, b);
      NonNegativeCong(p, -2 * a, -2 * b);
    }
    Sym(p, a, -b);
  }

  lemma FinishRoot(p: nat, k: int, Z: int, w: int, a: int, r0: int, u: int, r: int, sign: int)
    requires p > 0 && sign * sign == 1 && (sign == 1 || sign == -1)
    requires Cong(p, r, sign * r0) && Cong(p, sign * (k * r0 * Z), a) && Cong(p, u, k * r0)
    requires Cong(p, (k * w) * (r0 * r0), 1)
    ensures Cong(p, k * r * Z, a) && PlusMinus(p, u, k * r) && Cong(p, (k * w) * (r * r), 1)
  {
    Refl(p, k);
    Refl(p, Z);
    Refl(p, k * w);
    MulCong(p, k, k, r, sign * r0);
    MulCong(p, k * r, k * (sign * r0), Z, Z);
    SignTerms(sign, k, r0, Z);
    Trans(p, k * r * Z, sign * (k * r0 * Z), a);
    MulCong(p, r, sign * r0, r, sign * r0);
    MulCong(p, k * w, k * w, r * r, r0 * r0);
    Trans(p, (k * w) * (r * r), (k * w) * (r0 * r0), 1);
    if sign == 1 {
      Sym(p, k * r, k * r0);
      Trans(p, u, k * r0, k * r);
    } else {
      NegateCong(p, k * r, k * r0);
      Sym(p, -(k * r), k * r0);
      Trans(p, u, k * r0, -(k * r));
    }
  }

  lemma SignTerms(sign: int, k: int, r: int, z: int)
    requires sign == 1 || sign == -1
    ensures k * (sign * r) * z == sign * (k * r * z) && (sign * r) * (sign * r) == r * r
    ensures sign == -1 ==> k * (sign * r) == -(k * r)
  {
  }

  lemma CurveTimesZ(p: int, d: int, X: int, Y: int, Z: int, T: int)
    requires OnCurve(p, d, X, Y, Z, T)
    ensures Cong(p, (Z * X - d * Y * T) * (X * Z), (Z * Z) * (Z * Z - Y * Y))
  {
    var k, l := Witness(p, X * X + Y * Y, Z * Z + d * T * T), Witness(p, X * Y, Z * T);
    CurveTerms(d, X, Y, Z, T);
    CurveTermsArith(p, d, X, Y, Z, T, k, l);
    Intro(p, (Z * X - d * Y * T) * (X * Z), (Z * Z) * (Z * Z - Y * Y), (Z * Z) * k - d * (Z * T) * l);
  }

  lemma CurveTerms(d: int, X: int, Y: int, Z: int, T: int)
    ensures (Z * X - d * Y * T) * (X * Z) == (X * X) * (Z * Z) - d * ((X * Y) * (Z * T))
  {
  }

  lemma CurveTermsArith(p: int, d: int, X: int, Y: int, Z: int, T: int, k: int, l: int)
    requires X * X + Y * Y == Z * Z + d * T * T + k * p && X * Y == Z * T + l * p
    ensures (X * X) * (Z * Z) - d * ((X * Y) * (Z * T)) == (Z * Z) * (Z * Z - Y * Y) + ((Z * Z) * k - d * (Z * T) * l) * p
  {
    var (z, y, x, v) := (Z * Z, Y * Y, X * X, Z * T);
    assert d * T * T * z == d * (v * v);
    CurveArith(p, d, x, y, z, v, k, l, d * T * T);
  }

  lemma CurveArith(p: int, d: int, x: int, y: int, z: int, v: int, k: int, l: int, e: int)
    requires e * z == d * (v * v) && x + y == z + e + k * p
    ensures x * z - d * ((v + l * p) * v) == z * (z - y) + (z * k - d * v * l) * p
  {
    assert x * z == (z + e + k * p - y) * z;
    assert (z + e + k * p - y) * z == z * (z - y) + e * z + (z * k) * p;
    assert d * ((v + l * p) * v) == d * (v * v) + (d * v * l) * p;
  }

  /** (1-d) r (r (ZX - dYT) + Y), multiplied by X Z, is Z^2 + a X Y. */
  lemma EncodedNumber(p: nat, d: int, X: int, Y: int, Z: int, T: int, r: int, a: int)
    requires OnCurve(p, d, X, Y, Z, T) && Cong(p, (1 - d) * r * Z, a)
    requires Cong(p, ((1 - d) * (Z * Z - Y * Y)) * (r * r), 1)
    ensures Cong(p, ((1 - d) * r * (r * (Z * X - d * Y * T) + Y)) * (X * Z), Z * Z + a * (X * Y))
  {
    var (k, w, e) := (1 - d, Z * Z - Y * Y, Z * X - d * Y * T);
    CurveTimesZ(p, d, X, Y, Z, T);
    Refl(p, k * (r * r));
    MulCong(p, k * (r * r), k * (r * r), e * (X * Z), (Z * Z) * w);
    Refl(p, Z * Z);
    MulCong(p, Z * Z, Z * Z, (k * w) * (r * r), 1);
    Refl(p, X * Y);
    MulCong(p, k * r * Z, a, X * Y, X * Y);
    EncodedTerms(k, r, e, X, Y, Z, w);
    Trans(p, k * (r * r) * (e * (X * Z)), (Z * Z) * ((k * w) * (r * r)), Z * Z);
    AddCong(p, k * (r * r) * (e * (X * Z)), Z * Z, (k * r * Z) * (X * Y), a * (X * Y));
  }

  lemma EncodedTerms(k: int, r: int, e: int, X: int, Y: int, Z: int, w: int)
    ensures (k * r * (r * e + Y)) * (X * Z) == k * (r * r) * (e * (X * Z)) + (k * r * Z) * (X * Y)
    ensures k * (r * r) * ((Z * Z) * w) == (Z * Z) * ((k * w) * (r * r))
  {
    assert k * r * (r * e + Y) == k * (r * r) * e + k * r * Y;
    EncodedDistribute(k * (r * r) * e, k * r * Y, X * Z);
    assert (k * (r * r) * e) * (X * Z) == k * (r * r) * (e * (X * Z));
    assert (k * r * Y) * (X * Z) == (k * r * Z) * (X * Y);
  }

  lemma EncodedDistribute(a: int, b: int, m: int)
    ensures (a + b) * m == a * m + b * m
  {
  }

  /** The encoding of a point with slope a is the non-negative one of s and -s, where X Z s = Z^2 + a X Y. */
  lemma EncodeOf(c: Curve, P: ExtPoint, a: int, s: int)
    requires Params(c) && Point(c, P) && !Zero(c.p, P.X) && !Zero(c.p, P.Z * P.Z - P.Y * P.Y) && Slope(c.p, c.d, P.Y, P.Z, a)
    requires Cong(c.p, (P.X * P.Z) * s, P.Z * P.Z + a * (P.X * P.Y))
    ensures DecafEncode(c, P) == DecafNeg(c.p, s, s)
  {
    OneMinusD(c);
    EncodeUnfold(c, P);
    EncodesOf(c.p, c.d, P, DecafEncode(c, P), a, s);
  }

  lemma EncodesOf(p: nat, d: int, P: ExtPoint, e: nat, a: int, s: int)
    requires OddPrime(p) && OnCurve(p, d, P.X, P.Y, P.Z, P.T) && !Zero(p, 1 - d)
    requires !Zero(p, P.X) && !Zero(p, P.Z) && !Zero(p, P.Z * P.Z - P.Y * P.Y) && Slope(p, d, P.Y, P.Z, a)
    requires Cong(p, (P.X * P.Z) * s, P.Z * P.Z + a * (P.X * P.Y)) && Encodes(p, d, P, e)
    ensures e == DecafNeg(p, s, s)
  {
    var q, r0, u, n, r, s0 :| EncoderRun(p, d, P, q, r0, u, n, r, s0) && e == DecafNeg(p, s0, s0);
    EncodeAny(p, d, P.X, P.Y, P.Z, P.T, a, q, r0, u, n, r, s0, s);
    AbsUnique(p, s0, s);
  }

  lemma EncodeAny(p: nat, d: int, X: int, Y: int, Z: int, T: int, a: int, q: int, r0: int, u: int, n: int, r: int, s0: int, s: int)
    requires OddPrime(p) && OnCurve(p, d, X, Y, Z, T)
    requires !Zero(p, X) && !Zero(p, Z) && !Zero(p, 1 - d) && !Zero(p, Z * Z - Y * Y)
    requires Cong(p, (a * a) * (Z * Z - Y * Y), (1 - d) * (Z * Z)) && NonNegative(p, -2 * a)
    requires Cong(p, q, (1 - d) * (Z * Z - Y * Y)) && IsInverseRoot(p, q, r0)
    requires Cong(p, u, (1 - d) * r0) && Cong(p, n, -2 * (u * Z)) && SignedBy(p, n, r0, r)
    requires Cong(p, s0, u * (r * (Z * X - d * Y * T) + Y)) && Cong(p, (X * Z) * s, Z * Z + a * (X * Y))
    ensures PlusMinus(p, s0, s)
  {
    var (k, w) := (1 - d, Z * Z - Y * Y);
    RadicandSquare(p, k, w, a, Z, q);
    ReplaceFactor(p, q, k * w, r0 * r0, 1);
    EncodeRoot(p, k, Z, w, a, r0, u, n, r);
    EncodedClass(p, d, X, Y, Z, T, a, u, r, s0, s);
  }

  lemma EncodedClass(p: nat, d: int, X: int, Y: int, Z: int, T: int, a: int, u: int, r: int, s0: int, s: int)
    requires IsPrime(p) && OnCurve(p, d, X, Y, Z, T) && !Zero(p, X) && !Zero(p, Z)
    requires Cong(p, (1 - d) * r * Z, a) && PlusMinus(p, u, (1 - d) * r) && Cong(p, ((1 - d) * (Z * Z - Y * Y)) * (r * r), 1)
    requires Cong(p, s0, u * (r * (Z * X - d * Y * T) + Y)) && Cong(p, (X * Z) * s, Z * Z + a * (X * Y))
    ensures PlusMinus(p, s0, s)
  {
    EncodedNumber(p, d, X, Y, Z, T, r, a);
    NoZeroDivisors(p, X, Z);
    EncodedSign(p, u, (1 - d) * r, r * (Z * X - d * Y * T) + Y, X * Z, s, Z * Z + a * (X * Y), s0);
  }

  lemma RadicandSquare(p: nat, k: int, w: int, a: int, Z: int, q: int)
    requires IsPrime(p) && !Zero(p, k) && !Zero(p, w) && !Zero(p, Z) && Cong(p, (a * a) * w, k * (Z * Z)) && Cong(p, q, k * w)
    ensures IsSquare(p, q) && !Zero(p, q)
  {
    NoZeroDivisors(p, k, w);
    Refl(p, w);
    MulCong(p, (a * a) * w, k * (Z * Z), w, w);
    RadicandTerms(k, w, a, Z);
    SquareQuotient(p, k * w, Z, a * w);
    SquareCong(p, q, k * w);
    if Zero(p, q) {
      Sym(p, q, k * w);
      Trans(p, k * w, q, 0);
    }
  }

  lemma RadicandTerms(k: int, w: int, a: int, Z: int)
    ensures ((a * a) * w) * w == (a * w) * (a * w) && (k * (Z * Z)) * w == (k * w) * Z * Z
  {
  }

  lemma ReplaceFactor(p: int, q: int, t: int, m: int, b: int)
    requires Cong(p, q, t) && Cong(p, q * m, b)
    ensures Cong(p, t * m, b)
  {
    Sym(p, q, t);
    Refl(p, m);
    MulCong(p, t, q, m, m);
    Trans(p, t * m, q * m, b);
  }

  lemma EncodedSign(p: nat, u: int, v: int, e: int, m: int, s: int, t: int, s0: int)
    requires IsPrime(p) && !Zero(p, m) && PlusMinus(p, u, v) && Cong(p, (v * e) * m, t) && Cong(p, m * s, t) && Cong(p, s0, u * e)
    ensures PlusMinus(p, s0, s)
  {
    Sym(p, m * s, t);
    Trans(p, (v * e) * m, t, m * s);
    Commute(v * e, m);
    Cancel(p, m, v * e, s);
    Refl(p, e);
    if Cong(p, u, v) {
      MulCong(p, u, v, e, e);
      Trans(p, s0, u * e, v * e);
      Trans(p, s0, v * e, s);
    } else {
      MulCong(p, u, -v, e, e);
      Trans(p, s0, u * e, (-v) * e);
      assert (-v) * e == -(v * e);
      Refl(p, 0);
      AddCong(p, 0, 0, v * e, s);
      Trans(p, s0, -(v * e), -s);
    }
  }
}
