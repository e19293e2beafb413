/**
 The SPAKE2-EE exchange of pak.go: spake2ee1 and spake2ee2. Client and server
 that hash the same secret arrive at the same key, through the Decaf encodings
 that travel between them.
 */
module Spake {
  import opened Wrappers
  import opened ModArith
  import opened Residues
  import opened Edwards
  import opened Points
  import opened Scalar
  import opened Decaf
  import opened Decoder
  import opened Cosets
  import opened Subgroup
  import opened Elligator

  /** The base point that spake2ee1 builds from genX and genY. */
  function Generator(c: Curve, gx: nat, gy: nat): ExtPoint
    requires c.p > 0
  {
    NewExtPoint(c.p, gx, gy, 1, ModMul(c.p, gx, gy))
  }

  /** What genX and genY satisfy: they are on the curve, and the encoder's radicand is a square. */
  ghost predicate GoodGenerator(c: Curve, gx: nat, gy: nat) {
    Cong(c.p, gx * gx + gy * gy, 1 + c.d * ((gx * gx) * (gy * gy))) && IsSquare(c.p, (1 - c.d) * (1 - gy * gy))
  }

  function Spake2ee1(c: Curve, G: ExtPoint, x: int, pHash: ExtPoint): nat
    requires OddPrime(c.p) && c.p % 4 == 3
  {
    DecafEncode(c, Share(c, G, x, pHash))
  }

  /** spake2ee2; None is its error return. */
  function Spake2ee2(c: Curve, pHash: ExtPoint, x: int, y: nat): Option<nat>
    requires OddPrime(c.p) && c.p % 4 == 3
  {
    var point := DecafDecode(c, y);
    if point.None? then None else Some(DecafEncode(c, Secret(c, point.value, pHash, x)))
  }

  lemma GeneratorStands(c: Curve, gx: nat, gy: nat)
    requires c.p > 0
    ensures Stands(c.p, Generator(c, gx, gy), gx, gy, 1, gx * gy)
  {
    ModCong(c.p, gx);
    ModCong(c.p, gy);
    ModCong(c.p, 1);
    ModCong(c.p, gx * gy);
    Renew(c.p, ModMul(c.p, gx, gy), gx * gy);
  }

  lemma GeneratorCurve(p: int, d: int, gx: int, gy: int)
    requires Cong(p, gx * gx + gy * gy, 1 + d * ((gx * gx) * (gy * gy)))
    ensures OnCurve(p, d, gx, gy, 1, gx * gy)
  {
    ProductSquare(gx, gy);
    Assoc(d, gx * gy, gx * gy);
    Refl(p, gx * gy);
  }

  lemma GeneratorEven(c: Curve, gx: nat, gy: nat)
    requires Params(c) && GoodGenerator(c, gx, gy)
    ensures Point(c, Generator(c, gx, gy)) && Even(c, Generator(c, gx, gy))
  {
    var p, d, G := c.p, c.d, Generator(c, gx, gy);
    GeneratorStands(c, gx, gy);
    GeneratorCurve(p, d, gx, gy);
    OnCurveCong(p, d, G, gx, gy, 1, gx * gy);
    SmallNonzero(p, 1);
    NonzeroCong(p, G.Z, 1);
    RadicandCong(p, d, G.Y, gy, G.Z, 1);
    SquareCong(p, (1 - d) * (G.Z * G.Z - G.Y * G.Y), (1 - d) * (1 * 1 - gy * gy));
  }

  /** spake2ee1 sends x G + B: its number is accepted, and stands for that point's coset. */
  lemma ShareSent(c: Curve, G: ExtPoint, x: int, B: ExtPoint)
    requires Params(c) && Point(c, G) && Even(c, G) && Point(c, B) && Even(c, B)
    ensures Point(c, Times(c, G, Copies(x))) && Point(c, EdwardsAdd(c, Times(c, G, Copies(x)), B))
    ensures var o := DecafDecode(c, Spake2ee1(c, G, x, B));
            o.Some? && Point(c, o.value) && CosetEq(c, o.value, EdwardsAdd(c, Times(c, G, Copies(x)), B))
  {
    var S := Share(c, G, x, B);
    EvenScale(c, G, x);
    EvenAdd(c, Scale(c, G, x), B);
    ShareBlinded(c, G, x, B);
    TimesPoint(c, G, Copies(x));
    AddComplete(c, Times(c, G, Copies(x)), B);
    DecodeEncode(c, S);
    CosetTrans(c, DecafDecode(c, DecafEncode(c, S)).value, S, EdwardsAdd(c, Times(c, G, Copies(x)), B));
  }

  /** From a number that stands for Q + B, spake2ee2 with that B makes the encoding of x Q. */
  lemma KeyOf(c: Curve, Q: ExtPoint, B: ExtPoint, x: int, y: nat)
    requires Params(c) && Point(c, Q) && Point(c, B) && Even(c, B) && DecafDecode(c, y).Some?
    requires CosetEq(c, DecafDecode(c, y).value, EdwardsAdd(c, Q, B))
    ensures Spake2ee2(c, B, x, y) == Some(DecafEncode(c, Times(c, Q, Copies(x))))
  {
    var R, S, K := DecafDecode(c, y).value, EdwardsAdd(c, Q, B), Times(c, Q, Copies(x));
    DecodeEven(c, y);
    AddComplete(c, Q, B);
    SecretOfPoint(c, R, B, x);
    SecretOfCoset(c, R, S, B, x);
    ProjRefl(c, S);
    SecretUnblinds(c, S, Q, B, x);
    TimesPoint(c, Q, Copies(x));
    CosetTrans(c, Secret(c, R, B, x), Secret(c, S, B, x), K);
    CosetSym(c, Secret(c, R, B, x), K);
    EncodeRespects(c, K, Secret(c, R, B, x));
  }

  /** What is left of y G + B after B' is taken off. */
  ghost function Leftover(c: Curve, G: ExtPoint, y: int, B: ExtPoint, B': ExtPoint): ExtPoint
    requires c.p > 0
  {
    EdwardsAdd(c, EdwardsAdd(c, Times(c, G, Copies(y)), B), NegPoint(c, B'))
  }

  /** The key of an end that takes off another blinding point than the one put on: the encoding of x (y G + B - B'). */
  lemma KeyWithOther(c: Curve, G: ExtPoint, B: ExtPoint, B': ExtPoint, x: int, y: int)
    requires Params(c) && Point(c, G) && Even(c, G) && Point(c, B) && Even(c, B) && Point(c, B') && Even(c, B')
    ensures Point(c, Leftover(c, G, y, B, B')) && Even(c, Leftover(c, G, y, B, B'))
    ensures Spake2ee2(c, B', x, Spake2ee1(c, G, y, B)) == Some(DecafEncode(c, Times(c, Leftover(c, G, y, B, B'), Copies(x))))
  {
    var S, Q := EdwardsAdd(c, Times(c, G, Copies(y)), B), Leftover(c, G, y, B, B');
    var e := Spake2ee1(c, G, y, B);
    ShareSent(c, G, y, B);
    EvenTimes(c, G, Copies(y));
    EvenAdd(c, Times(c, G, Copies(y)), B);
    NegIsPoint(c, B');
    NegEven(c, B');
    EvenAdd(c, S, NegPoint(c, B'));
    BlindBack(c, S, B');
    AddComplete(c, Q, B');
    ProjSym(c, EdwardsAdd(c, Q, B'), S);
    CosetTrans(c, DecafDecode(c, e).value, S, EdwardsAdd(c, Q, B'));
    KeyOf(c, Q, B', x, e);
  }

  /** With the right blinding point it is the encoding of a multiple of the generator. */
  lemma KeyIsTimes(c: Curve, G: ExtPoint, B: ExtPoint, x: nat, y: nat)
    requires Params(c) && Point(c, G) && Even(c, G) && Point(c, B) && Even(c, B)
    ensures Spake2ee2(c, B, x, Spake2ee1(c, G, y, B)) == Some(DecafEncode(c, Times(c, G, Product(x, y))))
  {
    var Y := Times(c, G, y);
    ShareSent(c, G, y, B);
    KeyOf(c, Y, B, x, Spake2ee1(c, G, y, B));
    EvenTimes(c, G, Product(x, y));
    TimesPoint(c, Y, x);
    TimesTimes(c, G, y, x);
    EncodeRespects(c, Times(c, Y, x), Times(c, G, Product(x, y)));
  }

  /** x (y G + B - B') = x y G + x (B - B'). */
  lemma LeftoverSplits(c: Curve, G: ExtPoint, B: ExtPoint, B': ExtPoint, x: nat, y: nat)
    requires Complete(c) && Point(c, G) && Point(c, B) && Point(c, B')
    ensures var (D, Q) := (EdwardsAdd(c, B, NegPoint(c, B')), Leftover(c, G, y, B, B'));
            Point(c, D) && Point(c, Times(c, Q, x)) && Point(c, Times(c, D, x)) && Point(c, Times(c, G, Product(x, y))) &&
            ProjEq(c, Times(c, Q, x), EdwardsAdd(c, Times(c, G, Product(x, y)), Times(c, D, x)))
  {
    var N, Y := NegPoint(c, B'), Times(c, G, y);
    var D, Q := EdwardsAdd(c, B, N), EdwardsAdd(c, EdwardsAdd(c, Y, B), N);
    NegIsPoint(c, B');
    TimesPoint(c, G, y);
    TimesPoint(c, G, Product(x, y));
    AddComplete(c, B, N);
    AddComplete(c, Y, B);
    AddComplete(c, EdwardsAdd(c, Y, B), N);
    AddComplete(c, Y, D);
    AddAssociates(c, Y, B, N);
    TimesPoint(c, Q, x);
    TimesPoint(c, D, x);
    TimesPoint(c, Y, x);
    TimesPoint(c, EdwardsAdd(c, Y, D), x);
    TimesRespects(c, Q, EdwardsAdd(c, Y, D), x);
    TimesSum(c, Y, D, x);
    TimesTimes(c, G, y, x);
    ReplaceLeft(c, Times(c, Y, x), Times(c, G, Product(x, y)), Times(c, D, x));
    var (L, M) := (Times(c, Q, x), EdwardsAdd(c, Times(c, Y, x), Times(c, D, x)));
    ProjTrans(c, L, Times(c, EdwardsAdd(c, Y, D), x), M);
    ProjTrans(c, L, M, EdwardsAdd(c, Times(c, G, Product(x, y)), Times(c, D, x)));
  }

  /**
   The password matters. An end that takes off B' where B was put on obtains the key of the right B if and only if
   x (B - B') is in the coset of the identity.
   */
  lemma KeyMatchesIff(c: Curve, G: ExtPoint, B: ExtPoint, B': ExtPoint, x: nat, y: nat)
    requires Params(c) && Point(c, G) && Even(c, G) && Point(c, B) && Even(c, B) && Point(c, B') && Even(c, B')
    ensures Spake2ee2(c, B', x, Spake2ee1(c, G, y, B)) == Spake2ee2(c, B, x, Spake2ee1(c, G, y, B)) <==>
            CosetEq(c, Times(c, EdwardsAdd(c, B, NegPoint(c, B')), x), Identity(c))
  {
    var K, E := Times(c, G, Product(x, y)), Times(c, EdwardsAdd(c, B, NegPoint(c, B')), x);
    var L := Times(c, Leftover(c, G, y, B, B'), x);
    KeyWithOther(c, G, B, B', x, y);
    KeyIsTimes(c, G, B, x, y);
    LeftoverSplits(c, G, B, B', x, y);
    EvenTimes(c, Leftover(c, G, y, B, B'), x);
    EvenTimes(c, G, Product(x, y));
    EncodeInjective(c, L, K);
    CosetCancel(c, K, E);
    AddComplete(c, K, E);
    if CosetEq(c, L, K) {
      CosetSym(c, L, EdwardsAdd(c, K, E));
      CosetTrans(c, EdwardsAdd(c, K, E), L, K);
    }
    if CosetEq(c, EdwardsAdd(c, K, E), K) {
      CosetTrans(c, L, EdwardsAdd(c, K, E), K);
    }
  }

  lemma SecretOfCoset(c: Curve, R: ExtPoint, S: ExtPoint, B: ExtPoint, x: int)
    requires Complete(c) && Point(c, R) && Point(c, S) && Point(c, B) && CosetEq(c, R, S)
    ensures Point(c, Secret(c, R, B, x)) && Point(c, Secret(c, S, B, x)) && CosetEq(c, Secret(c, R, B, x), Secret(c, S, B, x))
  {
    var N := NegPoint(c, B);
    NegIsPoint(c, B);
    AddComplete(c, R, N);
    AddComplete(c, S, N);
    CosetAdd(c, R, S, N);
    CosetScale(c, EdwardsAdd(c, R, N), EdwardsAdd(c, S, N), x);
    ScaleIsTimes(c, EdwardsAdd(c, R, N), x);
    ScaleIsTimes(c, EdwardsAdd(c, S, N), x);
  }

  /**
   Key agreement. The client (scalar x, blinding point hashed from hm) and the server (scalar y, blinding
   point hashed from hn) exchange encodings; neither rejects the other's, and their keys are equal.
   */
  lemma KeysAgree(c: Curve, gx: nat, gy: nat, hm: int, hn: int, x: nat, y: nat)
    requires Params(c) && GoodGenerator(c, gx, gy)
    ensures var (G, M, N) := (Generator(c, gx, gy), HashToPoint(c, hm), HashToPoint(c, hn));
            var (client, server) := (Spake2ee2(c, N, x, Spake2ee1(c, G, y, N)), Spake2ee2(c, M, y, Spake2ee1(c, G, x, M)));
            client.Some? && client == server
  {
    GeneratorEven(c, gx, gy);
    HashLands(c, hm);
    HashLands(c, hn);
    KeyIsTimes(c, Generator(c, gx, gy), HashToPoint(c, hn), x, y);
    KeyIsTimes(c, Generator(c, gx, gy), HashToPoint(c, hm), y, x);
  }

  /** Whatever number is received, an accepted one leads to points of the curve only, and to even ones if B is even. */
  lemma SecretOnCurve(c: Curve, B: ExtPoint, x: int, y: nat)
    requires Params(c) && Point(c, B) && DecafDecode(c, y).Some?
    ensures var R := DecafDecode(c, y).value;
            Point(c, R) && Even(c, R) && Point(c, EdwardsAdd(c, R, NegPoint(c, B))) && Point(c, Secret(c, R, B, x)) &&
            (Even(c, B) ==> Even(c, EdwardsAdd(c, R, NegPoint(c, B))) && Even(c, Secret(c, R, B, x)))
  {
    DecodeEven(c, y);
    SecretOfPoint(c, DecafDecode(c, y).value, B, x);
  }

  lemma SecretOfPoint(c: Curve, R: ExtPoint, B: ExtPoint, x: int)
    requires Params(c) && Point(c, R) && Point(c, B)
    ensures var U := EdwardsAdd(c, R, NegPoint(c, B));
            Point(c, U) && Point(c, Secret(c, R, B, x)) &&
            (Even(c, R) && Even(c, B) ==> Even(c, U) && Even(c, Secret(c, R, B, x)))
  {
    var N := NegPoint(c, B);
    NegIsPoint(c, B);
    AddComplete(c, R, N);
    ScaleIsTimes(c, EdwardsAdd(c, R, N), x);
    if Even(c, R) && Even(c, B) {
      NegEven(c, B);
      EvenAdd(c, R, N);
      EvenScale(c, EdwardsAdd(c, R, N), x);
    }
  }

  lemma NegEven(c: Curve, B: ExtPoint)
    requires c.p > 0 && Even(c, B)
    ensures Even(c, NegPoint(c, B))
  {
  }

  /** The assumptions can be met: p = 7, d = 5 and the base point (2, 3). */
  lemma SmallInstance()
    ensures Params(Curve(7, 5)) && GoodGenerator(Curve(7, 5), 2, 3)
  {
    SevenIsPrime();
    FiveIsNotSquare();
    Intro(7, 2 * 2 + 3 * 3, 1 + 5 * ((2 * 2) * (3 * 3)), -24);
    Intro(7, 2 * 2, (1 - 5) * (1 - 3 * 3), -4);
    assert IsRoot(7, 2, (1 - 5) * (1 - 3 * 3));
  }

  lemma SevenIsPrime()
    ensures IsPrime(7)
  {
    assert !Divides(2, 7) && !Divides(3, 7) && !Divides(4, 7) && !Divides(5, 7) && !Divides(6, 7);
  }

  lemma FiveIsNotSquare()
    ensures !IsSquare(7, 5)
  {
    SevenIsPrime();
    SmallNonzero(7, 5);
    assert Pow(5, 2) == 5 * Pow(5, 1) && Pow(5, 3) == 5 * Pow(5, 2);
    Intro(7, Pow(5, 3), -1, 18);
    if IsSquare(7, 5) {
      SquareHasPowerOne(7, 5);
      OneIsNotMinusOne(7, Pow(5, 3));
    }
  }

  // ----- Two hashes with different points, for p = 7 and d = 5

  lemma LeastModSeven(n: nat)
    requires LeastNonSquare(7, n)
    ensures n == 3
  {
    SevenIsPrime();
    Intro(7, 3 * 3, 2, 1);
    assert IsRoot(7, 3, 2);
    ThreeIsNotSquare();
    assert IsSquare(7, 2);
  }

  lemma ThreeIsNotSquare()
    ensures !IsSquare(7, 3)
  {
    SevenIsPrime();
    SmallNonzero(7, 3);
    assert Pow(3, 2) == 3 * Pow(3, 1) && Pow(3, 3) == 3 * Pow(3, 2);
    Intro(7, Pow(3, 3), -1, 4);
    if IsSquare(7, 3) {
      SquareHasPowerOne(7, 3);
      OneIsNotMinusOne(7, Pow(3, 3));
    }
  }

  /** The hash 1 leads to N D = 0, so to a point with X = 0. */
  lemma HashOfOne(P: ExtPoint, n: nat, r: nat, nd: nat, s: int, t: int)
    requires Hashed(Curve(7, 5), 1, P, n, r, nd, s, t)
    ensures Zero(7, P.X)
  {
    LeastModSeven(n);
    CongUnique(7, r, 3);
    assert PolyN(5, 3) * PolyD(5, 3) == -36 * 77;
    Intro(7, -36 * 77, 0, -36 * 11);
    Trans(7, nd, -36 * 77, 0);
    assert Zero(7, s);
    PairOnAxis(7, P.X, s, t);
  }

  lemma PairOnAxis(p: int, x: int, s: int, t: int)
    requires Zero(p, s) && Cong(p, x, (2 * s) * t)
    ensures Zero(p, x)
  {
    Refl(p, 2);
    Refl(p, t);
    MulCong(p, 2, 2, s, 0);
    MulCong(p, 2 * s, 0, t, t);
    Trans(p, x, (2 * s) * t, 0);
  }

  /** The hash 0 leads to N D = 2, and to a point with X not 0. */
  lemma HashOfZero(P: ExtPoint, n: nat, r: nat, nd: nat, s: int, t: int)
    requires Hashed(Curve(7, 5), 0, P, n, r, nd, s, t)
    ensures !Zero(7, P.X)
  {
    SevenIsPrime();
    LeastModSeven(n);
    CongUnique(7, r, 0);
    assert PolyN(5, 0) == -9 && PolyD(5, 0) == 20;
    Intro(7, -180, 2, -26);
    Trans(7, nd, -180, 2);
    CongUnique(7, nd, 2);
    SmallNonzero(7, 2);
    Intro(7, 3 * 3, 2, 1);
    assert IsRoot(7, 3, 2);
    assert Mapped(7, 5, 0, 1, s, t);
    FactorsNonzero(s, t);
    NoZeroDivisors(7, 2, s);
    NoZeroDivisors(7, 2 * s, t);
    NonzeroCong(7, P.X, (2 * s) * t);
  }

  lemma FactorsNonzero(s: int, t: int)
    requires Cong(7, 20 * (s * s), -9) && Cong(7, 20 * t, 61)
    ensures !Zero(7, s) && !Zero(7, t)
  {
    SevenIsPrime();
    SmallNonzero(7, 5);
    Intro(7, -9, 5, -2);
    Intro(7, 61, 5, 8);
    Trans(7, 20 * (s * s), -9, 5);
    Trans(7, 20 * t, 61, 5);
    if Zero(7, s) {
      MulCong(7, s, 0, s, 0);
      ZeroLeft(20, s * s, 5);
    }
    if Zero(7, t) {
      ZeroLeft(20, t, 5);
    }
  }

  lemma ZeroLeft(k: int, x: int, v: int)
    requires Zero(7, x) && Cong(7, k * x, v)
    ensures Zero(7, v)
  {
    Refl(7, k);
    MulCong(7, k, k, x, 0);
    Sym(7, k * x, v);
    Trans(7, v, k * x, 0);
  }

  /** Points of one coset have both X = 0, or neither. */
  lemma CosetOfAxis(c: Curve, P: ExtPoint, Q: ExtPoint)
    requires IsPrime(c.p) && Point(c, P) && Point(c, Q) && CosetEq(c, P, Q) && Zero(c.p, Q.X)
    ensures Zero(c.p, P.X)
  {
    var p, F := c.p, Flip(c, Q);
    FlipStands(c, Q);
    FlipIsPoint(c, Q);
    OppositeCong(p, Q.X, 0);
    Trans(p, F.X, 0 - Q.X, 0);
    if ProjEq(c, P, Q) {
      AxisCross(p, P.X, P.Z, Q.X, Q.Z);
    } else {
      AxisCross(p, P.X, P.Z, F.X, F.Z);
    }
  }

  lemma AxisCross(p: nat, x: int, z: int, x': int, z': int)
    requires IsPrime(p) && Zero(p, x') && !Zero(p, z') && Cong(p, x * z', x' * z)
    ensures Zero(p, x)
  {
    Refl(p, z);
    MulCong(p, x', 0, z, z);
    Trans(p, x * z', x' * z, 0);
    NoZeroDivisors(p, x, z');
  }

  /** The hash matters: 0 and 1 lead to points that are not in one coset. */
  lemma HashesDiffer(c: Curve, h: int, k: int)
    requires c == Curve(7, 5) && h == 0 && k == 1
    ensures Params(c) && !CosetEq(c, HashToPoint(c, h), HashToPoint(c, k))
  {
    SmallInstance();
    HashLands(c, h);
    HashLands(c, k);
    HashZeroAxis(c, h);
    HashOneAxis(c, k);
    if CosetEq(c, HashToPoint(c, h), HashToPoint(c, k)) {
      CosetOfAxis(c, HashToPoint(c, h), HashToPoint(c, k));
    }
  }

  lemma HashZeroAxis(c: Curve, h: int)
    requires c == Curve(7, 5) && h == 0 && Params(c)
    ensures !Zero(7, HashToPoint(c, h).X)
  {
    var n, r, nd, s, t := HashMaps(c, h);
    HashOfZero(HashToPoint(c, h), n, r, nd, s, t);
  }

  lemma HashOneAxis(c: Curve, h: int)
    requires c == Curve(7, 5) && h == 1 && Params(c)
    ensures Zero(7, HashToPoint(c, h).X)
  {
    var n, r, nd, s, t := HashMaps(c, h);
    HashOfOne(HashToPoint(c, h), n, r, nd, s, t);
  }
}
