/**
 Hashing to the curve: elligator2Point and spake2eeH2P of pak.go, with
 fieldA = 1. Whatever the hash, the result is an even point of the curve.
 */
module Elligator {
  import opened ModArith
  import opened Residues
  import opened SquareRoot
  import opened Edwards
  import opened Points
  import opened GroupLaw
  import opened Decaf
  import opened Decoder
  import opened Cosets

  function Elligator2Point(c: Curve, n: nat, r0: nat): ExtPoint
    requires OddPrime(c.p) && c.p % 4 == 3
  {
    var p, d := c.p, c.d;
    var r := ModMul(p, n, ModMul(p, r0, r0));
    var D := ElligatorD(p, d, r);
    var N := ElligatorN(p, d, r);
    var (sign, e) := ElligatorRoot(p, n, r0, ModMul(p, N, D));
    ElligatorPoint(p, ElligatorS(p, N, sign, e), ElligatorT(p, d, r, N, sign, e))
  }

  function ElligatorD(p: nat, d: nat, r: nat): nat
    requires p > 0
  {
    ModMul(p,
      ModSub(p, ModAdd(p, ModMul(p, d, r), ModSub(p, 1, d)), 0),
      ModSub(p, ModSub(p, ModMul(p, d, r), ModMul(p, 1, r)), d))
  }

  function ElligatorN(p: nat, d: nat, r: nat): nat
    requires p > 0
  {
    ModMul(p, ModAdd(p, r, 1), ModSub(p, 1, ModAdd(p, d, d)))
  }

  /** c and e, by the three branches on ND. */
  function ElligatorRoot(p: nat, n: nat, r0: nat, ND: nat): (nat, nat)
    requires OddPrime(p) && p % 4 == 3
  {
    if ND == 0 then (1, 0)
    else if RootOf(p, ND) != 0 then (1, ModInv(p, RootOf(p, ND)))
    else (Neg(p, 1), ModMul(p, ModMul(p, n, r0), Misqrt(p, ModMul(p, n, ND)).v))
  }

  function ElligatorS(p: nat, N: nat, sign: nat, e: nat): nat
    requires p > 0
  {
    ModMul(p, ModMul(p, sign, N), e)
  }

  function ElligatorT(p: nat, d: nat, r: nat, N: nat, sign: nat, e: nat): nat
    requires p > 0
  {
    Neg(p, ModAdd(p,
      ModMul(p, ModMul(p, ModMul(p, sign, N), ModSub(p, r, 1)), Square(p, ModMul(p, ModSub(p, 1, ModAdd(p, d, d)), e))),
      1))
  }

  function ElligatorPoint(p: nat, s: nat, t: nat): ExtPoint
    requires p > 0
  {
    var ss := ModMul(p, 1, Square(p, s));
    NewExtPoint(p,
      ModMul(p, ModAdd(p, s, s), t),
      ModMul(p, ModSub(p, 1, ss), ModAdd(p, 1, ss)),
      ModMul(p, ModAdd(p, 1, ss), t),
      ModMul(p, ModAdd(p, s, s), ModSub(p, 1, ss)))
  }

  /** spake2eeH2P. */
  function HashToPoint(c: Curve, h: int): ExtPoint
    requires OddPrime(c.p) && c.p % 4 == 3
  {
    SearchEnds(c.p);
    Elligator2Point(c, FirstNonResidue(c.p, 2), Mod(c.p, h))
  }

  // ----- A pair (s, t) with t^2 = u gives an even point

  lemma PointShape(p: nat, s: nat, t: nat)
    requires p > 0
    ensures var m := s * s; Stands(p, ElligatorPoint(p, s, t), (2 * s) * t, (1 - m) * (1 + m), (1 + m) * t, (2 * s) * (1 - m))
  {
    var (m, ss) := (s * s, ModMul(p, 1, Square(p, s)));
    Refl(p, s);
    Refl(p, t);
    Refl(p, 1);
    Ops(p, s, s, s, s);
    Ops(p, 1, 1, Square(p, s), m);
    Ops(p, 1, 1, ss, m);
    Ops(p, ModAdd(p, s, s), 2 * s, t, t);
    Ops(p, ModSub(p, 1, ss), 1 - m, ModAdd(p, 1, ss), 1 + m);
    Ops(p, ModAdd(p, 1, ss), 1 + m, t, t);
    Ops(p, ModAdd(p, s, s), 2 * s, ModSub(p, 1, ss), 1 - m);
    Renew(p, ModMul(p, ModAdd(p, s, s), t), (2 * s) * t);
    Renew(p, ModMul(p, ModSub(p, 1, ss), ModAdd(p, 1, ss)), (1 - m) * (1 + m));
    Renew(p, ModMul(p, ModAdd(p, 1, ss), t), (1 + m) * t);
    Renew(p, ModMul(p, ModAdd(p, s, s), ModSub(p, 1, ss)), (2 * s) * (1 - m));
  }

  lemma CurveOfPair(p: int, d: int, s: int, t: int)
    requires Cong(p, t * t, U(d, s))
    ensures var m := s * s; OnCurve(p, d, (2 * s) * t, (1 - m) * (1 + m), (1 + m) * t, (2 * s) * (1 - m))
  {
    var m := s * s;
    var (X, Y, Z, T) := ((2 * s) * t, (1 - m) * (1 + m), (1 + m) * t, (2 * s) * (1 - m));
    PairSquares(d, s, t, m);
    PairTerms(d, m, t * t);
    Combine(p, X * X + Y * Y, Z * Z + d * T * T, -((1 - m) * (1 - m)), t * t, U(d, s));
    PairProduct(2 * s, t, 1 - m, 1 + m);
    Refl(p, X * Y);
  }

  lemma PairProduct(s: int, t: int, a: int, b: int)
    ensures (s * t) * (a * b) == (b * t) * (s * a)
  {
  }

  lemma PairSquares(d: int, s: int, t: int, m: int)
    requires m == s * s
    ensures ((2 * s) * t) * ((2 * s) * t) == 4 * m * (t * t)
    ensures ((1 - m) * (1 + m)) * ((1 - m) * (1 + m)) == ((1 - m) * (1 - m)) * ((1 + m) * (1 + m))
    ensures ((1 + m) * t) * ((1 + m) * t) == ((1 + m) * (1 + m)) * (t * t)
    ensures d * ((2 * s) * (1 - m)) * ((2 * s) * (1 - m)) == 4 * d * m * ((1 - m) * (1 - m))
  {
    ProductSquare(2 * s, t);
    ProductSquare(1 - m, 1 + m);
    ProductSquare(1 + m, t);
    ProductSquare(2 * s, 1 - m);
    assert (2 * s) * (2 * s) == 4 * m;
    Assoc(d, (2 * s) * (1 - m), (2 * s) * (1 - m));
    assert d * ((4 * m) * ((1 - m) * (1 - m))) == 4 * d * m * ((1 - m) * (1 - m));
  }

  lemma PairTerms(d: int, m: int, tt: int)
    ensures (4 * m * tt + ((1 - m) * (1 - m)) * ((1 + m) * (1 + m))) - (((1 + m) * (1 + m)) * tt + 4 * d * m * ((1 - m) * (1 - m)))
         == -((1 - m) * (1 - m)) * (tt - ((1 + m) * (1 + m) - 4 * d * m))
  {
    var (a, b) := ((1 - m) * (1 - m), (1 + m) * (1 + m));
    assert b == a + 4 * m;
    PairTerms'(d, m, tt, a, b);
  }

  lemma PairTerms'(d: int, m: int, tt: int, a: int, b: int)
    requires b == a + 4 * m
    ensures (4 * m * tt + a * b) - (b * tt + 4 * d * m * a) == -a * (tt - (b - 4 * d * m))
  {
    assert b * tt == a * tt + 4 * m * tt;
    assert -a * (tt - (b - 4 * d * m)) == -a * tt + a * b - 4 * d * m * a;
  }

  /** (1-d)(Z^2 - Y^2) = ((1-d) (1 + s^2) 2 s)^2. */
  lemma EvenOfPair(p: int, d: int, s: int, t: int)
    requires Cong(p, t * t, U(d, s))
    ensures var m := s * s;
            IsSquare(p, (1 - d) * (((1 + m) * t) * ((1 + m) * t) - ((1 - m) * (1 + m)) * ((1 - m) * (1 + m))))
  {
    var (m, k) := (s * s, 1 - d);
    var g := k * ((1 + m) * (2 * s));
    var r := k * (((1 + m) * t) * ((1 + m) * t) - ((1 - m) * (1 + m)) * ((1 - m) * (1 + m)));
    PairSquares(d, s, t, m);
    ProductSquare(k, (1 + m) * (2 * s));
    ProductSquare(1 + m, 2 * s);
    assert (2 * s) * (2 * s) == 4 * m;
    EvenTerms(d, k, m, t * t, (1 + m) * (1 + m), (1 - m) * (1 - m));
    Combine(p, g * g, r, -(k * ((1 + m) * (1 + m))), t * t, U(d, s));
    assert IsRoot(p, g, r);
  }

  lemma EvenTerms(d: int, k: int, m: int, tt: int, b: int, a: int)
    requires k == 1 - d && b == a + 4 * m
    ensures (k * k) * (b * (4 * m)) - k * (b * tt - a * b) == -(k * b) * (tt - (b - 4 * d * m))
  {
    EvenTerms'(k, b, m, tt, a);
    var kb := k * b;
    assert 4 * m * k - (tt - a) == -(tt - (b - 4 * d * m)) by { assert m * k == m - d * m; }
    assert kb * (4 * m * k) - kb * (tt - a) == kb * (4 * m * k - (tt - a));
  }

  lemma EvenTerms'(k: int, b: int, m: int, tt: int, a: int)
    ensures (k * k) * (b * (4 * m)) == (k * b) * (4 * m * k) && k * (b * tt - a * b) == (k * b) * (tt - a)
  {
  }

  lemma PairIsEvenPoint(c: Curve, s: nat, t: nat)
    requires Params(c) && Cong(c.p, t * t, U(c.d, s))
    ensures Point(c, ElligatorPoint(c.p, s, t)) && Even(c, ElligatorPoint(c.p, s, t))
  {
    var p, d, P, m := c.p, c.d, ElligatorPoint(c.p, s, t), s * s;
    PointShape(p, s, t);
    CurveOfPair(p, d, s, t);
    OnCurveCong(p, d, P, (2 * s) * t, (1 - m) * (1 + m), (1 + m) * t, (2 * s) * (1 - m));
    MinusOneNonSquare(p, s);
    UNonzero(c, s);
    NonzeroCong(p, t * t, U(d, s));
    NoZeroDivisors(p, t, t);
    NoZeroDivisors(p, 1 + m, t);
    NonzeroCong(p, P.Z, (1 + m) * t);
    EvenOfPair(p, d, s, t);
    RadicandCong(p, d, P.Y, (1 - m) * (1 + m), P.Z, (1 + m) * t);
    SquareCong(p, (1 - d) * (P.Z * P.Z - P.Y * P.Y),
      (1 - d) * (((1 + m) * t) * ((1 + m) * t) - ((1 - m) * (1 + m)) * ((1 - m) * (1 + m))));
  }

  // ----- The three branches

  /** e^2 N D is 1 or r, and the sign goes with it; if N D = 0 then e = 0. */
  ghost predicate Branch(p: nat, r: int, nd: nat, sign: int, e: int) {
    if nd == 0 then sign == 1 && e == 0
    else (sign == 1 && Cong(p, (e * e) * nd, 1)) || (sign == -1 && Cong(p, (e * e) * nd, r))
  }

  ghost function PolyD(d: int, r: int): int { (d * r + 1 - d) * (d * r - r - d) }
  ghost function PolyN(d: int, r: int): int { (r + 1) * (1 - 2 * d) }

  lemma FourD(d: int, r: int)
    ensures 4 * PolyD(d, r) == ((r - 1) * (1 - 2 * d)) * ((r - 1) * (1 - 2 * d)) - (r + 1) * (r + 1)
  {
    var (a, b) := ((r - 1) * (1 - 2 * d), r + 1);
    assert a - b == -2 * (d * r + 1 - d) && a + b == -2 * (d * r - r - d);
    assert a * a - b * b == (a - b) * (a + b);
    FourProducts(d * r + 1 - d, d * r - r - d);
  }

  lemma FourProducts(a: int, b: int)
    ensures (-2 * a) * (-2 * b) == 4 * (a * b)
  {
  }

  /** t^2 = u, multiplied by D^2, with a = c (r-1), b = r+1 and q the value of e^2 N D. */
  lemma ElligatorIdentity(d: int, D: int, a: int, b: int, q: int)
    requires a - b == -2 * q && 4 * D == (a * (1 - 2 * d)) * (a * (1 - 2 * d)) - b * b
    ensures var n := b * (1 - 2 * d);
            (D + a * ((1 - 2 * d) * (1 - 2 * d)) * q) * (D + a * ((1 - 2 * d) * (1 - 2 * d)) * q)
            == (D + n * q) * (D + n * q) - 4 * d * (D * (n * q))
  {
    var h := 1 - 2 * d;
    var g := h * h;
    var (u, v) := (a * g * q, b * h * q);
    BinomialSquare(D, u);
    BinomialSquare(D, v);
    ProductSquare(a, h);
    IdentityLinear(d, h, D, a, b, q);
    IdentitySquares(a, b, g, h, q, D);
  }

  lemma IdentityLinear(d: int, h: int, D: int, a: int, b: int, q: int)
    requires h == 1 - 2 * d && a - b == -2 * q
    ensures 2 * (D * (a * (h * h) * q)) - 2 * (D * (b * h * q)) + 4 * d * (D * (b * h * q)) == -4 * (D * ((h * h) * (q * q)))
  {
    var w := D * (b * h * q);
    assert 2 * w - 4 * d * w == 2 * (h * w);
    assert h * w == D * (b * (h * h) * q) by { LinearTerms(h, D, b, q); }
    assert D * (a * (h * h) * q) - D * (b * (h * h) * q) == D * ((a - b) * (h * h) * q);
    assert (-2 * q) * (h * h) * q == -2 * ((h * h) * (q * q));
  }

  lemma LinearTerms(h: int, D: int, b: int, q: int)
    ensures h * (D * (b * h * q)) == D * (b * (h * h) * q)
  {
  }

  lemma IdentitySquares(a: int, b: int, g: int, h: int, q: int, D: int)
    requires g == h * h && 4 * D == (a * a) * g - b * b
    ensures (a * g * q) * (a * g * q) - (b * h * q) * (b * h * q) == 4 * (D * (g * (q * q)))
  {
    SquareThree(a, g, q);
    SquareThree(b, h, q);
    var m := g * (q * q);
    assert (a * a) * (g * g) * (q * q) == ((a * a) * g) * m by { MonomialG(a * a, g, q * q); }
    assert (b * b) * (h * h) * (q * q) == (b * b) * m;
    assert ((a * a) * g) * m - (b * b) * m == (4 * D) * m;
  }

  lemma MonomialG(x: int, g: int, y: int)
    ensures x * (g * g) * y == (x * g) * (g * y)
  {
  }

  lemma SquareThree(a: int, b: int, c: int)
    ensures (a * b * c) * (a * b * c) == (a * a) * (b * b) * (c * c)
  {
    ProductSquare(a * b, c);
    ProductSquare(a, b);
  }

  /** s and t of elligator2Point as integers. */
  ghost function PolyS(d: int, r: int, sign: int, e: int): int { sign * PolyN(d, r) * e }
  ghost function PolyT(d: int, r: int, sign: int, e: int): int {
    -(sign * PolyN(d, r) * (r - 1) * (((1 - 2 * d) * e) * ((1 - 2 * d) * e)) + 1)
  }

  lemma ScaledT(p: int, D: int, n: int, a: int, g: int, ee: int, q: int, t: int)
    requires Cong(p, ee * (n * D), q) && t == -(n * a * (g * ee) + 1)
    ensures Cong(p, D * t, -(D + a * g * q))
  {
    assert D * t == -(D + a * g * (ee * (n * D))) by { ScaledTTerms(D, n, a, g, ee); }
    Combine(p, D * t, -(D + a * g * q), -(a * g), ee * (n * D), q);
  }

  lemma ScaledTTerms(D: int, n: int, a: int, g: int, ee: int)
    ensures D * -(n * a * (g * ee) + 1) == -(D + a * g * (ee * (n * D)))
  {
  }

  lemma ScaledS(p: int, D: int, n: int, ee: int, q: int, ss: int)
    requires Cong(p, ee * (n * D), q) && ss == (n * n) * ee
    ensures Cong(p, D * ss, n * q)
  {
    assert D * ss == n * (ee * (n * D));
    Refl(p, n);
    MulCong(p, n, n, ee * (n * D), q);
  }

  lemma ScaledU(p: int, d: int, D: int, ss: int, m: int)
    requires Cong(p, D * ss, m)
    ensures Cong(p, (D * D) * ((1 + ss) * (1 + ss) - 4 * d * ss), (D + m) * (D + m) - 4 * d * (D * m))
  {
    var w := D * ss;
    ScaledUTerms(d, D, ss);
    ScaledUDifference(d, D, w, m);
    Combine(p, (D + w) * (D + w) - 4 * d * (D * w), (D + m) * (D + m) - 4 * d * (D * m), 2 * D + w + m - 4 * d * D, w, m);
  }

  lemma ScaledUTerms(d: int, D: int, ss: int)
    ensures (D * D) * ((1 + ss) * (1 + ss) - 4 * d * ss) == (D + D * ss) * (D + D * ss) - 4 * d * (D * (D * ss))
  {
    ProductSquare(D, 1 + ss);
    assert D * (1 + ss) == D + D * ss;
    assert (D * D) * (4 * d * ss) == 4 * d * (D * (D * ss));
  }

  lemma ScaledUDifference(d: int, D: int, w: int, m: int)
    ensures ((D + w) * (D + w) - 4 * d * (D * w)) - ((D + m) * (D + m) - 4 * d * (D * m)) == (2 * D + w + m - 4 * d * D) * (w - m)
  {
  }

  lemma NegatedProduct(p: int, x: int, y: int)
    requires Cong(p, x, -y)
    ensures Cong(p, x * x, y * y)
  {
    MulCong(p, x, -y, x, -y);
    NegatedSquare(y);
  }

  /** t^2 = (1 + s^2)^2 - 4 d s^2, when D is not zero. */
  lemma PairOnBranch(p: nat, d: int, r: int, sign: int, e: int, q: int)
    requires (sign == 1 && q == 1) || (sign == -1 && q == r)
    requires IsPrime(p) && !Zero(p, PolyD(d, r)) && Cong(p, (e * e) * (PolyN(d, r) * PolyD(d, r)), q)
    ensures var t := PolyT(d, r, sign, e); Cong(p, t * t, U(d, PolyS(d, r, sign, e)))
  {
    var (D, n, h, ee) := (PolyD(d, r), PolyN(d, r), 1 - 2 * d, e * e);
    var (a, s, t) := (sign * (r - 1), PolyS(d, r, sign, e), PolyT(d, r, sign, e));
    PolySquares(sign, n, e, r, h);
    ScaledT(p, D, n, a, h * h, ee, q, t);
    ScaledS(p, D, n, ee, q, s * s);
    ScaledU(p, d, D, s * s, n * q);
    FourD(d, r);
    SignSquare(sign, r - 1, h);
    ElligatorIdentity(d, D, a, r + 1, q);
    NegatedProduct(p, D * t, D + a * (h * h) * q);
    ProductSquare(D, t);
    Sym(p, (D * D) * U(d, s), (D + n * q) * (D + n * q) - 4 * d * (D * (n * q)));
    Trans(p, (D * D) * (t * t), (D + n * q) * (D + n * q) - 4 * d * (D * (n * q)), (D * D) * U(d, s));
    NoZeroDivisors(p, D, D);
    Cancel(p, D * D, t * t, U(d, s));
  }

  lemma SignSquare(sign: int, m: int, h: int)
    requires sign == 1 || sign == -1
    ensures ((sign * m) * h) * ((sign * m) * h) == (m * h) * (m * h)
  {
  }

  lemma PolySquares(sign: int, n: int, e: int, r: int, h: int)
    requires sign == 1 || sign == -1
    ensures (sign * n * e) * (sign * n * e) == (n * n) * (e * e)
    ensures -(sign * n * (r - 1) * ((h * e) * (h * e)) + 1) == -(n * (sign * (r - 1)) * ((h * h) * (e * e)) + 1)
  {
    ProductSquare(h, e);
    ProductSquare(n, e);
  }

  lemma PairAtZero(p: nat, d: int, r: int, e: int)
    requires Zero(p, e)
    ensures var t := PolyT(d, r, 1, e); Cong(p, t * t, U(d, PolyS(d, r, 1, e)))
  {
    var (n, h, s, t) := (PolyN(d, r), 1 - 2 * d, PolyS(d, r, 1, e), PolyT(d, r, 1, e));
    Combine(p, s, 0, n, e, 0);
    MulCong(p, s, 0, s, 0);
    UAtZero(p, d, s * s);
    ZeroTTerms(n, r, h, e);
    Combine(p, t, -1, -(n * (r - 1) * (h * (h * e))), e, 0);
    MulCong(p, t, -1, t, -1);
    Sym(p, U(d, s), 1);
    Trans(p, t * t, 1, U(d, s));
  }

  lemma ZeroTTerms(n: int, r: int, h: int, e: int)
    ensures -(1 * n * (r - 1) * ((h * e) * (h * e)) + 1) + 1 == -(n * (r - 1) * (h * (h * e))) * e
  {
    assert (h * e) * (h * e) == (h * (h * e)) * e;
  }

  // ----- What the code computes

  lemma NumberD(p: nat, d: nat, r: nat)
    requires p > 0
    ensures Cong(p, ElligatorD(p, d, r), PolyD(d, r))
  {
    Refl(p, 0);
    Refl(p, 1);
    Refl(p, d);
    Refl(p, r);
    Ops(p, d, d, r, r);
    Ops(p, 1, 1, d, d);
    Ops(p, 1, 1, r, r);
    var dr := ModMul(p, d, r);
    Ops(p, dr, d * r, ModSub(p, 1, d), 1 - d);
    Ops(p, ModAdd(p, dr, ModSub(p, 1, d)), d * r + (1 - d), 0, 0);
    Ops(p, dr, d * r, ModMul(p, 1, r), r);
    Ops(p, ModSub(p, dr, ModMul(p, 1, r)), d * r - r, d, d);
    Ops(p, ModSub(p, ModAdd(p, dr, ModSub(p, 1, d)), 0), d * r + 1 - d,
      ModSub(p, ModSub(p, dr, ModMul(p, 1, r)), d), d * r - r - d);
  }

  lemma OneMinusTwoD(p: nat, d: nat)
    requires p > 0
    ensures Cong(p, ModSub(p, 1, ModAdd(p, d, d)), 1 - 2 * d)
  {
    Refl(p, 1);
    Refl(p, d);
    Ops(p, d, d, d, d);
    Ops(p, 1, 1, ModAdd(p, d, d), 2 * d);
  }

  lemma NumberN(p: nat, d: nat, r: nat)
    requires p > 0
    ensures Cong(p, ElligatorN(p, d, r), PolyN(d, r))
  {
    Refl(p, 1);
    Refl(p, r);
    OneMinusTwoD(p, d);
    Ops(p, r, r, 1, 1);
    Ops(p, ModAdd(p, r, 1), r + 1, ModSub(p, 1, ModAdd(p, d, d)), 1 - 2 * d);
  }

  lemma NumbersST(p: nat, d: nat, r: nat, N: nat, c: nat, sign: int, e: nat)
    requires p > 0 && Cong(p, N, PolyN(d, r)) && Cong(p, c, sign)
    ensures Cong(p, ElligatorS(p, N, c, e), PolyS(d, r, sign, e))
    ensures Cong(p, ElligatorT(p, d, r, N, c, e), PolyT(d, r, sign, e))
  {
    var (n, h) := (PolyN(d, r), 1 - 2 * d);
    var (cn, he) := (ModMul(p, c, N), ModMul(p, ModSub(p, 1, ModAdd(p, d, d)), e));
    Refl(p, 1);
    Refl(p, e);
    Refl(p, r);
    OneMinusTwoD(p, d);
    Ops(p, c, sign, N, n);
    Ops(p, cn, sign * n, e, e);
    Ops(p, r, r, 1, 1);
    Ops(p, cn, sign * n, ModSub(p, r, 1), r - 1);
    Ops(p, ModSub(p, 1, ModAdd(p, d, d)), h, e, e);
    Ops(p, he, h * e, he, h * e);
    var m := ModMul(p, ModMul(p, cn, ModSub(p, r, 1)), Square(p, he));
    Ops(p, ModMul(p, cn, ModSub(p, r, 1)), sign * n * (r - 1), Square(p, he), (h * e) * (h * e));
    Ops(p, m, sign * n * (r - 1) * ((h * e) * (h * e)), 1, 1);
    NegOp(p, ModAdd(p, m, 1), sign * n * (r - 1) * ((h * e) * (h * e)) + 1);
  }

  /** Every branch establishes its relation between e, ND and r. */
  lemma RootBranch(p: nat, n: nat, r0: nat, r: nat, ND: nat) returns (sign: int)
    requires OddPrime(p) && p % 4 == 3 && !IsSquare(p, n) && ND < p && Cong(p, r, n * (r0 * r0))
    ensures var (c, e) := ElligatorRoot(p, n, r0, ND); Cong(p, c, sign) && Branch(p, r, ND, sign, e)
    ensures ND != 0 ==> (sign == 1 <==> IsSquare(p, ND))
    ensures ND != 0 ==> Principal(p, n, r0, ND, ElligatorRoot(p, n, r0, ND).1)
  {
    Refl(p, 1);
    Refl(p, 0);
    RootOfSpec(p, ND);
    var root := RootOf(p, ND);
    if ND == 0 {
      sign := 1;
    } else if root != 0 {
      SmallNonzero(p, ND);
      var i := InvertRoot(p, root, ND);
      Commute(ND, i * i);
      sign := 1;
      PrincipalFirst(p, n, r0, root, ND, i);
    } else {
      SmallNonzero(p, ND);
      MinusOneRep(p);
      OtherRoot(p, n, r0, r, ND, ModMul(p, ModMul(p, n, r0), Misqrt(p, ModMul(p, n, ND)).v));
      sign := -1;
    }
  }

  /** m inverts a root of a, and is the one of the two that is a square. */
  ghost predicate Inverts(p: nat, a: int, m: int) {
    IsSquare(p, m) && Cong(p, a * (m * m), 1)
  }

  /** Which of its two values e has: 1 / sqrt(ND), or n r0 / sqrt(n ND), with the root that is a square. */
  ghost predicate Principal(p: nat, n: int, r0: int, nd: int, e: int) {
    if IsSquare(p, nd) then Inverts(p, nd, e) else exists m :: Inverts(p, n * nd, m) && Cong(p, e, n * r0 * m)
  }

  lemma PrincipalFirst(p: nat, n: nat, r0: nat, root: nat, nd: nat, i: nat)
    requires OddPrime(p) && p % 4 == 3 && !Zero(p, nd) && root == RootOf(p, nd) && root != 0 && i == ModInv(p, root)
    requires Cong(p, nd * (i * i), 1) && IsSquare(p, nd)
    ensures Principal(p, n, r0, nd, i)
  {
    RootOfSpec(p, nd);
    PrincipalRoot(p, nd);
    SmallNonzero(p, root);
    Inverse(p, root);
    InverseIsSquare(p, root, i);
  }

  lemma InverseIsSquare(p: nat, a: int, i: int)
    requires IsSquare(p, a) && Cong(p, a * i, 1)
    ensures IsSquare(p, i)
  {
    var x :| IsRoot(p, x, a);
    Refl(p, i);
    Refl(p, i * i);
    MulCong(p, x * x, a, i * i, i * i);
    MulCong(p, a * i, 1, i, i);
    InverseTerms(x, a, i);
    Trans(p, (x * i) * (x * i), a * i * i, i);
    assert IsRoot(p, x * i, i);
  }

  lemma InverseTerms(x: int, a: int, i: int)
    ensures (x * x) * (i * i) == (x * i) * (x * i) && a * (i * i) == a * i * i
  {
  }

  lemma OtherRoot(p: nat, n: nat, r0: nat, r: nat, ND: nat, e: nat)
    requires OddPrime(p) && p % 4 == 3 && !IsSquare(p, n) && !IsSquare(p, ND) && !Zero(p, ND) && Cong(p, r, n * (r0 * r0))
    requires e == ModMul(p, ModMul(p, n, r0), Misqrt(p, ModMul(p, n, ND)).v)
    ensures Cong(p, (e * e) * ND, r) && Principal(p, n, r0, ND, e)
  {
    if Zero(p, n) {
      ZeroSquare(p, n);
    }
    NonSquareProduct(p, n, ND);
    var (q, m) := (ModMul(p, n, ND), Misqrt(p, ModMul(p, n, ND)).v);
    ModCong(p, n * ND);
    SquareCong(p, q, n * ND);
    NonzeroCong(p, q, n * ND);
    MisqrtOfSquare(p, q);
    ReplaceFactor(p, q, n * ND, m * m, 1);
    Refl(p, n);
    Refl(p, r0);
    Refl(p, m);
    Ops(p, n, n, r0, r0);
    Ops(p, ModMul(p, n, r0), n * r0, m, m);
    OtherRootArith(p, n, r0, r, ND, m, e);
    PrincipalRoot(p, q);
    assert Inverts(p, n * ND, m);
  }

  lemma OtherRootArith(p: int, n: int, r0: int, r: int, nd: int, m: int, e: int)
    requires Cong(p, r, n * (r0 * r0)) && Cong(p, (n * nd) * (m * m), 1) && Cong(p, e, n * r0 * m)
    ensures Cong(p, (e * e) * nd, r)
  {
    MulCong(p, e, n * r0 * m, e, n * r0 * m);
    Refl(p, nd);
    MulCong(p, e * e, (n * r0 * m) * (n * r0 * m), nd, nd);
    Refl(p, n * (r0 * r0));
    MulCong(p, n * (r0 * r0), n * (r0 * r0), (n * nd) * (m * m), 1);
    OtherTerms(n, r0, m, nd);
    Sym(p, r, n * (r0 * r0));
    Trans(p, (e * e) * nd, (n * (r0 * r0)) * ((n * nd) * (m * m)), n * (r0 * r0));
    Trans(p, (e * e) * nd, n * (r0 * r0), r);
  }

  lemma OtherTerms(n: int, r0: int, m: int, nd: int)
    ensures ((n * r0 * m) * (n * r0 * m)) * nd == (n * (r0 * r0)) * ((n * nd) * (m * m))
  {
    SquareThree(n, r0, m);
    OtherTerms'(n, r0 * r0, m * m, nd);
  }

  lemma OtherTerms'(n: int, rr: int, mm: int, nd: int)
    ensures ((n * n) * rr * mm) * nd == (n * rr) * ((n * nd) * mm)
  {
  }

  lemma UCong(p: int, d: int, s: int, s': int)
    requires Cong(p, s, s')
    ensures Cong(p, U(d, s), U(d, s'))
  {
    MulCong(p, s, s', s, s');
    var (a, b) := (s * s, s' * s');
    UDifference(d, a, b);
    Combine(p, U(d, s), U(d, s'), 2 + a + b - 4 * d, a, b);
  }

  lemma UDifference(d: int, a: int, b: int)
    ensures ((1 + a) * (1 + a) - 4 * d * a) - ((1 + b) * (1 + b) - 4 * d * b) == (2 + a + b - 4 * d) * (a - b)
  {
  }

  lemma TransferPair(p: int, d: int, s: int, S: int, t: int, T: int)
    requires Cong(p, s, S) && Cong(p, t, T) && Cong(p, T * T, U(d, S))
    ensures Cong(p, t * t, U(d, s))
  {
    MulCong(p, t, T, t, T);
    UCong(p, d, s, S);
    Sym(p, U(d, s), U(d, S));
    Trans(p, t * t, T * T, U(d, S));
    Trans(p, t * t, U(d, S), U(d, s));
  }

  lemma BranchPair(p: nat, d: int, r: int, nd: nat, sign: int, e: int)
    requires IsPrime(p) && nd < p && Branch(p, r, nd, sign, e) && Cong(p, nd, PolyN(d, r) * PolyD(d, r))
    ensures var t := PolyT(d, r, sign, e); Cong(p, t * t, U(d, PolyS(d, r, sign, e)))
  {
    if nd == 0 {
      Refl(p, 0);
      PairAtZero(p, d, r, e);
    } else {
      var (q, m) := (if sign == 1 then 1 else r, PolyN(d, r) * PolyD(d, r));
      SmallNonzero(p, nd);
      NonzeroCong(p, nd, m);
      NoZeroDivisors(p, PolyN(d, r), PolyD(d, r));
      Commute(e * e, nd);
      Commute(e * e, m);
      ReplaceFactor(p, nd, m, e * e, q);
      PairOnBranch(p, d, r, sign, e, q);
    }
  }

  /** The values of elligator2Point on the way to its point, and the polynomials they stand for. */
  lemma ElligatorUnfold(c: Curve, n: nat, r0: nat) returns (nd: nat, sign: int, e: nat, s: nat, t: nat)
    requires OddPrime(c.p) && c.p % 4 == 3 && !IsSquare(c.p, n)
    ensures Elligator2Point(c, n, r0) == ElligatorPoint(c.p, s, t)
    ensures var r := ModMul(c.p, n, ModMul(c.p, r0, r0));
            nd < c.p && Cong(c.p, nd, PolyN(c.d, r) * PolyD(c.d, r)) &&
            Branch(c.p, r, nd, sign, e) && (nd != 0 ==> (sign == 1 <==> IsSquare(c.p, nd)) && Principal(c.p, n, r0, nd, e)) &&
            Cong(c.p, s, PolyS(c.d, r, sign, e)) && Cong(c.p, t, PolyT(c.d, r, sign, e))
  {
    var p, d := c.p, c.d;
    var r := ModMul(p, n, ModMul(p, r0, r0));
    var (D, N) := (ElligatorD(p, d, r), ElligatorN(p, d, r));
    nd := ModMul(p, N, D);
    Refl(p, n);
    Refl(p, r0);
    Ops(p, r0, r0, r0, r0);
    Ops(p, n, n, ModMul(p, r0, r0), r0 * r0);
    NumberD(p, d, r);
    NumberN(p, d, r);
    Ops(p, N, PolyN(d, r), D, PolyD(d, r));
    sign := RootBranch(p, n, r0, r, nd);
    var (k, root) := ElligatorRoot(p, n, r0, nd);
    e := root;
    NumbersST(p, d, r, N, k, sign, e);
    s, t := ElligatorS(p, N, k, e), ElligatorT(p, d, r, N, k, e);
  }

  /** elligator2Point returns an even point, for every r0 and every non-residue n. */
  lemma ElligatorLands(c: Curve, n: nat, r0: nat)
    requires Params(c) && !IsSquare(c.p, n)
    ensures Point(c, Elligator2Point(c, n, r0)) && Even(c, Elligator2Point(c, n, r0))
  {
    var r := ModMul(c.p, n, ModMul(c.p, r0, r0));
    var nd, sign, e, s, t := ElligatorUnfold(c, n, r0);
    BranchPair(c.p, c.d, r, nd, sign, e);
    TransferPair(c.p, c.d, s, PolyS(c.d, r, sign, e), t, PolyT(c.d, r, sign, e));
    PairIsEvenPoint(c, s, t);
  }

  /** What determines s and t: D s^2 = q N and D (t + 1) = -sign (r-1) (1-2d)^2 q, with q = 1 or r by the branch. */
  ghost predicate Mapped(p: nat, d: int, r: int, sign: int, s: int, t: int) {
    var (D, N, h, q) := (PolyD(d, r), PolyN(d, r), 1 - 2 * d, if sign == 1 then 1 else r);
    Cong(p, D * (s * s), N * q) && Cong(p, D * t, -(D + sign * (r - 1) * (h * h) * q))
  }

  lemma BranchMapped(p: nat, d: int, r: int, nd: nat, sign: int, e: int)
    requires Branch(p, r, nd, sign, e) && nd != 0 && Cong(p, nd, PolyN(d, r) * PolyD(d, r))
    ensures Mapped(p, d, r, sign, PolyS(d, r, sign, e), PolyT(d, r, sign, e))
  {
    var (D, n, h, q) := (PolyD(d, r), PolyN(d, r), 1 - 2 * d, if sign == 1 then 1 else r);
    Commute(e * e, nd);
    Commute(e * e, n * D);
    ReplaceFactor(p, nd, n * D, e * e, q);
    PolySquares(sign, n, e, r, h);
    ScaledT(p, D, n, sign * (r - 1), h * h, e * e, q, PolyT(d, r, sign, e));
    ScaledS(p, D, n, e * e, q, PolyS(d, r, sign, e) * PolyS(d, r, sign, e));
  }

  lemma TransferMapped(p: nat, d: int, r: int, sign: int, s: int, S: int, t: int, T: int)
    requires Cong(p, s, S) && Cong(p, t, T) && Mapped(p, d, r, sign, S, T)
    ensures Mapped(p, d, r, sign, s, t)
  {
    var (D, N, h, q) := (PolyD(d, r), PolyN(d, r), 1 - 2 * d, if sign == 1 then 1 else r);
    Refl(p, D);
    MulCong(p, s, S, s, S);
    MulCong(p, D, D, s * s, S * S);
    MulCong(p, D, D, t, T);
    Trans(p, D * (s * s), D * (S * S), N * q);
    Trans(p, D * t, D * T, -(D + sign * (r - 1) * (h * h) * q));
  }

  /** s and t for each of the three branches; nd is N D. */
  ghost predicate Image(p: nat, d: int, r: int, nd: int, s: int, t: int) {
    if Zero(p, nd) then Zero(p, s) && Cong(p, t, -1) else Mapped(p, d, r, if IsSquare(p, nd) then 1 else -1, s, t)
  }

  lemma BranchImage(p: nat, d: int, r: int, nd: nat, sign: int, e: int, s: int, t: int)
    requires IsPrime(p) && nd < p && Cong(p, nd, PolyN(d, r) * PolyD(d, r)) && Branch(p, r, nd, sign, e)
    requires nd != 0 ==> (sign == 1 <==> IsSquare(p, nd))
    requires Cong(p, s, PolyS(d, r, sign, e)) && Cong(p, t, PolyT(d, r, sign, e))
    ensures Image(p, d, r, nd, s, t)
  {
    if nd == 0 {
      Refl(p, 0);
      AtZero(d, r);
    } else {
      SmallNonzero(p, nd);
      BranchMapped(p, d, r, nd, sign, e);
      TransferMapped(p, d, r, sign, s, PolyS(d, r, sign, e), t, PolyT(d, r, sign, e));
    }
  }

  lemma AtZero(d: int, r: int)
    ensures PolyS(d, r, 1, 0) == 0 && PolyT(d, r, 1, 0) == -1
  {
  }

  /** The sign of s, which its square leaves open. */
  ghost predicate Signed(p: nat, d: int, n: int, r0: int, r: int, nd: int, s: int) {
    if IsSquare(p, nd) then exists m :: Inverts(p, nd, m) && Cong(p, s, PolyN(d, r) * m)
    else exists m :: Inverts(p, n * nd, m) && Cong(p, s, -PolyN(d, r) * (n * r0 * m))
  }

  lemma PrincipalSigned(p: nat, d: int, n: int, r0: int, h: int, r: int, nd: int, sign: int, e: int, s: int)
    requires Principal(p, n, r0, nd, e) && sign == (if IsSquare(p, nd) then 1 else -1)
    requires Cong(p, s, PolyS(d, r, sign, e)) && Cong(p, r0, h)
    ensures Signed(p, d, n, h, r, nd, s)
  {
    var N := PolyN(d, r);
    if IsSquare(p, nd) {
      assert PolyS(d, r, 1, e) == N * e;
    } else {
      var m :| Inverts(p, n * nd, m) && Cong(p, e, n * r0 * m);
      Refl(p, n);
      Refl(p, m);
      Refl(p, -N);
      MulCong(p, n, n, r0, h);
      MulCong(p, n * r0, n * h, m, m);
      Trans(p, e, n * r0 * m, n * h * m);
      MulCong(p, -N, -N, e, n * h * m);
      assert PolyS(d, r, -1, e) == -N * e;
      Trans(p, s, -N * e, -N * (n * h * m));
    }
  }

  /** The branch is chosen by whether N D is a square, and s and t are those of that branch, up to congruence. */
  lemma ElligatorMaps(c: Curve, n: nat, r0: nat) returns (nd: nat, s: nat, t: nat)
    requires Params(c) && !IsSquare(c.p, n)
    ensures Elligator2Point(c, n, r0) == ElligatorPoint(c.p, s, t)
    ensures var r := ModMul(c.p, n, ModMul(c.p, r0, r0));
            nd < c.p && Cong(c.p, nd, PolyN(c.d, r) * PolyD(c.d, r)) && Image(c.p, c.d, r, nd, s, t) &&
            forall h :: nd != 0 && Cong(c.p, r0, h) ==> Signed(c.p, c.d, n, h, r, nd, s)
  {
    var sign, e;
    nd, sign, e, s, t := ElligatorUnfold(c, n, r0);
    var r := ModMul(c.p, n, ModMul(c.p, r0, r0));
    BranchImage(c.p, c.d, r, nd, sign, e, s, t);
    forall h | nd != 0 && Cong(c.p, r0, h) ensures Signed(c.p, c.d, n, h, r, nd, s) {
      PrincipalSigned(c.p, c.d, n, r0, h, r, nd, sign, e, s);
    }
  }

  lemma FirstNonSquare(p: nat)
    requires OddPrime(p) && p % 4 == 3
    ensures NonResidueFrom(p, 2) && !IsSquare(p, FirstNonResidue(p, 2))
  {
    SearchEnds(p);
    var n := FirstNonResidue(p, 2);
    LegendreValue(p, n);
    SmallNonzero(p, n);
    Euler(p, n);
  }

  /** Hash-to-curve always lands: for every hash the result is an even point of the curve. */
  lemma HashLands(c: Curve, h: int)
    requires Params(c)
    ensures Point(c, HashToPoint(c, h)) && Even(c, HashToPoint(c, h))
  {
    FirstNonSquare(c.p);
    ElligatorLands(c, FirstNonResidue(c.p, 2), Mod(c.p, h));
  }

  /** The least number from 2 on that is not a square. */
  ghost predicate LeastNonSquare(p: nat, n: nat) {
    2 <= n < p && !IsSquare(p, n) && forall k :: 2 <= k < n ==> IsSquare(p, k)
  }

  lemma SearchFinds(p: nat)
    requires OddPrime(p) && p % 4 == 3
    ensures NonResidueFrom(p, 2) && LeastNonSquare(p, FirstNonResidue(p, 2))
  {
    FirstNonSquare(p);
    var n := FirstNonResidue(p, 2);
    FirstIsLeast(p, 2);
    forall k | 2 <= k < n ensures IsSquare(p, k) {
      LegendreValue(p, k);
      SmallNonzero(p, k);
      Euler(p, k);
    }
  }

  lemma {:induction false} FirstIsLeast(p: nat, n: nat)
    requires p > 0 && NonResidueFrom(p, n)
    ensures forall k :: n <= k < FirstNonResidue(p, n) ==> Legendre(p, k) != Neg(p, 1)
    decreases p - n
  {
    if Legendre(p, n) != Neg(p, 1) {
      FirstIsLeast(p, n + 1);
    }
  }

  /** What P has to do with the hash h: r = n h^2, and P is the point of the pair (s, t) that r and the sign of h lead to. */
  ghost predicate Hashed(c: Curve, h: int, P: ExtPoint, n: nat, r: nat, nd: nat, s: int, t: int) {
    LeastNonSquare(c.p, n) && r < c.p && Cong(c.p, r, n * (h * h)) &&
    nd < c.p && Cong(c.p, nd, PolyN(c.d, r) * PolyD(c.d, r)) &&
    Image(c.p, c.d, r, nd, s, t) && (nd != 0 ==> Signed(c.p, c.d, n, h, r, nd, s)) &&
    PairPoint(c.p, P, s, t)
  }

  /** The point that elligator2Point builds from s and t. */
  ghost predicate PairPoint(p: int, P: ExtPoint, s: int, t: int) {
    Stands(p, P, (2 * s) * t, (1 - s * s) * (1 + s * s), (1 + s * s) * t, (2 * s) * (1 - s * s))
  }

  /** Hashing to the curve, in terms of the hash. */
  lemma HashMaps(c: Curve, h: int) returns (n: nat, r: nat, nd: nat, s: int, t: int)
    requires Params(c)
    ensures Hashed(c, h, HashToPoint(c, h), n, r, nd, s, t)
  {
    var p, r0 := c.p, Mod(c.p, h);
    SearchFinds(p);
    n := FirstNonResidue(p, 2);
    r := ModMul(p, n, ModMul(p, r0, r0));
    var u, v;
    nd, u, v := ElligatorMaps(c, n, r0);
    s, t := u, v;
    ModCong(p, h);
    Ops(p, r0, h, r0, h);
    Refl(p, n);
    Ops(p, n, n, ModMul(p, r0, r0), h * h);
    PointShape(p, u, v);
  }

  /** That determines the point: whatever has this relation to h is projectively equal. */
  lemma HashDetermined(c: Curve, h: int, P: ExtPoint, n: nat, r: nat, nd: nat, s: int, t: int,
                       P': ExtPoint, n': nat, r': nat, nd': nat, s': int, t': int)
    requires Params(c) && Hashed(c, h, P, n, r, nd, s, t) && Hashed(c, h, P', n', r', nd', s', t')
    ensures ProjEq(c, P, P')
  {
    var p := c.p;
    assert n == n';
    Sym(p, r', n * (h * h));
    Trans(p, r, n * (h * h), r');
    CongUnique(p, r, r');
    Sym(p, nd', PolyN(c.d, r) * PolyD(c.d, r));
    Trans(p, nd, PolyN(c.d, r) * PolyD(c.d, r), nd');
    CongUnique(p, nd, nd');
    SameS(p, c.d, n, h, r, nd, s, t, s', t');
    SameT(p, c.d, r, nd, s, t, s', t');
    SamePair(c, P, s, t, P', s', t');
  }

  lemma SameT(p: nat, d: int, r: int, nd: nat, s: int, t: int, s': int, t': int)
    requires IsPrime(p) && nd < p && Cong(p, nd, PolyN(d, r) * PolyD(d, r)) && Image(p, d, r, nd, s, t) && Image(p, d, r, nd, s', t')
    ensures Cong(p, t, t')
  {
    if Zero(p, nd) {
      Sym(p, t', -1);
      Trans(p, t, -1, t');
    } else {
      var D := PolyD(d, r);
      NonzeroCong(p, nd, PolyN(d, r) * D);
      NoZeroDivisors(p, PolyN(d, r), D);
      SameProduct(p, D, t, t', Target(d, r, if IsSquare(p, nd) then 1 else -1));
    }
  }

  /** The value of D t. */
  ghost function Target(d: int, r: int, sign: int): int {
    -(PolyD(d, r) + sign * (r - 1) * ((1 - 2 * d) * (1 - 2 * d)) * (if sign == 1 then 1 else r))
  }

  lemma SameProduct(p: nat, D: int, t: int, t': int, v: int)
    requires IsPrime(p) && !Zero(p, D) && Cong(p, D * t, v) && Cong(p, D * t', v)
    ensures Cong(p, t, t')
  {
    Sym(p, D * t', v);
    Trans(p, D * t, v, D * t');
    Cancel(p, D, t, t');
  }

  lemma SameS(p: nat, d: int, n: int, h: int, r: int, nd: nat, s: int, t: int, s': int, t': int)
    requires OddPrime(p) && p % 4 == 3 && nd < p && Image(p, d, r, nd, s, t) && Image(p, d, r, nd, s', t')
    requires nd != 0 ==> Signed(p, d, n, h, r, nd, s) && Signed(p, d, n, h, r, nd, s')
    ensures Cong(p, s, s')
  {
    if nd == 0 {
      Refl(p, 0);
      Sym(p, s', 0);
      Trans(p, s, 0, s');
    } else {
      var N := PolyN(d, r);
      if IsSquare(p, nd) {
        var m :| Inverts(p, nd, m) && Cong(p, s, N * m);
        var m' :| Inverts(p, nd, m') && Cong(p, s', N * m');
        OneInverse(p, nd, m, m');
        SameScaled(p, N, m, m', s, s');
      } else {
        var m :| Inverts(p, n * nd, m) && Cong(p, s, -N * (n * h * m));
        var m' :| Inverts(p, n * nd, m') && Cong(p, s', -N * (n * h * m'));
        OneInverse(p, n * nd, m, m');
        ScaledTwice(N, n * h, m);
        ScaledTwice(N, n * h, m');
        SameScaled(p, -N * (n * h), m, m', s, s');
      }
    }
  }

  lemma ScaledTwice(N: int, k: int, m: int)
    ensures -N * (k * m) == (-N * k) * m
  {
  }

  lemma SameScaled(p: nat, k: int, m: int, m': int, s: int, s': int)
    requires Cong(p, m, m') && Cong(p, s, k * m) && Cong(p, s', k * m')
    ensures Cong(p, s, s')
  {
    Refl(p, k);
    MulCong(p, k, k, m, m');
    Trans(p, s, k * m, k * m');
    Sym(p, s', k * m');
    Trans(p, s, k * m', s');
  }

  lemma OneInverse(p: nat, a: int, m: int, m': int)
    requires OddPrime(p) && p % 4 == 3 && Inverts(p, a, m) && Inverts(p, a, m')
    ensures Cong(p, m, m')
  {
    if Zero(p, a) {
      Refl(p, m * m);
      MulCong(p, a, 0, m * m, m * m);
      Sym(p, a * (m * m), 1);
      Trans(p, 1, a * (m * m), 0);
      SmallNonzero(p, 1);
    }
    SameProduct(p, a, m * m, m' * m', 1);
    RootsAgree(p, m, m');
    if Zero(p, m') {
      MulCong(p, m', 0, m', 0);
      Refl(p, a);
      MulCong(p, a, a, m' * m', 0);
      Sym(p, a * (m' * m'), 1);
      Trans(p, 1, a * (m' * m'), 0);
      SmallNonzero(p, 1);
    }
    OppositeNotSquare(p, m, m');
  }

  lemma SamePair(c: Curve, P: ExtPoint, s: int, t: int, P': ExtPoint, s': int, t': int)
    requires c.p > 0 && Cong(c.p, s, s') && Cong(c.p, t, t') && PairPoint(c.p, P, s, t) && PairPoint(c.p, P', s', t')
    ensures ProjEq(c, P, P')
  {
    var p, m, m' := c.p, s * s, s' * s';
    Refl(p, 1);
    Refl(p, 2);
    MulCong(p, s, s', s, s');
    AddCong(p, 1, 1, m, m');
    MulCong(p, 2, 2, s, s');
    MulCong(p, 2 * s, 2 * s', t, t');
    MulCong(p, 1 - m, 1 - m', 1 + m, 1 + m');
    MulCong(p, 1 + m, 1 + m', t, t');
    SameQuotient(p, P.X, (2 * s) * t, (2 * s') * t', P'.X, P.Z, (1 + m) * t, (1 + m') * t', P'.Z);
    SameQuotient(p, P.Y, (1 - m) * (1 + m), (1 - m') * (1 + m'), P'.Y, P.Z, (1 + m) * t, (1 + m') * t', P'.Z);
  }

  lemma SameQuotient(p: int, x: int, X: int, X': int, x': int, z: int, Z: int, Z': int, z': int)
    requires Cong(p, x, X) && Cong(p, X, X') && Cong(p, x', X') && Cong(p, z, Z) && Cong(p, Z, Z') && Cong(p, z', Z')
    ensures Cong(p, x * z', x' * z)
  {
    Sym(p, x', X');
    Trans(p, x, X, X');
    Trans(p, x, X', x');
    Sym(p, Z, Z');
    Trans(p, z', Z', Z);
    Sym(p, z, Z);
    Trans(p, z', Z, z);
    MulCong(p, x, x', z', z);
  }

  /** spake2eeH2P: search for a non-residue, then map the hash. */
  method Spake2eeH2P(c: Curve, h: int) returns (P: ExtPoint)
    requires Params(c)
    ensures P == HashToPoint(c, h)
    ensures exists n, r, nd, s, t :: Hashed(c, h, P, n, r, nd, s, t)
    ensures Point(c, P) && Even(c, P)
  {
    SearchEnds(c.p);
    var n := FindNonResidue(c.p);
    P := Elligator2Point(c, n, Mod(c.p, h));
    HashLands(c, h);
    ghost var m, r, nd, s, t := HashMaps(c, h);
  }
}
