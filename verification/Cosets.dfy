/**
 Decaf encodings name cosets: on the even points, those whose encoder radicand is
 a square, decafDecode(decafEncode(P)) is P or the point (-X, -Y) opposite to it,
 and decafEncode does not tell the two apart.
 */
module Cosets {
  import opened ModArith
  import opened Residues
  import opened Edwards
  import opened GroupLaw
  import opened Points
  import opened Decaf
  import opened Decoder
  import opened RoundTrip

  /** (1-d)(Z^2 - Y^2), which decafEncode takes the inverse square root of, is a square. */
  ghost predicate Even(c: Curve, P: ExtPoint) {
    IsSquare(c.p, (1 - c.d) * (P.Z * P.Z - P.Y * P.Y))
  }

  /** The sum of P and the point (0, -1) of order two. */
  function Flip(c: Curve, P: ExtPoint): ExtPoint
    requires c.p > 0
  {
    ExtPoint(Neg(c.p, P.X), Neg(c.p, P.Y), P.Z, P.T)
  }

  /** P is Q or its opposite. */
  ghost predicate CosetEq(c: Curve, P: ExtPoint, Q: ExtPoint)
    requires c.p > 0
  {
    ProjEq(c, P, Q) || ProjEq(c, P, Flip(c, Q))
  }

  // ----- The curve equation, solved for X^2

  lemma CurveSquares(p: int, d: int, X: int, Y: int, Z: int, T: int)
    requires OnCurve(p, d, X, Y, Z, T)
    ensures Cong(p, (X * X) * (Z * Z - d * (Y * Y)), (Z * Z) * (Z * Z - Y * Y))
  {
    CurveSquareTerms(d, X, Y, Z, T);
    Combine2(p, (X * X) * (Z * Z - d * (Y * Y)), (Z * Z) * (Z * Z - Y * Y),
      Z * Z, X * X + Y * Y, Z * Z + d * T * T, -(d * (X * Y + Z * T)), X * Y, Z * T);
  }

  lemma CurveSquareTerms(d: int, X: int, Y: int, Z: int, T: int)
    ensures (X * X) * (Z * Z - d * (Y * Y)) - (Z * Z) * (Z * Z - Y * Y)
         == (Z * Z) * ((X * X + Y * Y) - (Z * Z + d * T * T)) + (-(d * (X * Y + Z * T))) * (X * Y - Z * T)
  {
    var (x, y, z) := (X * X, Y * Y, Z * Z);
    DifferenceOfProducts(d, X * Y, Z * T);
    ProductSquare(X, Y);
    ProductSquare(Z, T);
    CurveSquareTerms'(d, x, y, z, T * T, d * T * T);
  }

  lemma DifferenceOfProducts(d: int, m: int, n: int)
    ensures (-(d * (m + n))) * (m - n) == -(d * (m * m)) + d * (n * n)
  {
  }

  lemma CurveSquareTerms'(d: int, x: int, y: int, z: int, t: int, dt: int)
    requires dt == d * t
    ensures x * (z - d * y) - z * (z - y) == z * ((x + y) - (z + dt)) - d * (x * y) + d * (z * t)
  {
    assert z * dt == d * (z * t);
  }

  lemma DenominatorNonzero(p: nat, d: int, Y: int, Z: int)
    requires IsPrime(p) && !IsSquare(p, d) && !Zero(p, Z)
    ensures !Zero(p, Z * Z - d * (Y * Y))
  {
    NoZeroDivisors(p, Z, Z);
    NoZeroDivisors(p, Y, Y);
    NoZeroDivisors(p, d, Y * Y);
    if Zero(p, Z * Z - d * (Y * Y)) {
      DifferenceZero(p, Z * Z, d * (Y * Y));
      Assoc(d, Y, Y);
      if Zero(p, Y) {
        Trans(p, Z * Z, d * (Y * Y), 0);
      } else {
        SquareQuotient(p, d, Y, Z);
      }
    }
  }

  lemma XZeroIff(p: nat, d: int, X: int, Y: int, Z: int, T: int)
    requires IsPrime(p) && !IsSquare(p, d) && OnCurve(p, d, X, Y, Z, T) && !Zero(p, Z)
    ensures Zero(p, X) <==> Zero(p, Z * Z - Y * Y)
  {
    CurveSquares(p, d, X, Y, Z, T);
    DenominatorNonzero(p, d, Y, Z);
    NonzeroCong(p, (X * X) * (Z * Z - d * (Y * Y)), (Z * Z) * (Z * Z - Y * Y));
    NoZeroDivisors(p, X, X);
    NoZeroDivisors(p, Z, Z);
    NoZeroDivisors(p, X * X, Z * Z - d * (Y * Y));
    NoZeroDivisors(p, Z * Z, Z * Z - Y * Y);
  }

  // ----- Even points have a slope and a number

  lemma SlopeExists(p: nat, d: int, Y: int, Z: int) returns (a: int)
    requires OddPrime(p) && !Zero(p, 1 - d) && !Zero(p, Z) && !Zero(p, Z * Z - Y * Y)
    requires IsSquare(p, (1 - d) * (Z * Z - Y * Y))
    ensures Slope(p, d, Y, Z, a)
  {
    var (k, w) := (1 - d, Z * Z - Y * Y);
    var g :| IsRoot(p, g, k * w);
    NoZeroDivisors(p, k, w);
    var i := InvertRoot(p, g, k * w);
    SlopeArith(p, k, i, Z, w);
    a := k * i * Z;
    SlopeNonzero(p, a, w, k, Z);
    SmallNonzero(p, -2);
    NoZeroDivisors(p, -2, a);
    SignDichotomy(p, -2 * a);
    if !NonNegative(p, -2 * a) {
      a := -a;
      NegatedSquare(a);
    }
  }

  lemma NumberExists(p: nat, X: int, Y: int, Z: int, a: int) returns (s: int)
    requires IsPrime(p) && !Zero(p, X) && !Zero(p, Z)
    ensures Number(p, X, Y, Z, a, s)
  {
    NoZeroDivisors(p, X, Z);
    Inverse(p, X * Z);
    var (i, m) := (ModInv(p, X * Z), Z * Z + a * (X * Y));
    s := i * m;
    Refl(p, m);
    MulCong(p, (X * Z) * i, 1, m, m);
    Assoc(X * Z, i, m);
  }

  // ----- What the number of a point satisfies

  /** X^2 Z^2 + (a X Y)^2 = Z^4. */
  lemma SlopeCircle(p: nat, d: int, X: int, Y: int, Z: int, T: int, a: int)
    requires IsPrime(p) && OnCurve(p, d, X, Y, Z, T) && !Zero(p, Z * Z - Y * Y)
    requires Cong(p, (a * a) * (Z * Z - Y * Y), (1 - d) * (Z * Z))
    ensures Cong(p, (X * X) * (Z * Z) + (a * (X * Y)) * (a * (X * Y)), (Z * Z) * (Z * Z))
  {
    var (x, y, z, q) := (X * X, Y * Y, Z * Z, Z * Z - Y * Y);
    CurveSquares(p, d, X, Y, Z, T);
    ProductSquare(a, X * Y);
    ProductSquare(X, Y);
    CircleTerms(d, x, y, z, q, a * a);
    Combine2(p, q * (x * z + (a * a) * (x * y)), q * (z * z), x * y, (a * a) * q, (1 - d) * z, z, x * (z - d * y), z * q);
    Cancel(p, q, x * z + (a * a) * (x * y), z * z);
  }

  lemma CircleTerms(d: int, x: int, y: int, z: int, q: int, aa: int)
    requires q == z - y
    ensures q * (x * z + aa * (x * y)) - q * (z * z) == (x * y) * (aa * q - (1 - d) * z) + z * (x * (z - d * y) - z * q)
  {
    CircleTerms'(d, x, y, z);
    CircleGroup(q, x * z, x * y, aa, (1 - d) * z, x * (z - d * y), z);
  }

  lemma CircleGroup(q: int, xz: int, xy: int, aa: int, kz: int, e: int, z: int)
    requires q * xz == -(xy * kz) + z * e
    ensures q * (xz + aa * xy) - q * (z * z) == xy * (aa * q - kz) + z * (e - z * q)
  {
    assert xy * (aa * q - kz) == q * (aa * xy) - xy * kz;
    assert z * (e - z * q) == z * e - q * (z * z);
  }

  lemma CircleTerms'(d: int, x: int, y: int, z: int)
    ensures (z - y) * (x * z) == -((x * y) * ((1 - d) * z)) + z * (x * (z - d * y))
  {
  }

  /** a^2 X^2 = Z^2 - d X^2. */
  lemma SlopeSquareX(p: nat, d: int, X: int, Y: int, Z: int, T: int, a: int)
    requires IsPrime(p) && OnCurve(p, d, X, Y, Z, T) && !Zero(p, Z * Z - Y * Y)
    requires Cong(p, (a * a) * (Z * Z - Y * Y), (1 - d) * (Z * Z))
    ensures Cong(p, (a * a) * (X * X), Z * Z - d * (X * X))
  {
    var (x, y, z, q) := (X * X, Y * Y, Z * Z, Z * Z - Y * Y);
    CurveSquares(p, d, X, Y, Z, T);
    SquareXTerms(d, x, y, z, q, a * a);
    Combine2(p, q * ((a * a) * x), q * (z - d * x), x, (a * a) * q, (1 - d) * z, 1, x * (z - d * y), z * q);
    Cancel(p, q, (a * a) * x, z - d * x);
  }

  lemma SquareXTerms(d: int, x: int, y: int, z: int, q: int, aa: int)
    requires q == z - y
    ensures q * (aa * x) - q * (z - d * x) == x * (aa * q - (1 - d) * z) + 1 * (x * (z - d * y) - z * q)
  {
    assert q * (aa * x) == x * (aa * q);
  }

  /** X (1 + s^2) = 2 s Z and (1 - s^2) Z = -2 a s Y. */
  lemma NumberHalves(p: nat, X: int, Y: int, Z: int, a: int, s: int)
    requires IsPrime(p) && !Zero(p, X) && !Zero(p, Z) && Number(p, X, Y, Z, a, s)
    requires Cong(p, (X * X) * (Z * Z) + (a * (X * Y)) * (a * (X * Y)), (Z * Z) * (Z * Z))
    ensures Cong(p, X * (1 + s * s), 2 * s * Z)
    ensures Cong(p, (1 - s * s) * Z, -2 * a * (s * Y))
  {
    var (n, m, z) := ((X * Z) * s, a * (X * Y), Z * Z);
    NoZeroDivisors(p, X, Z);
    NoZeroDivisors(p, X * Z, Z);
    NoZeroDivisors(p, X * Z, X);
    HalfX(X, Z, s);
    HalfTerms(X * X * z, n, m, z);
    Combine2(p, (X * Z * Z) * (X * (1 + s * s)), (X * Z * Z) * (2 * s * Z), 1, X * X * z + m * m, z * z, n - z + m, n, z + m);
    Cancel(p, X * Z * Z, X * (1 + s * s), 2 * s * Z);
    HalfY(X, Y, Z, a, s);
    Combine2(p, (X * Z * X) * ((1 - s * s) * Z), (X * Z * X) * (-2 * a * (s * Y)), 1, X * X * z + m * m, z * z, -(n - m + z), n, z + m);
    Cancel(p, X * Z * X, (1 - s * s) * Z, -2 * a * (s * Y));
  }

  lemma HalfX(X: int, Z: int, s: int)
    ensures (X * Z * Z) * (X * (1 + s * s)) == X * X * (Z * Z) + ((X * Z) * s) * ((X * Z) * s)
    ensures (X * Z * Z) * (2 * s * Z) == 2 * (((X * Z) * s) * (Z * Z))
  {
    ProductSquare(X * Z, s);
    ProductSquare(X, Z);
    HalfX'(X, Z, s * s, X * X, Z * Z);
    assert (X * Z * Z) * (2 * s * Z) == 2 * (((X * Z) * s) * (Z * Z));
  }

  lemma HalfX'(X: int, Z: int, ss: int, x: int, z: int)
    requires x == X * X && z == Z * Z
    ensures (X * Z * Z) * (X * (1 + ss)) == x * z + (x * z) * ss
  {
    assert X * Z * Z == X * z;
    assert (X * z) * (X * (1 + ss)) == (x * z) * (1 + ss);
  }

  lemma HalfTerms(xz: int, n: int, m: int, z: int)
    ensures xz + n * n - 2 * (n * z) == 1 * (xz + m * m - z * z) + (n - z + m) * (n - (z + m))
    ensures xz - n * n - (-2 * (n * m)) == 1 * (xz + m * m - z * z) + (-(n - m + z)) * (n - (z + m))
  {
  }

  lemma HalfY(X: int, Y: int, Z: int, a: int, s: int)
    ensures (X * Z * X) * ((1 - s * s) * Z) == X * X * (Z * Z) - ((X * Z) * s) * ((X * Z) * s)
    ensures (X * Z * X) * (-2 * a * (s * Y)) == -2 * (((X * Z) * s) * (a * (X * Y)))
  {
    ProductSquare(X * Z, s);
    ProductSquare(X, Z);
    HalfY'(X, Z, s * s, X * X, Z * Z);
    HalfY''(X * Z, X, a, s, Y);
  }

  lemma HalfY'(X: int, Z: int, ss: int, x: int, z: int)
    requires x == X * X && z == Z * Z
    ensures (X * Z * X) * ((1 - ss) * Z) == x * z - (x * z) * ss
  {
    assert X * Z * X == x * Z;
    assert (x * Z) * ((1 - ss) * Z) == (x * z) * (1 - ss);
  }

  lemma HalfY''(m: int, X: int, a: int, s: int, Y: int)
    ensures (m * X) * (-2 * a * (s * Y)) == -2 * ((m * s) * (a * (X * Y)))
  {
  }

  /** u = (2 a s)^2. */
  lemma NumberU(p: nat, d: int, X: int, Z: int, a: int, s: int)
    requires IsPrime(p) && !Zero(p, X)
    requires Cong(p, X * (1 + s * s), 2 * s * Z) && Cong(p, (a * a) * (X * X), Z * Z - d * (X * X))
    ensures Cong(p, U(d, s), ((-2 * a) * (-2 * a)) * (s * s))
  {
    var (x, z, ss) := (X * X, Z * Z, s * s);
    MulCong(p, X * (1 + ss), 2 * s * Z, X * (1 + ss), 2 * s * Z);
    ProductSquare(X, 1 + ss);
    FourProduct(s, Z);
    FourA(a);
    NumberUTerms(d, x, z, ss, a * a, (1 + ss) * (1 + ss));
    Combine2(p, x * U(d, s), x * ((4 * (a * a)) * ss), 1, x * ((1 + ss) * (1 + ss)), 4 * ss * z, -4 * ss, (a * a) * x, z - d * x);
    NoZeroDivisors(p, X, X);
    Cancel(p, x, U(d, s), (4 * (a * a)) * ss);
  }

  lemma FourProduct(s: int, z: int)
    ensures (2 * s * z) * (2 * s * z) == 4 * (s * s) * (z * z)
  {
  }

  lemma NumberUTerms(d: int, x: int, z: int, ss: int, aa: int, m: int)
    ensures x * (m - 4 * d * ss) - x * ((4 * aa) * ss) == 1 * (x * m - 4 * ss * z) + (-4 * ss) * (aa * x - (z - d * x))
  {
    assert x * (m - 4 * d * ss) == x * m - 4 * ss * (d * x);
    assert x * ((4 * aa) * ss) == 4 * ss * (aa * x);
  }

  // ----- Decoding an encoding

  /** Coordinates (X, Y, Z) are those of the point that e decodes to. */
  ghost predicate Meets(p: nat, d: int, X: int, Y: int, Z: int, a: int, e: int)
    requires p > 0
  {
    Cong(p, X * (1 + e * e), 2 * e * Z) && Cong(p, (1 - e * e) * Z, -2 * a * (e * Y)) &&
    Cong(p, U(d, e), ((-2 * a) * (-2 * a)) * (e * e)) && NonNegative(p, -2 * a)
  }

  lemma NumberMeets(p: nat, d: int, X: int, Y: int, Z: int, T: int, a: int, s: int)
    requires IsPrime(p) && OnCurve(p, d, X, Y, Z, T) && !Zero(p, X) && !Zero(p, Z) && !Zero(p, Z * Z - Y * Y)
    requires Slope(p, d, Y, Z, a) && Number(p, X, Y, Z, a, s)
    ensures Meets(p, d, X, Y, Z, a, s) && !Zero(p, s)
  {
    SlopeCircle(p, d, X, Y, Z, T, a);
    SlopeSquareX(p, d, X, Y, Z, T, a);
    NumberHalves(p, X, Y, Z, a, s);
    NumberU(p, d, X, Z, a, s);
    NumberNonzero(p, X, Z, s);
  }

  lemma NumberNonzero(p: nat, X: int, Z: int, s: int)
    requires IsPrime(p) && !Zero(p, X) && Cong(p, X * (1 + s * s), 2 * s * Z)
    ensures !Zero(p, s)
  {
    if Zero(p, s) {
      NonzeroCong(p, X * (1 + s * s), 2 * s * Z);
      NoZeroDivisors(p, s, 2 * Z);
      assert s * (2 * Z) == 2 * s * Z;
      NoZeroDivisors(p, X, 1 + s * s);
      NoZeroDivisors(p, s, s);
      AddCong(p, 1 + s * s, 0, s * s, 0);
      SmallNonzero(p, 1);
    }
  }

  /** The v of the decoding is the one with u v = -2 a. */
  lemma VIsSlope(p: nat, u: int, e: int, v: int, b: int)
    requires OddPrime(p) && !Zero(p, e) && !Zero(p, u) && Cong(p, (u * (e * e)) * (v * v), 1)
    requires Cong(p, u, (b * b) * (e * e)) && NonNegative(p, u * v) && NonNegative(p, b)
    ensures Cong(p, u * v, b)
  {
    var ee := e * e;
    Refl(p, u);
    MulCong(p, (u * ee) * (v * v), 1, u, u);
    VSlopeTerms(u, ee, v);
    Trans(p, ee * ((u * v) * (u * v)), u, (b * b) * ee);
    NoZeroDivisors(p, e, e);
    Commute(b * b, ee);
    Cancel(p, ee, (u * v) * (u * v), b * b);
    NoZeroDivisors(p, u, v);
    NoZeroDivisors(p, v, v);
    NoZeroDivisors(p, u * ee, v * v);
    OneNotZero(p, (u * ee) * (v * v));
    SameSquareSameSign(p, u * v, b);
  }

  lemma VSlopeTerms(u: int, ee: int, v: int)
    ensures ((u * ee) * (v * v)) * u == ee * ((u * v) * (u * v))
  {
    ProductSquare(u, v);
    VSlopeTerms'(u, ee, v * v);
  }

  lemma VSlopeTerms'(u: int, ee: int, vv: int)
    ensures ((u * ee) * vv) * u == ee * ((u * u) * vv)
  {
  }

  /** w Z = Y. */
  lemma DecodedY(p: nat, Y: int, Z: int, e: int, u: int, v: int, b: int)
    requires Cong(p, (1 - e * e) * Z, b * (e * Y)) && Cong(p, u * v, b) && Cong(p, (u * (e * e)) * (v * v), 1)
    ensures Cong(p, (v * e * (1 - e * e)) * Z, Y)
  {
    var m := 1 - e * e;
    Refl(p, v * e);
    MulCong(p, v * e, v * e, m * Z, b * (e * Y));
    Sym(p, u * v, b);
    Refl(p, e * Y);
    MulCong(p, b, u * v, e * Y, e * Y);
    MulCong(p, v * e, v * e, b * (e * Y), (u * v) * (e * Y));
    Refl(p, Y);
    MulCong(p, (u * (e * e)) * (v * v), 1, Y, Y);
    DecodedYTerms(u, v, e, Y, m, Z);
    Trans(p, (v * e) * (m * Z), (v * e) * (b * (e * Y)), (v * e) * ((u * v) * (e * Y)));
    Trans(p, (v * e) * (m * Z), ((u * (e * e)) * (v * v)) * Y, Y);
  }

  lemma DecodedYTerms(u: int, v: int, e: int, Y: int, m: int, Z: int)
    ensures (v * e * m) * Z == (v * e) * (m * Z)
    ensures (v * e) * ((u * v) * (e * Y)) == ((u * (e * e)) * (v * v)) * Y
  {
    assert (v * e) * ((u * v) * (e * Y)) == (u * ((v * e) * (v * e))) * Y;
    ProductSquare(v, e);
    assert u * ((v * v) * (e * e)) == (u * (e * e)) * (v * v);
  }

  /** What e decodes to is projectively equal to the coordinates that e meets. */
  lemma DecodesMeets(c: Curve, P: ExtPoint, e: int, X: int, Y: int, Z: int, a: int)
    requires Params(c) && Decodes(c.p, c.d, e, P) && !Zero(c.p, e) && Meets(c.p, c.d, X, Y, Z, a, e)
    ensures Cong(c.p, P.X * Z, X * P.Z) && Cong(c.p, P.Y * Z, Y * P.Z)
  {
    var p, d := c.p, c.d;
    var v :| IsV(p, d, e, v) && Shape(p, P, e, v * e * (1 - e * e));
    UNonzero(c, e);
    VIsSlope(p, U(d, e), e, v, -2 * a);
    DecodedY(p, Y, Z, e, U(d, e), v, -2 * a);
    CompareX(p, P.X, P.Z, 2 * e, 1 + e * e, X, Z);
    CompareY(p, P.Y, P.Z, v * e * (1 - e * e), 1 + e * e, Y, Z);
  }

  lemma CompareX(p: int, x: int, z: int, x': int, z': int, X: int, Z: int)
    requires Cong(p, x, x') && Cong(p, z, z') && Cong(p, X * z', x' * Z)
    ensures Cong(p, x * Z, X * z)
  {
    Refl(p, X);
    Refl(p, Z);
    MulCong(p, x, x', Z, Z);
    MulCong(p, X, X, z, z');
    Sym(p, X * z', x' * Z);
    Sym(p, X * z, X * z');
    Trans(p, x * Z, x' * Z, X * z');
    Trans(p, x * Z, X * z', X * z);
  }

  lemma CompareY(p: int, y: int, z: int, w: int, z': int, Y: int, Z: int)
    requires Cong(p, y, w * z') && Cong(p, z, z') && Cong(p, w * Z, Y)
    ensures Cong(p, y * Z, Y * z)
  {
    Refl(p, z');
    MulCong(p, w * Z, Y, z', z');
    Sym(p, (w * Z) * z', Y * z');
    assert (w * Z) * z' == (w * z') * Z;
    CompareX(p, y, z, w * z', z', Y, Z);
  }

  // ----- The opposite point

  lemma FlipStands(c: Curve, P: ExtPoint)
    requires c.p > 0
    ensures Stands(c.p, Flip(c, P), 0 - P.X, 0 - P.Y, P.Z, P.T)
  {
    Refls(c.p, P);
    NegOp(c.p, P.X, P.X);
    NegOp(c.p, P.Y, P.Y);
  }

  lemma OppositeOnCurve(p: int, d: int, X: int, Y: int, Z: int, T: int)
    requires OnCurve(p, d, X, Y, Z, T)
    ensures OnCurve(p, d, 0 - X, 0 - Y, Z, T)
  {
    assert (0 - X) * (0 - X) == X * X && (0 - Y) * (0 - Y) == Y * Y && (0 - X) * (0 - Y) == X * Y;
  }

  lemma OppositeSquare(y: int)
    ensures (0 - y) * (0 - y) == y * y
  {
  }

  lemma FlipIsPoint(c: Curve, P: ExtPoint)
    requires c.p > 0 && Point(c, P)
    ensures Point(c, Flip(c, P)) && (Even(c, P) ==> Even(c, Flip(c, P)))
  {
    var p, Q := c.p, Flip(c, P);
    FlipStands(c, P);
    OppositeOnCurve(p, c.d, P.X, P.Y, P.Z, P.T);
    OnCurveCong(p, c.d, Q, 0 - P.X, 0 - P.Y, P.Z, P.T);
    RadicandCong(p, c.d, Q.Y, 0 - P.Y, Q.Z, P.Z);
    OppositeSquare(P.Y);
    SquareCong(p, (1 - c.d) * (Q.Z * Q.Z - Q.Y * Q.Y), (1 - c.d) * (P.Z * P.Z - P.Y * P.Y));
  }

  lemma RadicandCong(p: int, d: int, y: int, Y: int, z: int, Z: int)
    requires Cong(p, y, Y) && Cong(p, z, Z)
    ensures Cong(p, (1 - d) * (z * z - y * y), (1 - d) * (Z * Z - Y * Y))
  {
    MulCong(p, y, Y, y, Y);
    MulCong(p, z, Z, z, Z);
    AddCong(p, z * z, Z * Z, y * y, Y * Y);
    Refl(p, 1 - d);
    MulCong(p, 1 - d, 1 - d, z * z - y * y, Z * Z - Y * Y);
  }

  /** decafDecode undoes decafEncode on even points, up to the opposite point. */
  lemma DecodeEncode(c: Curve, P: ExtPoint)
    requires Params(c) && Point(c, P) && Even(c, P)
    ensures var o := DecafDecode(c, DecafEncode(c, P)); o.Some? && Point(c, o.value) && CosetEq(c, o.value, P)
  {
    XZeroIff(c.p, c.d, P.X, P.Y, P.Z, P.T);
    if Zero(c.p, P.X) {
      EncodeZero(c, P);
      DecodeZero(c);
      IdentityPoint(c);
      TrivialCoset(c, P);
    } else {
      var a, s := EvenNumber(c, P);
      EncodeOf(c, P, a, s);
      DecodeNumber(c, P, a, s, DecafNeg(c.p, s, s));
    }
  }

  lemma EvenNumber(c: Curve, P: ExtPoint) returns (a: int, s: int)
    requires Params(c) && Point(c, P) && Even(c, P) && !Zero(c.p, P.X) && !Zero(c.p, P.Z * P.Z - P.Y * P.Y)
    ensures Slope(c.p, c.d, P.Y, P.Z, a) && Number(c.p, P.X, P.Y, P.Z, a, s)
  {
    OneMinusD(c);
    a := SlopeExists(c.p, c.d, P.Y, P.Z);
    s := NumberExists(c.p, P.X, P.Y, P.Z, a);
  }

  lemma TrivialCoset(c: Curve, P: ExtPoint)
    requires Params(c) && Zero(c.p, P.X) && Zero(c.p, P.Z * P.Z - P.Y * P.Y)
    ensures CosetEq(c, ExtPoint(0, 1, 1, 0), P)
  {
    var p, Q := c.p, Flip(c, P);
    DifferenceZero(p, P.Z * P.Z, P.Y * P.Y);
    RootsAgree(p, P.Z, P.Y);
    if Cong(p, P.Z, P.Y) {
      IdentityMatches(c, P);
    } else {
      FlipStands(c, P);
      FlipAxis(p, P.X, P.Y, P.Z, Q.X, Q.Y);
      IdentityMatches(c, Q);
    }
  }

  lemma FlipAxis(p: int, X: int, Y: int, Z: int, x: int, y: int)
    requires Zero(p, X) && Cong(p, Z, -Y) && Cong(p, x, 0 - X) && Cong(p, y, 0 - Y)
    ensures Zero(p, x) && Cong(p, Z, y)
  {
    Refl(p, 0);
    AddCong(p, 0, 0, X, 0);
    Trans(p, x, 0 - X, 0);
    Sym(p, y, 0 - Y);
    Trans(p, Z, -Y, y);
  }

  lemma IdentityMatches(c: Curve, Q: ExtPoint)
    requires Zero(c.p, Q.X) && Cong(c.p, Q.Z, Q.Y)
    ensures ProjEq(c, ExtPoint(0, 1, 1, 0), Q)
  {
    Sym(c.p, Q.X, 0);
  }

  lemma DecodeNumber(c: Curve, P: ExtPoint, a: int, s: int, e: nat)
    requires Params(c) && Point(c, P) && !Zero(c.p, P.X) && !Zero(c.p, P.Z * P.Z - P.Y * P.Y)
    requires Slope(c.p, c.d, P.Y, P.Z, a) && Number(c.p, P.X, P.Y, P.Z, a, s) && e == DecafNeg(c.p, s, s)
    ensures var o := DecafDecode(c, e); o.Some? && Point(c, o.value) && CosetEq(c, o.value, P)
  {
    var X, Y := SignedCoordinates(c, P, a, s, e);
    var p, d, Z := c.p, c.d, P.Z;
    NumberMeets(p, d, X, Y, Z, P.T, a, e);
    MeetsSquare(p, d, X, Y, Z, a, e);
    Refl(p, 0);
    DecodeUnfold(c, e);
    var R := DecafDecode(c, e).value;
    DecodesPoint(c, e, R);
    DecodesMeets(c, R, e, X, Y, Z, a);
    CosetFromSigns(c, R, P, X, Y);
  }

  lemma MeetsSquare(p: nat, d: int, X: int, Y: int, Z: int, a: int, e: int)
    requires p > 0 && Meets(p, d, X, Y, Z, a, e)
    ensures IsSquare(p, U(d, e))
  {
    ProductSquare(-2 * a, e);
    Sym(p, U(d, e), ((-2 * a) * (-2 * a)) * (e * e));
    assert IsRoot(p, (-2 * a) * e, U(d, e));
  }

  /** (X, Y) or (-X, -Y), whichever e is the number of. */
  lemma SignedCoordinates(c: Curve, P: ExtPoint, a: int, s: int, e: nat) returns (X: int, Y: int)
    requires Params(c) && Point(c, P) && !Zero(c.p, P.X) && !Zero(c.p, P.Z * P.Z - P.Y * P.Y)
    requires Slope(c.p, c.d, P.Y, P.Z, a) && Number(c.p, P.X, P.Y, P.Z, a, s) && e == DecafNeg(c.p, s, s)
    ensures e <= Half(c.p) && OnCurve(c.p, c.d, X, Y, P.Z, P.T) && !Zero(c.p, X) && !Zero(c.p, P.Z * P.Z - Y * Y)
    ensures Slope(c.p, c.d, Y, P.Z, a) && Number(c.p, X, Y, P.Z, a, e)
    ensures (X == P.X && Y == P.Y) || (X == 0 - P.X && Y == 0 - P.Y)
  {
    var p := c.p;
    AbsSpec(p, s);
    if Cong(p, e, s) {
      X, Y := P.X, P.Y;
      NumberCong(p, X, Y, P.Z, a, s, e);
    } else {
      X, Y := 0 - P.X, 0 - P.Y;
      OppositeOnCurve(p, c.d, P.X, P.Y, P.Z, P.T);
      NegNonzero(p, P.X);
      OppositeSquare(P.Y);
      NumberOpposite(p, P.X, P.Y, P.Z, a, s);
      NumberCong(p, X, Y, P.Z, a, 0 - s, e);
    }
  }

  lemma NumberCong(p: nat, X: int, Y: int, Z: int, a: int, s: int, e: int)
    requires Number(p, X, Y, Z, a, s) && Cong(p, e, s)
    ensures Number(p, X, Y, Z, a, e)
  {
    Refl(p, X * Z);
    MulCong(p, X * Z, X * Z, e, s);
    Trans(p, (X * Z) * e, (X * Z) * s, Z * Z + a * (X * Y));
  }

  lemma NumberOpposite(p: nat, X: int, Y: int, Z: int, a: int, s: int)
    requires Number(p, X, Y, Z, a, s)
    ensures Number(p, 0 - X, 0 - Y, Z, a, 0 - s)
  {
    assert (0 - X) * (0 - Y) == X * Y;
    assert ((0 - X) * Z) * (0 - s) == (X * Z) * s;
  }

  lemma CosetFromSigns(c: Curve, R: ExtPoint, P: ExtPoint, X: int, Y: int)
    requires c.p > 0 && Cong(c.p, R.X * P.Z, X * R.Z) && Cong(c.p, R.Y * P.Z, Y * R.Z)
    requires (X == P.X && Y == P.Y) || (X == 0 - P.X && Y == 0 - P.Y)
    ensures CosetEq(c, R, P)
  {
    var p, Q := c.p, Flip(c, P);
    if X != P.X || Y != P.Y {
      FlipStands(c, P);
      SwitchFactor(p, R.X * P.Z, X, Q.X, R.Z);
      SwitchFactor(p, R.Y * P.Z, Y, Q.Y, R.Z);
      assert ProjEq(c, R, Q);
    }
  }

  lemma SwitchFactor(p: int, l: int, x: int, x': int, z: int)
    requires Cong(p, l, x * z) && Cong(p, x', x)
    ensures Cong(p, l, x' * z)
  {
    Sym(p, x', x);
    Refl(p, z);
    MulCong(p, x, x', z, z);
    Trans(p, l, x * z, x' * z);
  }

  // ----- The encoder does not distinguish the points of a coset

  lemma SlopeScales(p: nat, d: int, l: int, Y: int, Z: int, m: int, Y': int, Z': int, a: int)
    requires IsPrime(p) && !Zero(p, m) && Cong(p, l * Y, m * Y') && Cong(p, l * Z, m * Z') && Slope(p, d, Y, Z, a)
    ensures Slope(p, d, Y', Z', a)
  {
    var (q, q', z, z') := (Z * Z - Y * Y, Z' * Z' - Y' * Y', Z * Z, Z' * Z');
    ProductPair(p, l, Y, m, Y', l, Y, m, Y');
    ProductPair(p, l, Z, m, Z', l, Z, m, Z');
    SumPair(p, l * l, z, Y * Y, m * m, z', Y' * Y');
    Sym(p, (l * l) * q, (m * m) * q');
    ScaledEquation(p, m * m, a * a, q', l * l, q, 1 - d, z, z');
    NoZeroDivisors(p, m, m);
    Cancel(p, m * m, (a * a) * q', (1 - d) * z');
  }

  lemma ScaledEquation(p: nat, mm: int, aa: int, q': int, ll: int, q: int, k: int, z: int, z': int)
    requires Cong(p, mm * q', ll * q) && Cong(p, ll * z, mm * z') && Cong(p, aa * q, k * z)
    ensures Cong(p, mm * (aa * q'), mm * (k * z'))
  {
    Refl(p, aa);
    Refl(p, k);
    Refl(p, ll);
    MulCong(p, aa, aa, mm * q', ll * q);
    MulCong(p, ll, ll, aa * q, k * z);
    MulCong(p, k, k, ll * z, mm * z');
    ScaledTerms(mm, aa, q');
    ScaledTerms(ll, aa, q);
    ScaledTerms(ll, k, z);
    ScaledTerms(mm, k, z');
    Trans(p, aa * (mm * q'), aa * (ll * q), k * (ll * z));
    Trans(p, aa * (mm * q'), k * (ll * z), k * (mm * z'));
  }

  lemma ScaledTerms(m: int, a: int, q: int)
    ensures a * (m * q) == m * (a * q)
  {
  }

  lemma NumberScales(p: nat, l: int, X: int, Y: int, Z: int, m: int, X': int, Y': int, Z': int, a: int, s: int)
    requires IsPrime(p) && !Zero(p, m) && Number(p, X, Y, Z, a, s)
    requires Cong(p, l * X, m * X') && Cong(p, l * Y, m * Y') && Cong(p, l * Z, m * Z')
    ensures Number(p, X', Y', Z', a, s)
  {
    var (ll, mm) := (l * l, m * m);
    ProductPair(p, l, X, m, X', l, Z, m, Z');
    ProductPair(p, l, X, m, X', l, Y, m, Y');
    ProductPair(p, l, Z, m, Z', l, Z, m, Z');
    Refl(p, a);
    MulCong(p, a, a, ll * (X * Y), mm * (X' * Y'));
    ScaledTerms(ll, a, X * Y);
    ScaledTerms(mm, a, X' * Y');
    SumPair(p, ll, Z * Z, a * (X * Y), mm, Z' * Z', a * (X' * Y'));
    Refl(p, s);
    MulCong(p, ll * (X * Z), mm * (X' * Z'), s, s);
    Refl(p, ll);
    MulCong(p, ll, ll, (X * Z) * s, Z * Z + a * (X * Y));
    Assoc(ll, X * Z, s);
    Assoc(mm, X' * Z', s);
    Sym(p, ll * ((X * Z) * s), mm * ((X' * Z') * s));
    Trans(p, mm * ((X' * Z') * s), ll * ((X * Z) * s), ll * (Z * Z + a * (X * Y)));
    Trans(p, mm * ((X' * Z') * s), ll * (Z * Z + a * (X * Y)), mm * (Z' * Z' + a * (X' * Y')));
    NoZeroDivisors(p, m, m);
    Cancel(p, mm, (X' * Z') * s, Z' * Z' + a * (X' * Y'));
  }

  lemma EncodeProj(c: Curve, P: ExtPoint, Q: ExtPoint)
    requires Params(c) && Point(c, P) && Point(c, Q) && Even(c, P) && ProjEq(c, P, Q)
    ensures DecafEncode(c, P) == DecafEncode(c, Q)
  {
    var p, d := c.p, c.d;
    ProjProportional(c, P, Q);
    XZeroIff(p, d, P.X, P.Y, P.Z, P.T);
    XZeroIff(p, d, Q.X, Q.Y, Q.Z, Q.T);
    NoZeroDivisors(p, Q.Z, P.X);
    NoZeroDivisors(p, P.Z, Q.X);
    NonzeroCong(p, Q.Z * P.X, P.Z * Q.X);
    if Zero(p, P.X) {
      EncodeZero(c, P);
      EncodeZero(c, Q);
    } else {
      var a, s := EvenNumber(c, P);
      SlopeScales(p, d, Q.Z, P.Y, P.Z, P.Z, Q.Y, Q.Z, a);
      NumberScales(p, Q.Z, P.X, P.Y, P.Z, P.Z, Q.X, Q.Y, Q.Z, a, s);
      EncodeOf(c, P, a, s);
      EncodeOf(c, Q, a, s);
    }
  }

  lemma EncodeFlip(c: Curve, P: ExtPoint)
    requires Params(c) && Point(c, P) && Even(c, P)
    ensures DecafEncode(c, Flip(c, P)) == DecafEncode(c, P)
  {
    var p, d, Q := c.p, c.d, Flip(c, P);
    FlipIsPoint(c, P);
    FlipStands(c, P);
    XZeroIff(p, d, P.X, P.Y, P.Z, P.T);
    XZeroIff(p, d, Q.X, Q.Y, Q.Z, Q.T);
    if Zero(p, P.X) {
      Refl(p, 0);
      AddCong(p, 0, 0, P.X, 0);
      Trans(p, Q.X, 0 - P.X, 0);
      EncodeZero(c, P);
      EncodeZero(c, Q);
    } else {
      var a, s := EvenNumber(c, P);
      EncodeOpposite(c, P, a, s);
      EncodeOf(c, P, a, s);
    }
  }

  lemma EncodeOpposite(c: Curve, P: ExtPoint, a: int, s: int)
    requires Params(c) && Point(c, P) && !Zero(c.p, P.X) && !Zero(c.p, P.Z * P.Z - P.Y * P.Y)
    requires Slope(c.p, c.d, P.Y, P.Z, a) && Number(c.p, P.X, P.Y, P.Z, a, s)
    ensures DecafEncode(c, Flip(c, P)) == DecafNeg(c.p, s, s)
  {
    FlipIsPoint(c, P);
    FlipStands(c, P);
    NegNonzero(c.p, P.X);
    NumberOpposite(c.p, P.X, P.Y, P.Z, a, s);
    OppositeSquare(P.Y);
    EncodeStands(c, Flip(c, P), 0 - P.X, 0 - P.Y, P.Z, P.T, a, 0 - s);
    Refl(c.p, 0 - s);
    AbsUnique(c.p, 0 - s, s);
  }

  /** decafEncode depends on the coset only. */
  lemma EncodeRespects(c: Curve, P: ExtPoint, Q: ExtPoint)
    requires Params(c) && Point(c, P) && Point(c, Q) && Even(c, Q) && CosetEq(c, P, Q)
    ensures DecafEncode(c, P) == DecafEncode(c, Q)
  {
    if ProjEq(c, P, Q) {
      ProjSym(c, P, Q);
      EncodeProj(c, Q, P);
    } else {
      FlipIsPoint(c, Q);
      EncodeFlip(c, Q);
      ProjSym(c, P, Flip(c, Q));
      EncodeProj(c, Flip(c, Q), P);
    }
  }

  // ----- The accepted numbers are the cosets of even points

  lemma DecodesEven(c: Curve, s: nat, P: ExtPoint)
    requires Params(c) && 0 < s <= Half(c.p) && Decodes(c.p, c.d, s, P)
    ensures Even(c, P)
  {
    var X, Y, Z, T, a := DecodesSlope(c, s, P);
    TransferSlope(c.p, c.d, P.Y, Y, P.Z, Z, a);
    OneMinusD(c);
    var r := (1 - c.d) * (P.Z * P.Z - P.Y * P.Y);
    Refl(c.p, r);
    RadicandSquare(c.p, 1 - c.d, P.Z * P.Z - P.Y * P.Y, a, P.Z, r);
  }

  /** Every accepted number decodes to an even point. */
  lemma DecodeEven(c: Curve, s: nat)
    requires Params(c) && DecafDecode(c, s).Some?
    ensures Point(c, DecafDecode(c, s).value) && Even(c, DecafDecode(c, s).value)
  {
    DecodeIsPoint(c, s);
    if s == 0 {
      DecodeZero(c);
      Refl(c.p, 0);
      assert IsRoot(c.p, 0, (1 - c.d) * (1 * 1 - 1 * 1));
    } else {
      DecodeUnfold(c, s);
      DecodesEven(c, s, DecafDecode(c, s).value);
    }
  }

  /** Different numbers decode to different cosets; with DecodeEncode, decafDecode is a bijection onto the cosets of even points. */
  lemma DecodeInjective(c: Curve, s: nat, s': nat)
    requires Params(c) && DecafDecode(c, s).Some? && DecafDecode(c, s').Some?
    requires CosetEq(c, DecafDecode(c, s).value, DecafDecode(c, s').value)
    ensures s == s'
  {
    DecodeEven(c, s);
    DecodeEven(c, s');
    EncodeRespects(c, DecafDecode(c, s).value, DecafDecode(c, s').value);
    EncodeDecode(c, s);
    EncodeDecode(c, s');
  }
}
