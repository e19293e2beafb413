/**
 The Edwards curve X^2 + Y^2 = Z^2 + d T^2, X Y = Z T in extended coordinates:
 edwardsAdd of pak.go, with fieldA = 1.
 */
module Edwards {
  import opened ModArith
  import opened Residues

  datatype ExtPoint = ExtPoint(X: nat, Y: nat, Z: nat, T: nat)

  /** fieldP and fieldD. */
  datatype Curve = Curve(p: nat, d: nat)

  /** An odd prime field in which d is not a square. */
  ghost predicate Complete(c: Curve) {
    OddPrime(c.p) && !IsSquare(c.p, c.d)
  }

  function NewExtPoint(p: nat, x: int, y: int, z: int, t: int): ExtPoint
    requires p > 0
  {
    ExtPoint(Mod(p, x), Mod(p, y), Mod(p, z), Mod(p, t))
  }

  function EdwardsAdd(c: Curve, P: ExtPoint, Q: ExtPoint): ExtPoint
    requires c.p > 0
  {
    var p := c.p;
    var A := ModMul(p, P.X, Q.X);
    var B := ModMul(p, P.Y, Q.Y);
    var C := ModMul(p, c.d, ModMul(p, P.T, Q.T));
    var D := ModMul(p, P.Z, Q.Z);
    var E := ModSub(p, ModSub(p, ModMul(p, ModAdd(p, P.X, P.Y), ModAdd(p, Q.X, Q.Y)), A), B);
    var F := ModSub(p, D, C);
    var G := ModAdd(p, D, C);
    var H := ModSub(p, B, ModMul(p, 1, A));
    NewExtPoint(p, ModMul(p, E, F), ModMul(p, G, H), ModMul(p, F, G), ModMul(p, E, H))
  }

  /** The negation that spake2ee2 builds. */
  function NegPoint(c: Curve, P: ExtPoint): ExtPoint
    requires c.p > 0
  {
    ExtPoint(Neg(c.p, P.X), P.Y, P.Z, Neg(c.p, P.T))
  }

  function Identity(c: Curve): ExtPoint
    requires c.p > 0
  {
    NewExtPoint(c.p, 0, 1, 1, 0)
  }

  // ----- The curve

  ghost predicate OnCurve(p: int, d: int, X: int, Y: int, Z: int, T: int) {
    Cong(p, X * X + Y * Y, Z * Z + d * T * T) && Cong(p, X * Y, Z * T)
  }

  /** A point of the curve: both equations hold and Z is not zero. */
  ghost predicate Point(c: Curve, P: ExtPoint) {
    OnCurve(c.p, c.d, P.X, P.Y, P.Z, P.T) && !Zero(c.p, P.Z)
  }

  // ----- The four polynomials of the addition

  ghost function EE(P: ExtPoint, Q: ExtPoint): int { P.X * Q.Y + P.Y * Q.X }
  ghost function FF(d: int, P: ExtPoint, Q: ExtPoint): int { P.Z * Q.Z - d * P.T * Q.T }
  ghost function GG(d: int, P: ExtPoint, Q: ExtPoint): int { P.Z * Q.Z + d * P.T * Q.T }
  ghost function HH(P: ExtPoint, Q: ExtPoint): int { P.Y * Q.Y - P.X * Q.X }

  /** R stands for the given coordinates. */
  ghost predicate Stands(p: int, R: ExtPoint, X: int, Y: int, Z: int, T: int) {
    Cong(p, R.X, X) && Cong(p, R.Y, Y) && Cong(p, R.Z, Z) && Cong(p, R.T, T)
  }

  /** The modular operations of edwardsAdd compute (EF, GH, FG, EH). */
  lemma AddShape(c: Curve, P: ExtPoint, Q: ExtPoint)
    requires c.p > 0
    ensures var (e, f, g, h) := (EE(P, Q), FF(c.d, P, Q), GG(c.d, P, Q), HH(P, Q));
            Stands(c.p, EdwardsAdd(c, P, Q), e * f, g * h, f * g, e * h)
  {
    ShapeE(c.p, P.X, P.Y, Q.X, Q.Y);
    ShapeFG(c.p, c.d, P.Z, Q.Z, P.T, Q.T);
    ShapeH(c.p, P.X, P.Y, Q.X, Q.Y);
    var p := c.p;
    var A, B := ModMul(p, P.X, Q.X), ModMul(p, P.Y, Q.Y);
    var C, D := ModMul(p, c.d, ModMul(p, P.T, Q.T)), ModMul(p, P.Z, Q.Z);
    ShapeProducts(p,
      ModSub(p, ModSub(p, ModMul(p, ModAdd(p, P.X, P.Y), ModAdd(p, Q.X, Q.Y)), A), B), EE(P, Q),
      ModSub(p, D, C), FF(c.d, P, Q),
      ModAdd(p, D, C), GG(c.d, P, Q),
      ModSub(p, B, ModMul(p, 1, A)), HH(P, Q));
  }

  lemma ShapeE(p: nat, x1: int, y1: int, x2: int, y2: int)
    requires p > 0
    ensures var S := ModMul(p, ModAdd(p, x1, y1), ModAdd(p, x2, y2));
            Cong(p, ModSub(p, ModSub(p, S, ModMul(p, x1, x2)), ModMul(p, y1, y2)), x1 * y2 + y1 * x2)
  {
    var S := ModMul(p, ModAdd(p, x1, y1), ModAdd(p, x2, y2));
    ModCong(p, x1 + y1);
    ModCong(p, x2 + y2);
    ModCong(p, x1 * x2);
    ModCong(p, y1 * y2);
    Ops(p, ModAdd(p, x1, y1), x1 + y1, ModAdd(p, x2, y2), x2 + y2);
    Ops(p, S, (x1 + y1) * (x2 + y2), ModMul(p, x1, x2), x1 * x2);
    Ops(p, ModSub(p, S, ModMul(p, x1, x2)), (x1 + y1) * (x2 + y2) - x1 * x2, ModMul(p, y1, y2), y1 * y2);
    CrossTerms(x1, y1, x2, y2);
  }

  lemma ShapeFG(p: nat, d: int, z1: int, z2: int, t1: int, t2: int)
    requires p > 0
    ensures var C, D := ModMul(p, d, ModMul(p, t1, t2)), ModMul(p, z1, z2);
            Cong(p, ModSub(p, D, C), z1 * z2 - d * t1 * t2) &&
            Cong(p, ModAdd(p, D, C), z1 * z2 + d * t1 * t2)
  {
    Refl(p, d);
    ModCong(p, t1 * t2);
    ModCong(p, z1 * z2);
    Ops(p, d, d, ModMul(p, t1, t2), t1 * t2);
    Assoc(d, t1, t2);
    Ops(p, ModMul(p, z1, z2), z1 * z2, ModMul(p, d, ModMul(p, t1, t2)), d * t1 * t2);
  }

  lemma ShapeH(p: nat, x1: int, y1: int, x2: int, y2: int)
    requires p > 0
    ensures Cong(p, ModSub(p, ModMul(p, y1, y2), ModMul(p, 1, ModMul(p, x1, x2))), y1 * y2 - x1 * x2)
  {
    ModCong(p, x1 * x2);
    ModCong(p, y1 * y2);
    Refl(p, 1);
    Ops(p, 1, 1, ModMul(p, x1, x2), x1 * x2);
    Ops(p, ModMul(p, y1, y2), y1 * y2, ModMul(p, 1, ModMul(p, x1, x2)), x1 * x2);
  }

  lemma ShapeProducts(p: nat, E: int, e: int, F: int, f: int, G: int, g: int, H: int, h: int)
    requires p > 0 && Cong(p, E, e) && Cong(p, F, f) && Cong(p, G, g) && Cong(p, H, h)
    ensures Stands(p, NewExtPoint(p, ModMul(p, E, F), ModMul(p, G, H), ModMul(p, F, G), ModMul(p, E, H)),
                   e * f, g * h, f * g, e * h)
  {
    Ops(p, E, e, F, f);
    Ops(p, G, g, H, h);
    Ops(p, F, f, G, g);
    Ops(p, E, e, H, h);
    Renew(p, ModMul(p, E, F), e * f);
    Renew(p, ModMul(p, G, H), g * h);
    Renew(p, ModMul(p, F, G), f * g);
    Renew(p, ModMul(p, E, H), e * h);
  }

  lemma Refls(p: int, P: ExtPoint)
    ensures Stands(p, P, P.X, P.Y, P.Z, P.T)
  {
    Refl(p, P.X);
    Refl(p, P.Y);
    Refl(p, P.Z);
    Refl(p, P.T);
  }

  lemma CrossTerms(x1: int, y1: int, x2: int, y2: int)
    ensures (x1 + y1) * (x2 + y2) - x1 * x2 - y1 * y2 == x1 * y2 + y1 * x2
  {
  }

  /** Reducing once more changes nothing. */
  lemma Renew(p: nat, a: int, A: int)
    requires p > 0 && Cong(p, a, A)
    ensures Cong(p, Mod(p, a), A)
  {
    ModCong(p, a);
    Trans(p, Mod(p, a), a, A);
  }

  // ----- The sum is on the curve

  // One polynomial identity a lemma: the solver normalizes each at once.

  lemma NormXY(X1: int, Y1: int, X2: int, Y2: int)
    ensures (X1 * X1 + Y1 * Y1) * (X2 * X2 + Y2 * Y2)
         == (X1 * Y2 + Y1 * X2) * (X1 * Y2 + Y1 * X2) + (Y1 * Y2 - X1 * X2) * (Y1 * Y2 - X1 * X2)
  {
  }

  lemma NormZT(d: int, Z1: int, T1: int, Z2: int, T2: int)
    ensures (Z1 * Z1 + d * T1 * T1) * (Z2 * Z2 + d * T2 * T2)
         == (Z1 * Z2 + d * T1 * T2) * (Z1 * Z2 + d * T1 * T2) + d * (Z1 * T2 - T1 * Z2) * (Z1 * T2 - T1 * Z2)
  {
  }

  lemma DifferenceXY(X1: int, Y1: int, X2: int, Y2: int)
    ensures (X2 * Y2) * (X1 * X1 + Y1 * Y1) - (X1 * Y1) * (X2 * X2 + Y2 * Y2)
         == -((Y1 * Y2 - X1 * X2) * (X1 * Y2 - Y1 * X2))
  {
  }

  lemma ExpandFJ(d: int, Z1: int, T1: int, Z2: int, T2: int)
    ensures (Z1 * Z2 - d * T1 * T2) * (Z1 * T2 - T1 * Z2)
         == Z1 * Z1 * Z2 * T2 - Z1 * T1 * Z2 * Z2 - d * T1 * T2 * Z1 * T2 + d * T1 * T2 * T1 * Z2
  {
  }

  lemma ExpandGJ(d: int, Z1: int, T1: int, Z2: int, T2: int)
    ensures (Z1 * Z2 + d * T1 * T2) * (Z1 * T2 + T1 * Z2)
         == Z1 * Z1 * Z2 * T2 + Z1 * T1 * Z2 * Z2 + d * T1 * T2 * Z1 * T2 + d * T1 * T2 * T1 * Z2
  {
  }

  lemma ExpandZT(d: int, Z1: int, T1: int, Z2: int, T2: int)
    ensures (Z2 * T2) * (Z1 * Z1 + d * T1 * T1) == Z1 * Z1 * Z2 * T2 + d * T1 * T2 * T1 * Z2
    ensures (Z1 * T1) * (Z2 * Z2 + d * T2 * T2) == Z1 * T1 * Z2 * Z2 + d * T1 * T2 * Z1 * T2
  {
  }

  lemma DifferenceZT(d: int, Z1: int, T1: int, Z2: int, T2: int)
    ensures (Z1 * Z2 - d * T1 * T2) * (Z1 * T2 - T1 * Z2)
         == (Z2 * T2) * (Z1 * Z1 + d * T1 * T1) - (Z1 * T1) * (Z2 * Z2 + d * T2 * T2)
  {
    ExpandFJ(d, Z1, T1, Z2, T2);
    ExpandZT(d, Z1, T1, Z2, T2);
  }

  lemma SumXY(X1: int, Y1: int, X2: int, Y2: int)
    ensures (X2 * Y2) * (X1 * X1 + Y1 * Y1) + (X1 * Y1) * (X2 * X2 + Y2 * Y2)
         == (X1 * Y2 + Y1 * X2) * (X1 * X2 + Y1 * Y2)
  {
  }

  lemma SumZT(d: int, Z1: int, T1: int, Z2: int, T2: int)
    ensures (Z1 * Z2 + d * T1 * T2) * (Z1 * T2 + T1 * Z2)
         == (Z2 * T2) * (Z1 * Z1 + d * T1 * T1) + (Z1 * T1) * (Z2 * Z2 + d * T2 * T2)
  {
    ExpandGJ(d, Z1, T1, Z2, T2);
    ExpandZT(d, Z1, T1, Z2, T2);
  }

  lemma SquareF(d: int, Z1: int, T1: int, Z2: int, T2: int)
    ensures (Z1 * Z2 - d * T1 * T2) * (Z1 * Z2 - d * T1 * T2)
         == (Z1 * Z2 + d * T1 * T2) * (Z1 * Z2 + d * T1 * T2) - 4 * d * ((Z1 * T1) * (Z2 * T2))
  {
  }

  lemma SquareE(X1: int, Y1: int, X2: int, Y2: int)
    ensures (X1 * Y2 + Y1 * X2) * (X1 * Y2 + Y1 * X2) - 4 * ((X1 * Y1) * (X2 * Y2))
         == (X1 * Y2 - Y1 * X2) * (X1 * Y2 - Y1 * X2)
  {
  }

  lemma ProductSquare(a: int, b: int)
    ensures (a * b) * (a * b) == (a * a) * (b * b)
  {
  }

  /** The two bilinear relations between sums and differences: F J = -H M and G J' = E N. */
  lemma Bilinear(p: int, d: int, X1: int, Y1: int, Z1: int, T1: int, X2: int, Y2: int, Z2: int, T2: int)
    requires OnCurve(p, d, X1, Y1, Z1, T1) && OnCurve(p, d, X2, Y2, Z2, T2)
    ensures Cong(p, (Z1 * Z2 - d * T1 * T2) * (Z1 * T2 - T1 * Z2), -((Y1 * Y2 - X1 * X2) * (X1 * Y2 - Y1 * X2)))
    ensures Cong(p, (Z1 * Z2 + d * T1 * T2) * (Z1 * T2 + T1 * Z2), (X1 * Y2 + Y1 * X2) * (X1 * X2 + Y1 * Y2))
  {
    DifferenceXY(X1, Y1, X2, Y2);
    DifferenceZT(d, Z1, T1, Z2, T2);
    SumXY(X1, Y1, X2, Y2);
    SumZT(d, Z1, T1, Z2, T2);
    var (a1, b1) := (X1 * X1 + Y1 * Y1, Z1 * Z1 + d * T1 * T1);
    var (a2, b2) := (X2 * X2 + Y2 * Y2, Z2 * Z2 + d * T2 * T2);
    Sym(p, a1, b1);
    Sym(p, a2, b2);
    Sym(p, X1 * Y1, Z1 * T1);
    Sym(p, X2 * Y2, Z2 * T2);
    MulCong(p, Z2 * T2, X2 * Y2, b1, a1);
    MulCong(p, Z1 * T1, X1 * Y1, b2, a2);
    AddCong(p, (Z2 * T2) * b1, (X2 * Y2) * a1, (Z1 * T1) * b2, (X1 * Y1) * a2);
  }

  /** The curve equation of the sum, in the squares e, f, g, h, j, m of E, F, G, H, J, M. */
  lemma CurveResidual(d: int, e: int, f: int, g: int, h: int, j: int, m: int, K: int, L: int)
    ensures e * f + g * h - (f * g + d * (e * h))
         == d * (f * j - h * m) + 4 * d * h * (K - L) + f * (e + h - (g + d * j))
            - h * (f - (g - 4 * d * K)) - d * h * (e - 4 * L - m)
  {
  }

  /** Closure, on coordinates: it holds for every modulus. */
  lemma ClosedCoordinates(p: int, d: int, X1: int, Y1: int, Z1: int, T1: int, X2: int, Y2: int, Z2: int, T2: int)
    requires OnCurve(p, d, X1, Y1, Z1, T1) && OnCurve(p, d, X2, Y2, Z2, T2)
    ensures var (E, F, G, H) := (X1 * Y2 + Y1 * X2, Z1 * Z2 - d * T1 * T2, Z1 * Z2 + d * T1 * T2, Y1 * Y2 - X1 * X2);
            OnCurve(p, d, E * F, G * H, F * G, E * H)
  {
    var (E, F, G, H) := (X1 * Y2 + Y1 * X2, Z1 * Z2 - d * T1 * T2, Z1 * Z2 + d * T1 * T2, Y1 * Y2 - X1 * X2);
    var (J, M) := (Z1 * T2 - T1 * Z2, X1 * Y2 - Y1 * X2);
    var (K, L) := ((Z1 * T1) * (Z2 * T2), (X1 * Y1) * (X2 * Y2));
    NormXY(X1, Y1, X2, Y2);
    NormZT(d, Z1, T1, Z2, T2);
    SquareF(d, Z1, T1, Z2, T2);
    SquareE(X1, Y1, X2, Y2);
    Bilinear(p, d, X1, Y1, Z1, T1, X2, Y2, Z2, T2);
    MulCong(p, X1 * X1 + Y1 * Y1, Z1 * Z1 + d * T1 * T1, X2 * X2 + Y2 * Y2, Z2 * Z2 + d * T2 * T2);
    MulCong(p, X1 * Y1, Z1 * T1, X2 * Y2, Z2 * T2);
    Sym(p, L, K);
    CurveConclusion(p, E, F, G, H, d, J, M, K, L);
  }

  lemma CurveConclusion(p: int, E: int, F: int, G: int, H: int, d: int, J: int, M: int, K: int, L: int)
    requires Cong(p, E * E + H * H, G * G + d * J * J) && Cong(p, K, L) && Cong(p, F * J, -(H * M))
    requires F * F == G * G - 4 * d * K && E * E - 4 * L == M * M
    ensures OnCurve(p, d, E * F, G * H, F * G, E * H)
  {
    var (e, f, g, h, j, m) := (E * E, F * F, G * G, H * H, J * J, M * M);
    SquaresCong(p, F, J, H, M);
    Assoc(d, J, J);
    CurveInSquares(p, d, e, f, g, h, j, m, K, L);
    FromSquares(p, d, E, F, G, H);
  }

  lemma SquaresCong(p: int, F: int, J: int, H: int, M: int)
    requires Cong(p, F * J, -(H * M))
    ensures Cong(p, (F * F) * (J * J), (H * H) * (M * M))
  {
    MulCong(p, F * J, -(H * M), F * J, -(H * M));
    NegatedSquare(H * M);
    ProductSquare(F, J);
    ProductSquare(H, M);
  }

  lemma NegatedSquare(a: int)
    ensures (-a) * (-a) == a * a
  {
  }

  lemma FromSquares(p: int, d: int, E: int, F: int, G: int, H: int)
    requires Cong(p, (E * E) * (F * F) + (G * G) * (H * H), (F * F) * (G * G) + d * ((E * E) * (H * H)))
    ensures OnCurve(p, d, E * F, G * H, F * G, E * H)
  {
    ProductSquare(E, F);
    ProductSquare(G, H);
    ProductSquare(F, G);
    ProductSquare(E, H);
    Assoc(d, E * H, E * H);
    CommuteProduct(E, F, G, H);
    Refl(p, (E * F) * (G * H));
  }

  lemma CurveInSquares(p: int, d: int, e: int, f: int, g: int, h: int, j: int, m: int, K: int, L: int)
    requires Cong(p, e + h, g + d * j) && Cong(p, K, L) && Cong(p, f * j, h * m)
    requires f == g - 4 * d * K && e - 4 * L == m
    ensures Cong(p, e * f + g * h, f * g + d * (e * h))
  {
    var a, b, c := Witness(p, e + h, g + d * j), Witness(p, K, L), Witness(p, f * j, h * m);
    CurveResidual(d, e, f, g, h, j, m, K, L);
    CollectFactor(p, d, c, 4 * d * h, b, f, a);
    Intro(p, e * f + g * h, f * g + d * (e * h), d * c + 4 * d * h * b + f * a);
  }

  lemma CollectFactor(p: int, u: int, c: int, v: int, b: int, f: int, a: int)
    ensures u * (c * p) + v * (b * p) + f * (a * p) == (u * c + v * b + f * a) * p
  {
  }

  lemma CommuteProduct(E: int, F: int, G: int, H: int)
    ensures (E * F) * (G * H) == (F * G) * (E * H)
  {
  }

  /** Being on the curve depends on residues only. */
  lemma OnCurveCong(p: int, d: int, R: ExtPoint, X: int, Y: int, Z: int, T: int)
    requires Stands(p, R, X, Y, Z, T) && OnCurve(p, d, X, Y, Z, T)
    ensures OnCurve(p, d, R.X, R.Y, R.Z, R.T)
  {
    SumOfSquares(p, R.X, X, R.Y, Y, 1);
    SumOfSquares(p, R.Z, Z, R.T, T, d);
    Sym(p, R.Z * R.Z + d * R.T * R.T, Z * Z + d * T * T);
    Trans(p, R.X * R.X + R.Y * R.Y, X * X + Y * Y, Z * Z + d * T * T);
    Trans(p, R.X * R.X + R.Y * R.Y, Z * Z + d * T * T, R.Z * R.Z + d * R.T * R.T);
    MulCong(p, R.X, X, R.Y, Y);
    MulCong(p, R.Z, Z, R.T, T);
    Sym(p, R.Z * R.T, Z * T);
    Trans(p, R.X * R.Y, X * Y, Z * T);
    Trans(p, R.X * R.Y, Z * T, R.Z * R.T);
  }

  lemma SumOfSquares(p: int, a: int, A: int, b: int, B: int, d: int)
    requires Cong(p, a, A) && Cong(p, b, B)
    ensures Cong(p, a * a + d * b * b, A * A + d * B * B)
  {
    MulCong(p, a, A, a, A);
    MulCong(p, b, B, b, B);
    Refl(p, d);
    MulCong(p, d, d, b * b, B * B);
    Assoc(d, b, b);
    Assoc(d, B, B);
    AddCong(p, a * a, A * A, d * b * b, d * B * B);
  }

  // ----- Completeness: the denominators never vanish

  lemma ExpandSquareSum(z: int, x: int, y: int)
    ensures (z * (x + y)) * (z * (x + y)) == (z * z) * ((x * x + y * y) + 2 * (x * y))
  {
    ProductSquare(z, x + y);
    BinomialSquare(x, y);
  }

  lemma BinomialSquare(x: int, y: int)
    ensures (x + y) * (x + y) == (x * x + y * y) + 2 * (x * y)
  {
  }

  lemma ExpandClash(d: int, Z1: int, T1: int, Z2: int, T2: int)
    ensures (Z1 * Z2 + d * T1 * T2 + 2 * Z2 * T1) * (Z1 * Z2 - d * T1 * T2)
         == Z1 * Z1 * Z2 * Z2 - d * d * T1 * T1 * T2 * T2 + 2 * Z1 * T1 * Z2 * Z2 - 2 * d * T1 * T1 * Z2 * T2
  {
  }

  lemma ExpandClash1(d: int, Z1: int, T1: int, Z2: int)
    ensures (Z2 * Z2) * ((Z1 * Z1 + d * T1 * T1) + 2 * (Z1 * T1))
         == Z1 * Z1 * Z2 * Z2 + d * T1 * T1 * Z2 * Z2 + 2 * Z1 * T1 * Z2 * Z2
  {
  }

  lemma ExpandClash2(d: int, T1: int, Z2: int, T2: int)
    ensures (d * (T1 * T1)) * ((Z2 * Z2 + d * T2 * T2) + 2 * (Z2 * T2))
         == d * T1 * T1 * Z2 * Z2 + d * d * T1 * T1 * T2 * T2 + 2 * d * T1 * T1 * Z2 * T2
  {
    ThreeTerms(d * (T1 * T1), Z2 * Z2, d * T2 * T2, 2 * (Z2 * T2));
    MonomialOrder(d, T1, Z2, T2);
  }

  lemma ThreeTerms(k: int, a: int, b: int, c: int)
    ensures k * ((a + b) + c) == k * a + k * b + k * c
  {
  }

  lemma MonomialOrder(d: int, t: int, z: int, u: int)
    ensures (d * (t * t)) * (z * z) == d * t * t * z * z
    ensures (d * (t * t)) * (d * u * u) == d * d * t * t * u * u
    ensures (d * (t * t)) * (2 * (z * u)) == 2 * d * t * t * z * u
  {
  }

  lemma ClashIdentity(d: int, Z1: int, T1: int, Z2: int, T2: int)
    ensures (Z2 * Z2) * ((Z1 * Z1 + d * T1 * T1) + 2 * (Z1 * T1))
          - (d * (T1 * T1)) * ((Z2 * Z2 + d * T2 * T2) + 2 * (Z2 * T2))
         == (Z1 * Z2 + d * T1 * T2 + 2 * Z2 * T1) * (Z1 * Z2 - d * T1 * T2)
  {
    ExpandClash(d, Z1, T1, Z2, T2);
    ExpandClash1(d, Z1, T1, Z2);
    ExpandClash2(d, T1, Z2, T2);
  }

  /** (z (x+y))^2, with x^2 + y^2 and x y replaced by the other sides of the curve equations. */
  lemma SquareSumOnCurve(p: int, d: int, z: int, X: int, Y: int, Z: int, T: int)
    requires OnCurve(p, d, X, Y, Z, T)
    ensures Cong(p, (z * (X + Y)) * (z * (X + Y)), (z * z) * ((Z * Z + d * T * T) + 2 * (Z * T)))
  {
    ExpandSquareSum(z, X, Y);
    AddCong(p, X * Y, Z * T, X * Y, Z * T);
    AddCong(p, X * X + Y * Y, Z * Z + d * T * T, X * Y + X * Y, Z * T + Z * T);
    Refl(p, z * z);
    MulCong(p, z * z, z * z, (X * X + Y * Y) + 2 * (X * Y), (Z * Z + d * T * T) + 2 * (Z * T));
  }

  /** If Z1 Z2 = d T1 T2, then (Z2 (X1+Y1))^2 = d (T1 (X2+Y2))^2. */
  lemma ClashSquares(p: int, d: int, X1: int, Y1: int, Z1: int, T1: int, X2: int, Y2: int, Z2: int, T2: int)
    requires OnCurve(p, d, X1, Y1, Z1, T1) && OnCurve(p, d, X2, Y2, Z2, T2)
    requires Cong(p, Z1 * Z2, d * T1 * T2)
    ensures Cong(p, (Z2 * (X1 + Y1)) * (Z2 * (X1 + Y1)), d * (T1 * (X2 + Y2)) * (T1 * (X2 + Y2)))
  {
    var (l, m) := (Z2 * (X1 + Y1), T1 * (X2 + Y2));
    var u := (Z2 * Z2) * ((Z1 * Z1 + d * T1 * T1) + 2 * (Z1 * T1));
    var v := (T1 * T1) * ((Z2 * Z2 + d * T2 * T2) + 2 * (Z2 * T2));
    SquareSumOnCurve(p, d, Z2, X1, Y1, Z1, T1);
    SquareSumOnCurve(p, d, T1, X2, Y2, Z2, T2);
    Refl(p, d);
    MulCong(p, d, d, m * m, v);
    Sym(p, d * (m * m), d * v);
    Assoc(d, m, m);
    var w, f := Z1 * Z2 + d * T1 * T2 + 2 * Z2 * T1, Z1 * Z2 - d * T1 * T2;
    Intro(p, f, 0, Witness(p, Z1 * Z2, d * T1 * T2));
    Refl(p, w);
    MulCong(p, w, w, f, 0);
    ClashIdentity(d, Z1, T1, Z2, T2);
    Assoc(d, T1 * T1, (Z2 * Z2 + d * T2 * T2) + 2 * (Z2 * T2));
    Intro(p, u, d * v, Witness(p, w * f, 0));
    Trans(p, l * l, u, d * v);
    Trans(p, l * l, d * v, d * m * m);
  }

  /** (X, -Y, Z, -T) is on the curve with (X, Y, Z, T). */
  lemma FlipOnCurve(p: int, d: int, X: int, Y: int, Z: int, T: int)
    requires OnCurve(p, d, X, Y, Z, T)
    ensures OnCurve(p, d, X, -Y, Z, -T)
    ensures OnCurve(p, d, -X, Y, Z, -T)
  {
    assert d * (-T) * (-T) == d * T * T && (-Y) * (-Y) == Y * Y && (-X) * (-X) == X * X;
    Refl(p, 0);
    AddCong(p, 0, 0, X * Y, Z * T);
    assert X * (-Y) == 0 - X * Y && (-X) * Y == 0 - X * Y && Z * (-T) == 0 - Z * T;
  }

  lemma BothZero(p: nat, x: int, y: int)
    requires OddPrime(p) && Zero(p, x + y) && Zero(p, x - y)
    ensures Zero(p, x) && Zero(p, y)
  {
    AddCong(p, x + y, 0, x - y, 0);
    SmallNonzero(p, 2);
    NoZeroDivisors(p, 2, x);
    NoZeroDivisors(p, 2, y);
  }

  /** Two points whose denominator vanishes would make d a square. */
  lemma Clash(p: nat, d: int, X1: int, Y1: int, Z1: int, T1: int, X2: int, Y2: int, Z2: int, T2: int)
    requires OddPrime(p) && OnCurve(p, d, X1, Y1, Z1, T1) && OnCurve(p, d, X2, Y2, Z2, T2)
    requires !Zero(p, Z1) && !Zero(p, Z2) && Cong(p, Z1 * Z2, d * T1 * T2)
    ensures IsSquare(p, d)
  {
    ClashFactors(p, d, X2, Y2, Z1, T1, Z2, T2);
    if !Zero(p, X2 + Y2) {
      NoZeroDivisors(p, T1, X2 + Y2);
      ClashSquares(p, d, X1, Y1, Z1, T1, X2, Y2, Z2, T2);
      SquareQuotient(p, d, T1 * (X2 + Y2), Z2 * (X1 + Y1));
    } else {
      FlipOnCurve(p, d, X1, Y1, Z1, T1);
      FlipOnCurve(p, d, X2, Y2, Z2, T2);
      SignsCancel(d, T1, T2);
      NegNonzero(p, T1);
      ClashSquares(p, d, X1, -Y1, Z1, -T1, X2, -Y2, Z2, -T2);
      NoZeroDivisors(p, -T1, X2 + -Y2);
      SquareQuotient(p, d, (-T1) * (X2 + -Y2), Z2 * (X1 + -Y1));
    }
  }

  lemma SignsCancel(d: int, s: int, t: int)
    ensures d * (-s) * (-t) == d * s * t
    ensures d * (-s) * t == -(d * s * t)
  {
  }

  lemma NegNonzero(p: int, a: int)
    requires !Zero(p, a)
    ensures !Zero(p, -a)
  {
    if Zero(p, -a) {
      Refl(p, 0);
      AddCong(p, 0, 0, -a, 0);
    }
  }

  lemma ClashFactors(p: nat, d: int, X2: int, Y2: int, Z1: int, T1: int, Z2: int, T2: int)
    requires OddPrime(p) && Cong(p, X2 * Y2, Z2 * T2)
    requires !Zero(p, Z1) && !Zero(p, Z2) && Cong(p, Z1 * Z2, d * T1 * T2)
    ensures !Zero(p, T1) && (!Zero(p, X2 + Y2) || !Zero(p, X2 + -Y2))
  {
    NoZeroDivisors(p, Z1, Z2);
    NoZeroDivisors(p, d * T1, T2);
    NoZeroDivisors(p, d, T1);
    if Zero(p, d * T1 * T2) {
      Trans(p, Z1 * Z2, d * T1 * T2, 0);
    }
    if Zero(p, X2 + Y2) && Zero(p, X2 + -Y2) {
      BothZero(p, X2, Y2);
      NoZeroDivisors(p, X2, Y2);
      Sym(p, X2 * Y2, Z2 * T2);
      Trans(p, Z2 * T2, X2 * Y2, 0);
      NoZeroDivisors(p, Z2, T2);
    }
  }

  /** Neither denominator of the addition vanishes. */
  lemma Denominators(c: Curve, P: ExtPoint, Q: ExtPoint)
    requires Complete(c) && Point(c, P) && Point(c, Q)
    ensures !Zero(c.p, FF(c.d, P, Q)) && !Zero(c.p, GG(c.d, P, Q))
  {
    DenominatorF(c.p, c.d, P.X, P.Y, P.Z, P.T, Q.X, Q.Y, Q.Z, Q.T);
    DenominatorG(c.p, c.d, P.X, P.Y, P.Z, P.T, Q.X, Q.Y, Q.Z, Q.T);
  }

  lemma DenominatorF(p: nat, d: int, X1: int, Y1: int, Z1: int, T1: int, X2: int, Y2: int, Z2: int, T2: int)
    requires OddPrime(p) && OnCurve(p, d, X1, Y1, Z1, T1) && OnCurve(p, d, X2, Y2, Z2, T2)
    requires !Zero(p, Z1) && !Zero(p, Z2) && !IsSquare(p, d)
    ensures !Zero(p, Z1 * Z2 - d * T1 * T2)
  {
    DifferenceZero(p, Z1 * Z2, d * T1 * T2);
    if Cong(p, Z1 * Z2, d * T1 * T2) {
      Clash(p, d, X1, Y1, Z1, T1, X2, Y2, Z2, T2);
    }
  }

  lemma DenominatorG(p: nat, d: int, X1: int, Y1: int, Z1: int, T1: int, X2: int, Y2: int, Z2: int, T2: int)
    requires OddPrime(p) && OnCurve(p, d, X1, Y1, Z1, T1) && OnCurve(p, d, X2, Y2, Z2, T2)
    requires !Zero(p, Z1) && !Zero(p, Z2) && !IsSquare(p, d)
    ensures !Zero(p, Z1 * Z2 + d * T1 * T2)
  {
    FlipOnCurve(p, d, X1, Y1, Z1, T1);
    DenominatorF(p, d, X1, -Y1, Z1, -T1, X2, Y2, Z2, T2);
    SignsCancel(d, T1, T2);
  }

  lemma DifferenceZero(p: int, a: int, b: int)
    ensures Zero(p, a - b) ==> Cong(p, a, b)
    ensures Zero(p, a + b) ==> Cong(p, a, -b)
  {
    if Zero(p, a - b) { Intro(p, a, b, Witness(p, a - b, 0)); }
    if Zero(p, a + b) { Intro(p, a, -b, Witness(p, a + b, 0)); }
  }

  /** edwardsAdd keeps to the curve, whatever the modulus. */
  lemma AddClosed(c: Curve, P: ExtPoint, Q: ExtPoint)
    requires c.p > 0 && OnCurve(c.p, c.d, P.X, P.Y, P.Z, P.T) && OnCurve(c.p, c.d, Q.X, Q.Y, Q.Z, Q.T)
    ensures var R := EdwardsAdd(c, P, Q); OnCurve(c.p, c.d, R.X, R.Y, R.Z, R.T)
  {
    var (e, f, g, h) := (EE(P, Q), FF(c.d, P, Q), GG(c.d, P, Q), HH(P, Q));
    AddShape(c, P, Q);
    ClosedCoordinates(c.p, c.d, P.X, P.Y, P.Z, P.T, Q.X, Q.Y, Q.Z, Q.T);
    OnCurveCong(c.p, c.d, EdwardsAdd(c, P, Q), e * f, g * h, f * g, e * h);
  }

  /** edwardsAdd is complete: when d is not a square, the sum of any two points is a point. */
  lemma AddComplete(c: Curve, P: ExtPoint, Q: ExtPoint)
    requires Complete(c) && Point(c, P) && Point(c, Q)
    ensures Point(c, EdwardsAdd(c, P, Q))
  {
    AddClosed(c, P, Q);
    AddShape(c, P, Q);
    Denominators(c, P, Q);
    var f, g, R := FF(c.d, P, Q), GG(c.d, P, Q), EdwardsAdd(c, P, Q);
    NoZeroDivisors(c.p, f, g);
    if Zero(c.p, R.Z) {
      Sym(c.p, R.Z, f * g);
      Trans(c.p, f * g, R.Z, 0);
    }
  }
}
