/**
 The even points form a subgroup that is closed under the operations of the
 exchange, and addition and scaling respect cosets.
 */
module Subgroup {
  import opened ModArith
  import opened Residues
  import opened Edwards
  import opened GroupLaw
  import opened Points
  import opened Scalar
  import opened Decaf
  import opened Decoder
  import opened Cosets

  // ----- Evenness is a property of the projective point

  lemma EvenProj(c: Curve, P: ExtPoint, Q: ExtPoint)
    requires Complete(c) && Point(c, P) && Point(c, Q) && Even(c, P) && ProjEq(c, P, Q)
    ensures Even(c, Q)
  {
    ProjProportional(c, P, Q);
    RadicandScales(c.p, c.d, Q.Z, P.Y, P.Z, P.Z, Q.Y, Q.Z);
    SquareScales(c.p, Q.Z, (1 - c.d) * (P.Z * P.Z - P.Y * P.Y), P.Z, (1 - c.d) * (Q.Z * Q.Z - Q.Y * Q.Y));
  }

  lemma RadicandScales(p: int, d: int, l: int, Y: int, Z: int, m: int, Y': int, Z': int)
    requires Cong(p, l * Y, m * Y') && Cong(p, l * Z, m * Z')
    ensures Cong(p, (l * l) * ((1 - d) * (Z * Z - Y * Y)), (m * m) * ((1 - d) * (Z' * Z' - Y' * Y')))
  {
    ProductPair(p, l, Y, m, Y', l, Y, m, Y');
    ProductPair(p, l, Z, m, Z', l, Z, m, Z');
    SumPair(p, l * l, Z * Z, Y * Y, m * m, Z' * Z', Y' * Y');
    Refl(p, 1 - d);
    MulCong(p, 1 - d, 1 - d, (l * l) * (Z * Z - Y * Y), (m * m) * (Z' * Z' - Y' * Y'));
    ScaledTerms(l * l, 1 - d, Z * Z - Y * Y);
    ScaledTerms(m * m, 1 - d, Z' * Z' - Y' * Y');
  }

  lemma SquareScales(p: nat, l: int, r: int, m: int, r': int)
    requires IsPrime(p) && !Zero(p, m) && IsSquare(p, r) && Cong(p, (l * l) * r, (m * m) * r')
    ensures IsSquare(p, r')
  {
    var g :| IsRoot(p, g, r);
    Refl(p, l * l);
    MulCong(p, l * l, l * l, g * g, r);
    Trans(p, (l * l) * (g * g), (l * l) * r, (m * m) * r');
    ProductSquare(l, g);
    Commute(m * m, r');
    Assoc(r', m, m);
    SquareQuotient(p, r', m, l * g);
  }

  // ----- The radicand of a sum

  lemma NormF(d: int, Z1: int, T1: int, Z2: int, T2: int)
    ensures (Z1 * Z1 + d * T1 * T1) * (Z2 * Z2 + d * T2 * T2)
         == (Z1 * Z2 - d * T1 * T2) * (Z1 * Z2 - d * T1 * T2) + d * ((Z1 * T2 + T1 * Z2) * (Z1 * T2 + T1 * Z2))
  {
    NormZT(d, Z1, T1, Z2, 0 - T2);
    assert d * (0 - T2) * (0 - T2) == d * T2 * T2;
    assert d * T1 * (0 - T2) == -(d * T1 * T2) && Z1 * (0 - T2) == -(Z1 * T2);
    OppositeSquare(Z1 * T2 + T1 * Z2);
    Assoc(d, -(Z1 * T2) - T1 * Z2, -(Z1 * T2) - T1 * Z2);
  }

  /** F^2 - H^2 = E^2 - d J^2, where J = Z1 T2 + T1 Z2. */
  lemma SumGap(p: int, d: int, X1: int, Y1: int, Z1: int, T1: int, X2: int, Y2: int, Z2: int, T2: int)
    requires OnCurve(p, d, X1, Y1, Z1, T1) && OnCurve(p, d, X2, Y2, Z2, T2)
    ensures var (E, F, H, J) := (X1 * Y2 + Y1 * X2, Z1 * Z2 - d * T1 * T2, Y1 * Y2 - X1 * X2, Z1 * T2 + T1 * Z2);
            Cong(p, F * F - H * H, E * E - d * (J * J))
  {
    var (E, F, H, J) := (X1 * Y2 + Y1 * X2, Z1 * Z2 - d * T1 * T2, Y1 * Y2 - X1 * X2, Z1 * T2 + T1 * Z2);
    NormXY(X1, Y1, X2, Y2);
    NormF(d, Z1, T1, Z2, T2);
    MulCong(p, X1 * X1 + Y1 * Y1, Z1 * Z1 + d * T1 * T1, X2 * X2 + Y2 * Y2, Z2 * Z2 + d * T2 * T2);
    Combine(p, F * F - H * H, E * E - d * (J * J), -1, E * E + H * H, F * F + d * (J * J));
  }

  /** The rational identity behind the closure, with A = Y1^2, B = Y2^2 and z, w the squares of the Zs. */
  lemma EvenIdentity(d: int, A: int, z: int, B: int, w: int)
    ensures ((w - d * B) * (z - A)) * (z * B - d * (w * A)) + ((z - d * A) * (w - B)) * (w * A - d * (z * B))
         == (1 - d) * (((z - d * A) * (z - A)) * (B * w) + ((w - d * B) * (w - B)) * (A * z))
  {
    var (f, g, m, n) := (z * w, A * B, z * B, w * A);
    SwapPairs(z, w, A, B);
    EvenFactors(d, A, z, B, w);
    EvenRight(d, A, z, B, w, f, g, m, n);
    EvenRight(d, B, w, A, z, f, g, n, m);
    EvenCore(d, f, g, m, n,
      (w - d * B) * (z - A), (z - d * A) * (w - B), ((z - d * A) * (z - A)) * (B * w), ((w - d * B) * (w - B)) * (A * z));
  }

  lemma SwapPairs(z: int, w: int, A: int, B: int)
    ensures (z * B) * (w * A) == (z * w) * (A * B) && A * B == B * A && z * w == w * z
  {
  }

  lemma EvenFactors(d: int, A: int, z: int, B: int, w: int)
    ensures (w - d * B) * (z - A) == z * w - w * A - d * (z * B) + d * (A * B)
    ensures (z - d * A) * (w - B) == z * w - z * B - d * (w * A) + d * (A * B)
  {
  }

  lemma EvenRight(d: int, A: int, z: int, B: int, w: int, f: int, g: int, m: int, n: int)
    requires f == z * w && g == A * B && m == z * B && n == w * A
    ensures ((z - d * A) * (z - A)) * (B * w) == m * f - (1 + d) * (f * g) + d * (g * n)
  {
    EvenQuadratic(d, z, A);
    EvenMonomials(A, z, B, w);
    EvenRight'(z * z, (1 + d), z * A, d, A * A, B * w);
  }

  lemma EvenQuadratic(d: int, z: int, A: int)
    ensures (z - d * A) * (z - A) == z * z - (1 + d) * (z * A) + d * (A * A)
  {
  }

  lemma EvenMonomials(A: int, z: int, B: int, w: int)
    ensures (z * z) * (B * w) == (z * B) * (z * w) && (z * A) * (B * w) == (z * w) * (A * B)
    ensures (A * A) * (B * w) == (A * B) * (w * A)
  {
  }

  lemma EvenRight'(a: int, k: int, b: int, d: int, c: int, m: int)
    ensures (a - k * b + d * c) * m == a * m - k * (b * m) + d * (c * m)
  {
  }

  lemma EvenCore(d: int, f: int, g: int, m: int, n: int, l1: int, l2: int, r1: int, r2: int)
    requires m * n == f * g && l1 == f - n - d * m + d * g && l2 == f - m - d * n + d * g
    requires r1 == m * f - (1 + d) * (f * g) + d * (g * n) && r2 == n * f - (1 + d) * (f * g) + d * (g * m)
    ensures l1 * (m - d * n) + l2 * (n - d * m) == (1 - d) * (r1 + r2)
  {
    EvenCoreLeft(d, f, g, m, n);
    assert r1 + r2 == f * m + f * n + d * (g * m) + d * (g * n) - 2 * ((1 + d) * (m * n));
  }

  lemma EvenCoreLeft(d: int, f: int, g: int, m: int, n: int)
    ensures (f - n - d * m + d * g) * (m - d * n) + (f - m - d * n + d * g) * (n - d * m)
         == (1 - d) * (f * m + f * n + d * (g * m) + d * (g * n) - 2 * ((1 + d) * (m * n)))
  {
  }

  /** Z1^2 Z2^2 (E^2 - d J^2), with every T replaced by XY / Z. */
  lemma GapExpanded(p: int, d: int, X1: int, Y1: int, Z1: int, T1: int, X2: int, Y2: int, Z2: int, T2: int)
    requires Cong(p, X1 * Y1, Z1 * T1) && Cong(p, X2 * Y2, Z2 * T2)
    ensures var (E, J, z, w) := (X1 * Y2 + Y1 * X2, Z1 * T2 + T1 * Z2, Z1 * Z1, Z2 * Z2);
            var (A, B, x1, x2, k) := (Y1 * Y1, Y2 * Y2, X1 * X1, X2 * X2, (X1 * Y1) * (X2 * Y2));
            Cong(p, (z * w) * (E * E - d * (J * J)),
                 w * x1 * (z * B - d * (w * A)) + z * x2 * (w * A - d * (z * B)) + 2 * ((1 - d) * (k * (z * w))))
  {
    var (E, J, z, w) := (X1 * Y2 + Y1 * X2, Z1 * T2 + T1 * Z2, Z1 * Z1, Z2 * Z2);
    var (A, B, x1, x2, k) := (Y1 * Y1, Y2 * Y2, X1 * X1, X2 * X2, (X1 * Y1) * (X2 * Y2));
    var j := z * (X2 * Y2) + w * (X1 * Y1);
    GapJ(p, X1 * Y1, Z1, T1, X2 * Y2, Z2, T2);
    MulCong(p, (Z1 * Z2) * J, j, (Z1 * Z2) * J, j);
    ProductSquare(Z1 * Z2, J);
    ProductSquare(Z1, Z2);
    SquareOfE(X1, Y1, X2, Y2);
    ProductSquare(X1, Y1);
    ProductSquare(X2, Y2);
    GapTerms(d, z, w, x1, A, x2, B, k, X1 * Y1, X2 * Y2, E * E, J * J);
    Combine(p, (z * w) * (E * E - d * (J * J)),
      w * x1 * (z * B - d * (w * A)) + z * x2 * (w * A - d * (z * B)) + 2 * ((1 - d) * (k * (z * w))),
      -d, (z * w) * (J * J), j * j);
  }

  lemma GapJ(p: int, m: int, Z1: int, T1: int, n: int, Z2: int, T2: int)
    requires Cong(p, m, Z1 * T1) && Cong(p, n, Z2 * T2)
    ensures Cong(p, (Z1 * Z2) * (Z1 * T2 + T1 * Z2), (Z1 * Z1) * n + (Z2 * Z2) * m)
  {
    assert (Z1 * Z2) * (Z1 * T2 + T1 * Z2) == (Z1 * Z1) * (Z2 * T2) + (Z2 * Z2) * (Z1 * T1);
    Combine2(p, (Z1 * Z2) * (Z1 * T2 + T1 * Z2), (Z1 * Z1) * n + (Z2 * Z2) * m, -(Z1 * Z1), n, Z2 * T2, -(Z2 * Z2), m, Z1 * T1);
  }

  lemma SquareOfE(X1: int, Y1: int, X2: int, Y2: int)
    ensures (X1 * Y2 + Y1 * X2) * (X1 * Y2 + Y1 * X2)
         == (X1 * X1) * (Y2 * Y2) + (Y1 * Y1) * (X2 * X2) + 2 * ((X1 * Y1) * (X2 * Y2))
  {
  }

  lemma GapTerms(d: int, z: int, w: int, x1: int, A: int, x2: int, B: int, k: int, m: int, n: int, e: int, j: int)
    requires e == x1 * B + A * x2 + 2 * k && k == m * n && m * m == x1 * A && n * n == x2 * B
    ensures (z * w) * (e - d * j) - (w * x1 * (z * B - d * (w * A)) + z * x2 * (w * A - d * (z * B)) + 2 * ((1 - d) * (k * (z * w))))
         == -d * ((z * w) * j - (z * n + w * m) * (z * n + w * m))
  {
    GapSquare(z, w, m, n);
    GapLeft(d, z, w, x1, A, x2, B);
    assert (z * w) * (e - d * j) == (z * w) * e - d * ((z * w) * j);
    assert (z * w) * e == (z * w) * (x1 * B) + (z * w) * (A * x2) + 2 * (k * (z * w));
  }

  lemma GapSquare(z: int, w: int, m: int, n: int)
    ensures (z * n + w * m) * (z * n + w * m) == (z * z) * (n * n) + (w * w) * (m * m) + 2 * ((m * n) * (z * w))
  {
  }

  lemma GapLeft(d: int, z: int, w: int, x1: int, A: int, x2: int, B: int)
    ensures w * x1 * (z * B - d * (w * A)) == (z * w) * (x1 * B) - d * ((w * w) * (x1 * A))
    ensures z * x2 * (w * A - d * (z * B)) == (z * w) * (A * x2) - d * ((z * z) * (x2 * B))
  {
    GapLeftOne(d, z, w, x1, A, B);
    GapLeftOne(d, w, z, x2, B, A);
    Commute(z, w);
    Commute(A, x2);
  }

  lemma GapLeftOne(d: int, z: int, w: int, x: int, A: int, B: int)
    ensures w * x * (z * B - d * (w * A)) == (z * w) * (x * B) - d * ((w * w) * (x * A))
  {
  }

  /** K1 K2 times that, when X^2 K = Z^2 Q for both points, is (1-d) S^2. */
  lemma GapTimesK(p: int, d: int, k1: int, q1: int, x1: int, A: int, z: int, k2: int, q2: int, x2: int, B: int, w: int, t: int)
    requires k1 == z - d * A && q1 == z - A && k2 == w - d * B && q2 == w - B
    requires Cong(p, x1 * k1, z * q1) && Cong(p, x2 * k2, w * q2)
    ensures Cong(p, (k1 * k2) * (w * x1 * (z * B - d * (w * A)) + z * x2 * (w * A - d * (z * B)) + 2 * ((1 - d) * (t * (z * w)))),
                 (1 - d) * (x1 * k1 * (k1 * (B * (w * w))) + x2 * k2 * (k2 * (A * (z * z))) + 2 * ((k1 * k2) * (t * (z * w)))))
  {
    var (a, b, k) := (z * B - d * (w * A), w * A - d * (z * B), 1 - d);
    var c1 := k2 * (w * a) - k * (k1 * (B * (w * w)));
    var c2 := k1 * (z * b) - k * (k2 * (A * (z * z)));
    EvenIdentity(d, A, z, B, w);
    GapCancel(k, z, q1, k2, a, k1, B, w, q2, b, A);
    GapRegroup(k1, k2, x1, x2, a, b, w, z, k, t * (z * w), k1 * (B * (w * w)), k2 * (A * (z * z)));
    GapSplit(x1 * k1, z * q1, c1, x2 * k2, w * q2, c2);
    Combine2(p, (k1 * k2) * (w * x1 * a + z * x2 * b + 2 * (k * (t * (z * w)))),
      k * (x1 * k1 * (k1 * (B * (w * w))) + x2 * k2 * (k2 * (A * (z * z))) + 2 * ((k1 * k2) * (t * (z * w)))),
      c1, x1 * k1, z * q1, c2, x2 * k2, w * q2);
  }

  lemma GapSplit(u: int, u': int, c: int, v: int, v': int, e: int)
    requires u' * c + v' * e == 0
    ensures u * c + v * e == c * (u - u') + e * (v - v')
  {
    assert c * (u - u') == u * c - u' * c;
    assert e * (v - v') == v * e - v' * e;
  }

  lemma GapRegroup(k1: int, k2: int, x1: int, x2: int, a: int, b: int, w: int, z: int, k: int, t: int, r1: int, r2: int)
    ensures (k1 * k2) * (w * x1 * a + z * x2 * b + 2 * (k * t)) - k * (x1 * k1 * r1 + x2 * k2 * r2 + 2 * ((k1 * k2) * t))
         == (x1 * k1) * (k2 * (w * a) - k * r1) + (x2 * k2) * (k1 * (z * b) - k * r2)
  {
    ThreeTerms(k1 * k2, w * x1 * a, z * x2 * b, 2 * (k * t));
    ThreeTerms(k, x1 * k1 * r1, x2 * k2 * r2, 2 * ((k1 * k2) * t));
    RegroupOne(k1, k2, w, x1, a);
    RegroupOne(k2, k1, z, x2, b);
    Commute(k1, k2);
    assert (k1 * k2) * (2 * (k * t)) == k * (2 * ((k1 * k2) * t));
    SumTerms(x1 * k1, k2 * (w * a), k * r1);
    SumTerms(x2 * k2, k1 * (z * b), k * r2);
    ScaledTerms(k, x1 * k1, r1);
    ScaledTerms(k, x2 * k2, r2);
  }

  lemma RegroupOne(k1: int, k2: int, w: int, x: int, a: int)
    ensures (k1 * k2) * (w * x * a) == (x * k1) * (k2 * (w * a))
  {
  }

  lemma GapCancel(k: int, z: int, q1: int, k2: int, a: int, k1: int, B: int, w: int, q2: int, b: int, A: int)
    requires (k2 * q1) * a + (k1 * q2) * b == k * ((k1 * q1) * (B * w) + (k2 * q2) * (A * z))
    ensures (z * q1) * (k2 * (w * a) - k * (k1 * (B * (w * w)))) + (w * q2) * (k1 * (z * b) - k * (k2 * (A * (z * z)))) == 0
  {
    CancelOne(z, q1, k2, w, a, k, k1, B);
    CancelOne(w, q2, k1, z, b, k, k2, A);
    Commute(z, w);
    CancelSum(z * w, (k2 * q1) * a, (k1 * q2) * b, k, (k1 * q1) * (B * w), (k2 * q2) * (A * z));
  }

  lemma CancelOne(z: int, q: int, k2: int, w: int, a: int, k: int, k1: int, B: int)
    ensures (z * q) * (k2 * (w * a) - k * (k1 * (B * (w * w)))) == (z * w) * ((k2 * q) * a) - (z * w) * (k * ((k1 * q) * (B * w)))
  {
    SumTerms(z * q, k2 * (w * a), k * (k1 * (B * (w * w))));
    assert (z * q) * (k2 * (w * a)) == (z * w) * ((k2 * q) * a);
    CancelMonomial(z, q, k, k1, B, w);
  }

  lemma CancelMonomial(z: int, q: int, k: int, k1: int, B: int, w: int)
    ensures (z * q) * (k * (k1 * (B * (w * w)))) == (z * w) * (k * ((k1 * q) * (B * w)))
  {
  }

  lemma CancelSum(m: int, u: int, v: int, k: int, r: int, s: int)
    requires u + v == k * (r + s)
    ensures m * u - m * (k * r) + (m * v - m * (k * s)) == 0
  {
    assert m * u - m * (k * r) + (m * v - m * (k * s)) == m * (u + v - k * (r + s));
  }

  // ----- The sum of even points is even

  /** If u W = m^2, and u k^2 is a nonzero square, then W is a square. */
  lemma SquareByFactor(p: nat, W: int, u: int, m: int, k: int, n: int)
    requires IsPrime(p) && !Zero(p, n) && Cong(p, u * W, m * m) && Cong(p, u * (k * k), n * n)
    ensures IsSquare(p, W)
  {
    Refl(p, k * k);
    Refl(p, W);
    MulCong(p, u * W, m * m, k * k, k * k);
    MulCong(p, u * (k * k), n * n, W, W);
    ProductSquare(m, k);
    assert (u * W) * (k * k) == (u * (k * k)) * W;
    Sym(p, (u * W) * (k * k), (m * k) * (m * k));
    Trans(p, (m * k) * (m * k), (u * W) * (k * k), (n * n) * W);
    Commute(n * n, W);
    Assoc(W, n, n);
    SquareQuotient(p, W, n, m * k);
  }

  ghost function SumRoot(d: int, X1: int, Y1: int, Z1: int, X2: int, Y2: int, Z2: int): int {
    X1 * (Z1 * Z1 - d * (Y1 * Y1)) * (Y2 * (Z2 * Z2)) + X2 * (Z2 * Z2 - d * (Y2 * Y2)) * (Y1 * (Z1 * Z1))
  }

  lemma SumRootSquare(X1: int, k1: int, Y2: int, w: int, X2: int, k2: int, Y1: int, z: int)
    ensures (X1 * k1 * (Y2 * w) + X2 * k2 * (Y1 * z)) * (X1 * k1 * (Y2 * w) + X2 * k2 * (Y1 * z))
         == X1 * X1 * k1 * (k1 * (Y2 * Y2 * (w * w))) + X2 * X2 * k2 * (k2 * (Y1 * Y1 * (z * z)))
            + 2 * ((k1 * k2) * ((X1 * Y1) * (X2 * Y2) * (z * w)))
  {
    var (a, b) := (X1 * k1 * (Y2 * w), X2 * k2 * (Y1 * z));
    BinomialSquare(a, b);
    SquareFour(X1, k1, Y2, w);
    SquareFour(X2, k2, Y1, z);
    CrossFour(X1, k1, Y2, w, X2, k2, Y1, z);
  }

  lemma SquareFour(a: int, b: int, c: int, e: int)
    ensures (a * b * (c * e)) * (a * b * (c * e)) == a * a * b * (b * (c * c * (e * e)))
  {
    ProductSquare(a * b, c * e);
    ProductSquare(a, b);
    ProductSquare(c, e);
    SquareFour'(a * a, b, (c * c) * (e * e));
  }

  lemma SquareFour'(a: int, b: int, c: int)
    ensures (a * (b * b)) * c == a * b * (b * c)
  {
  }

  lemma CrossFour(X1: int, k1: int, Y2: int, w: int, X2: int, k2: int, Y1: int, z: int)
    ensures (X1 * k1 * (Y2 * w)) * (X2 * k2 * (Y1 * z)) == (k1 * k2) * ((X1 * Y1) * (X2 * Y2) * (z * w))
  {
    Cross(X1 * k1, Y2 * w, X2 * k2, Y1 * z);
    Cross(X1, k1, X2, k2);
    Cross(Y2, w, Y1, z);
    CrossLast(X1 * X2, k1 * k2, Y2 * Y1, w * z, (X1 * Y1) * (X2 * Y2), z * w, X1, Y1, X2, Y2);
  }

  lemma Cross(a: int, b: int, c: int, e: int)
    ensures (a * b) * (c * e) == (a * c) * (b * e)
  {
  }

  lemma CrossLast(x: int, k: int, y: int, w: int, m: int, w': int, X1: int, Y1: int, X2: int, Y2: int)
    requires x == X1 * X2 && y == Y2 * Y1 && m == (X1 * Y1) * (X2 * Y2) && w == w'
    ensures (x * k) * (y * w) == k * (m * w')
  {
    Cross(X1, Y1, X2, Y2);
    assert x * y == m;
    assert (x * k) * (y * w) == k * ((x * y) * w);
  }

  /** K1 K2 Z1^2 Z2^2 (1-d)(E^2 - d J^2) is a square: it is ((1-d) S)^2. */
  lemma SumSquare(p: int, d: int, X1: int, Y1: int, Z1: int, T1: int, X2: int, Y2: int, Z2: int, T2: int)
    requires OnCurve(p, d, X1, Y1, Z1, T1) && OnCurve(p, d, X2, Y2, Z2, T2)
    ensures var (z, w, E, J) := (Z1 * Z1, Z2 * Z2, X1 * Y2 + Y1 * X2, Z1 * T2 + T1 * Z2);
            var (k1, k2, s) := (z - d * (Y1 * Y1), w - d * (Y2 * Y2), (1 - d) * SumRoot(d, X1, Y1, Z1, X2, Y2, Z2));
            Cong(p, ((k1 * k2) * (z * w)) * ((1 - d) * (E * E - d * (J * J))), s * s)
  {
    var (z, w, E, J) := (Z1 * Z1, Z2 * Z2, X1 * Y2 + Y1 * X2, Z1 * T2 + T1 * Z2);
    var (A, B, x1, x2, t) := (Y1 * Y1, Y2 * Y2, X1 * X1, X2 * X2, (X1 * Y1) * (X2 * Y2));
    var (k1, k2, k, r) := (z - d * A, w - d * B, 1 - d, SumRoot(d, X1, Y1, Z1, X2, Y2, Z2));
    var v := E * E - d * (J * J);
    CurveSquares(p, d, X1, Y1, Z1, T1);
    CurveSquares(p, d, X2, Y2, Z2, T2);
    GapExpanded(p, d, X1, Y1, Z1, T1, X2, Y2, Z2, T2);
    var m := w * x1 * (z * B - d * (w * A)) + z * x2 * (w * A - d * (z * B)) + 2 * (k * (t * (z * w)));
    GapTimesK(p, d, k1, z - A, x1, A, z, k2, w - B, x2, B, w, t);
    SumRootSquare(X1, k1, Y2, w, X2, k2, Y1, z);
    SumSquareFinish(p, k1 * k2, z * w, v, m, k, r);
  }

  lemma SumSquareFinish(p: int, kk: int, zw: int, v: int, m: int, k: int, r: int)
    requires Cong(p, zw * v, m) && Cong(p, kk * m, k * (r * r))
    ensures Cong(p, (kk * zw) * (k * v), (k * r) * (k * r))
  {
    Refl(p, kk);
    Refl(p, k);
    MulCong(p, kk, kk, zw * v, m);
    Trans(p, kk * (zw * v), kk * m, k * (r * r));
    MulCong(p, k, k, kk * (zw * v), k * (r * r));
    ProductSquare(k, r);
    Assoc(k, k, r * r);
    assert k * (kk * (zw * v)) == (kk * zw) * (k * v);
  }

  /** Z^2 K ((1-d) X)^2 is (1-d) times the square of Z^2 g, where g^2 = (1-d)(Z^2 - Y^2). */
  lemma FactorSquare(p: int, k: int, K: int, x: int, z: int, q: int, g: int)
    requires Cong(p, x * K, z * q) && Cong(p, g * g, k * q)
    ensures Cong(p, k * (x * K), z * (g * g))
  {
    Refl(p, k);
    Refl(p, z);
    MulCong(p, k, k, x * K, z * q);
    MulCong(p, z, z, g * g, k * q);
    ScaledTerms(k, z, q);
    Sym(p, z * (g * g), z * (k * q));
    Trans(p, k * (x * K), k * (z * q), z * (g * g));
  }

  lemma FactorsSquare(p: int, k: int, K1: int, X1: int, z: int, g1: int, K2: int, X2: int, w: int, g2: int)
    requires Cong(p, k * ((X1 * X1) * K1), z * (g1 * g1)) && Cong(p, k * ((X2 * X2) * K2), w * (g2 * g2))
    ensures var (h, n) := (k * (X1 * X2), (z * w) * (g1 * g2)); Cong(p, ((K1 * K2) * (z * w)) * (h * h), n * n)
  {
    var (h, n) := (k * (X1 * X2), (z * w) * (g1 * g2));
    MulCong(p, k * ((X1 * X1) * K1), z * (g1 * g1), k * ((X2 * X2) * K2), w * (g2 * g2));
    Refl(p, z * w);
    MulCong(p, z * w, z * w, (k * ((X1 * X1) * K1)) * (k * ((X2 * X2) * K2)), (z * (g1 * g1)) * (w * (g2 * g2)));
    FactorTerms1(k, X1, K1, X2, K2, z * w);
    FactorTerms2(z, w, g1, g2);
  }

  lemma FactorTerms1(k: int, X1: int, K1: int, X2: int, K2: int, m: int)
    ensures ((K1 * K2) * m) * ((k * (X1 * X2)) * (k * (X1 * X2))) == m * ((k * ((X1 * X1) * K1)) * (k * ((X2 * X2) * K2)))
  {
    ProductSquare(k, X1 * X2);
    ProductSquare(X1, X2);
    FactorTerms1'(k, X1 * X1, K1, X2 * X2, K2, m);
  }

  lemma FactorTerms1'(k: int, x1: int, K1: int, x2: int, K2: int, m: int)
    ensures ((K1 * K2) * m) * ((k * k) * (x1 * x2)) == m * ((k * (x1 * K1)) * (k * (x2 * K2)))
  {
    Cross(k, x1 * K1, k, x2 * K2);
    Cross(x1, K1, x2, K2);
    FactorTerms1''(K1 * K2, m, k * k, x1 * x2);
  }

  lemma FactorTerms1''(kk: int, m: int, k: int, x: int)
    ensures (kk * m) * (k * x) == m * (k * (x * kk))
  {
  }

  lemma FactorTerms2(z: int, w: int, g1: int, g2: int)
    ensures (z * w) * ((z * (g1 * g1)) * (w * (g2 * g2))) == ((z * w) * (g1 * g2)) * ((z * w) * (g1 * g2))
  {
    Cross(z, g1 * g1, w, g2 * g2);
    ProductSquare(z * w, g1 * g2);
    ProductSquare(g1, g2);
    Assoc(z * w, z * w, (g1 * g1) * (g2 * g2));
  }

  lemma SumEvenGeneric(p: nat, d: int, X1: int, Y1: int, Z1: int, T1: int, X2: int, Y2: int, Z2: int, T2: int)
    requires IsPrime(p) && !IsSquare(p, d) && !Zero(p, 1 - d)
    requires OnCurve(p, d, X1, Y1, Z1, T1) && OnCurve(p, d, X2, Y2, Z2, T2)
    requires !Zero(p, X1) && !Zero(p, Z1) && !Zero(p, X2) && !Zero(p, Z2)
    requires IsSquare(p, (1 - d) * (Z1 * Z1 - Y1 * Y1)) && IsSquare(p, (1 - d) * (Z2 * Z2 - Y2 * Y2))
    ensures var (E, J) := (X1 * Y2 + Y1 * X2, Z1 * T2 + T1 * Z2); IsSquare(p, (1 - d) * (E * E - d * (J * J)))
  {
    var (z, w, E, J, k) := (Z1 * Z1, Z2 * Z2, X1 * Y2 + Y1 * X2, Z1 * T2 + T1 * Z2, 1 - d);
    var (k1, k2) := (z - d * (Y1 * Y1), w - d * (Y2 * Y2));
    var g1 := RadicandRoot(p, d, X1, Y1, Z1, T1);
    var g2 := RadicandRoot(p, d, X2, Y2, Z2, T2);
    FactorsSquare(p, k, k1, X1, z, g1, k2, X2, w, g2);
    SumSquare(p, d, X1, Y1, Z1, T1, X2, Y2, Z2, T2);
    NoZeroDivisors(p, Z1, Z1);
    NoZeroDivisors(p, Z2, Z2);
    NoZeroDivisors(p, z, w);
    NoZeroDivisors(p, g1, g2);
    NoZeroDivisors(p, z * w, g1 * g2);
    SquareByFactor(p, k * (E * E - d * (J * J)), (k1 * k2) * (z * w), k * SumRoot(d, X1, Y1, Z1, X2, Y2, Z2),
      k * (X1 * X2), (z * w) * (g1 * g2));
  }

  lemma RadicandRoot(p: nat, d: int, X: int, Y: int, Z: int, T: int) returns (g: int)
    requires IsPrime(p) && !IsSquare(p, d) && !Zero(p, 1 - d) && OnCurve(p, d, X, Y, Z, T) && !Zero(p, X) && !Zero(p, Z)
    requires IsSquare(p, (1 - d) * (Z * Z - Y * Y))
    ensures !Zero(p, g) && Cong(p, (1 - d) * ((X * X) * (Z * Z - d * (Y * Y))), (Z * Z) * (g * g))
  {
    var (k, q) := (1 - d, Z * Z - Y * Y);
    g :| IsRoot(p, g, k * q);
    XZeroIff(p, d, X, Y, Z, T);
    NoZeroDivisors(p, k, q);
    NonzeroCong(p, g * g, k * q);
    NoZeroDivisors(p, g, g);
    CurveSquares(p, d, X, Y, Z, T);
    FactorSquare(p, k, Z * Z - d * (Y * Y), X * X, Z * Z, q, g);
  }

  lemma SumEvenAxis(p: nat, d: int, X1: int, Y1: int, Z1: int, T1: int, X2: int, Y2: int, Z2: int, T2: int)
    requires IsPrime(p) && !IsSquare(p, d) && Zero(p, X1) && !Zero(p, Z1)
    requires OnCurve(p, d, X1, Y1, Z1, T1) && OnCurve(p, d, X2, Y2, Z2, T2)
    requires IsSquare(p, (1 - d) * (Z2 * Z2 - Y2 * Y2))
    ensures var (E, J) := (X1 * Y2 + Y1 * X2, Z1 * T2 + T1 * Z2); IsSquare(p, (1 - d) * (E * E - d * (J * J)))
  {
    var (E, J, k, q) := (X1 * Y2 + Y1 * X2, Z1 * T2 + T1 * Z2, 1 - d, Z2 * Z2 - Y2 * Y2);
    XZeroIff(p, d, X1, Y1, Z1, T1);
    NoZeroDivisors(p, X1, Y1);
    NonzeroCong(p, X1 * Y1, Z1 * T1);
    NoZeroDivisors(p, Z1, T1);
    AxisSums(p, X1, Y1, Z1, T1, X2, Y2, Z2, T2);
    AxisGap(p, d, E * E, J * J, Y1 * Y1, Z1 * Z1, X2 * X2, Y2 * Y2, Z2 * Z2, T2 * T2);
    Refl(p, k);
    MulCong(p, k, k, E * E - d * (J * J), (Z1 * Z1) * q);
    ScaledTerms(k, Z1 * Z1, q);
    SquareTimesSquare(p, k * q, Z1);
    Commute(k * q, Z1 * Z1);
    ScaledTerms(Z1 * Z1, k, q);
    SquareCong(p, k * (E * E - d * (J * J)), k * ((Z1 * Z1) * q));
  }

  lemma AxisSums(p: int, X1: int, Y1: int, Z1: int, T1: int, X2: int, Y2: int, Z2: int, T2: int)
    requires Zero(p, X1) && Zero(p, T1)
    ensures var (E, J) := (X1 * Y2 + Y1 * X2, Z1 * T2 + T1 * Z2);
            Cong(p, E * E, (Y1 * Y1) * (X2 * X2)) && Cong(p, J * J, (Z1 * Z1) * (T2 * T2))
  {
    var (E, J) := (X1 * Y2 + Y1 * X2, Z1 * T2 + T1 * Z2);
    Combine(p, E, Y1 * X2, Y2, X1, 0);
    Combine(p, J, Z1 * T2, Z2, T1, 0);
    MulCong(p, E, Y1 * X2, E, Y1 * X2);
    MulCong(p, J, Z1 * T2, J, Z1 * T2);
    ProductSquare(Y1, X2);
    ProductSquare(Z1, T2);
  }

  lemma AxisGap(p: int, d: int, e: int, j: int, A: int, z: int, x: int, B: int, w: int, t: int)
    requires Cong(p, e, A * x) && Cong(p, j, z * t) && Zero(p, z - A)
    requires exists T :: t == T * T && Cong(p, x + B, w + d * T * T)
    ensures Cong(p, e - d * j, z * (w - B))
  {
    var T :| t == T * T && Cong(p, x + B, w + d * T * T);
    Assoc(d, T, T);
    Refl(p, d);
    MulCong(p, d, d, j, z * t);
    AddCong(p, e, A * x, d * j, d * (z * t));
    AxisTerms(d, A, z, x, B, w, t);
    Combine2(p, A * x - d * (z * t), z * (w - B), -x, z - A, 0, z, x + B, w + d * t);
    Trans(p, e - d * j, A * x - d * (z * t), z * (w - B));
  }

  lemma AxisTerms(d: int, A: int, z: int, x: int, B: int, w: int, t: int)
    ensures A * x - d * (z * t) - z * (w - B) == -x * (z - A - 0) + z * ((x + B) - (w + d * t))
  {
    assert z * ((x + B) - (w + d * t)) == z * x + z * B - z * w - d * (z * t);
  }

  lemma SumEven(p: nat, d: int, X1: int, Y1: int, Z1: int, T1: int, X2: int, Y2: int, Z2: int, T2: int)
    requires IsPrime(p) && !IsSquare(p, d) && !Zero(p, 1 - d) && !Zero(p, Z1) && !Zero(p, Z2)
    requires OnCurve(p, d, X1, Y1, Z1, T1) && OnCurve(p, d, X2, Y2, Z2, T2)
    requires IsSquare(p, (1 - d) * (Z1 * Z1 - Y1 * Y1)) && IsSquare(p, (1 - d) * (Z2 * Z2 - Y2 * Y2))
    ensures var (E, J) := (X1 * Y2 + Y1 * X2, Z1 * T2 + T1 * Z2); IsSquare(p, (1 - d) * (E * E - d * (J * J)))
  {
    if Zero(p, X1) {
      SumEvenAxis(p, d, X1, Y1, Z1, T1, X2, Y2, Z2, T2);
    } else if Zero(p, X2) {
      SumEvenAxis(p, d, X2, Y2, Z2, T2, X1, Y1, Z1, T1);
      SwapSums(X1, Y1, Z1, T1, X2, Y2, Z2, T2);
    } else {
      SumEvenGeneric(p, d, X1, Y1, Z1, T1, X2, Y2, Z2, T2);
    }
  }

  lemma SwapSums(X1: int, Y1: int, Z1: int, T1: int, X2: int, Y2: int, Z2: int, T2: int)
    ensures X2 * Y1 + Y2 * X1 == X1 * Y2 + Y1 * X2 && Z2 * T1 + T2 * Z1 == Z1 * T2 + T1 * Z2
  {
  }

  /** The even points are closed under edwardsAdd. */
  lemma EvenAdd(c: Curve, P: ExtPoint, Q: ExtPoint)
    requires Params(c) && Point(c, P) && Point(c, Q) && Even(c, P) && Even(c, Q)
    ensures Point(c, EdwardsAdd(c, P, Q)) && Even(c, EdwardsAdd(c, P, Q))
  {
    var p, d, S := c.p, c.d, EdwardsAdd(c, P, Q);
    AddComplete(c, P, Q);
    AddShape(c, P, Q);
    Denominators(c, P, Q);
    OneMinusD(c);
    SumEven(p, d, P.X, P.Y, P.Z, P.T, Q.X, Q.Y, Q.Z, Q.T);
    SumGap(p, d, P.X, P.Y, P.Z, P.T, Q.X, Q.Y, Q.Z, Q.T);
    var (e, j) := (EE(P, Q), P.Z * Q.T + P.T * Q.Z);
    RadicandOfSum(p, d, FF(d, P, Q), GG(d, P, Q), HH(P, Q), e * e - d * (j * j), S.Y, S.Z);
  }

  lemma RadicandOfSum(p: nat, d: int, f: int, g: int, h: int, v: int, y: int, z: int)
    requires IsPrime(p) && !Zero(p, g) && Cong(p, y, g * h) && Cong(p, z, f * g)
    requires Cong(p, f * f - h * h, v) && IsSquare(p, (1 - d) * v)
    ensures IsSquare(p, (1 - d) * (z * z - y * y))
  {
    var k := 1 - d;
    RadicandCong(p, d, y, g * h, z, f * g);
    ProductSquare(g, h);
    ProductSquare(f, g);
    assert k * ((f * f) * (g * g) - (g * g) * (h * h)) == (k * (f * f - h * h)) * (g * g) by {
      RadicandTerms3(k, f * f, g * g, h * h);
    }
    Refl(p, k);
    MulCong(p, k, k, f * f - h * h, v);
    SquareCong(p, k * (f * f - h * h), k * v);
    SquareTimesSquare(p, k * (f * f - h * h), g);
    SquareCong(p, k * (z * z - y * y), k * ((f * f) * (g * g) - (g * g) * (h * h)));
  }

  lemma RadicandTerms3(k: int, f: int, g: int, h: int)
    ensures k * (f * g - g * h) == (k * (f - h)) * g
  {
  }

  lemma EvenIdentityPoint(c: Curve)
    requires Params(c)
    ensures Even(c, Identity(c))
  {
    IdentityPoint(c);
    Refl(c.p, 0);
    assert IsRoot(c.p, 0, (1 - c.d) * (1 * 1 - 1 * 1));
  }

  lemma {:induction false} EvenTimes(c: Curve, P: ExtPoint, k: nat)
    requires Params(c) && Point(c, P) && Even(c, P)
    ensures Point(c, Times(c, P, k)) && Even(c, Times(c, P, k))
  {
    if k == 0 {
      IdentityPoint(c);
      EvenIdentityPoint(c);
    } else {
      EvenTimes(c, P, k - 1);
      EvenAdd(c, Times(c, P, k - 1), P);
    }
  }

  lemma EvenScale(c: Curve, P: ExtPoint, s: int)
    requires Params(c) && Point(c, P) && Even(c, P)
    ensures Point(c, Scale(c, P, s)) && Even(c, Scale(c, P, s))
  {
    var k := Copies(s);
    ScaleIsTimes(c, P, s);
    EvenTimes(c, P, k);
    ProjSym(c, Scale(c, P, s), Times(c, P, k));
    EvenProj(c, Times(c, P, k), Scale(c, P, s));
  }

  // ----- Cosets form a group

  lemma StandsProj(c: Curve, P: ExtPoint, Q: ExtPoint, X: int, Y: int, Z: int, T: int, T': int)
    requires Stands(c.p, P, X, Y, Z, T) && Stands(c.p, Q, X, Y, Z, T')
    ensures ProjEq(c, P, Q)
  {
    CrossStands(c.p, P.X, X, P.Z, Z, Q.X, Q.Z);
    CrossStands(c.p, P.Y, Y, P.Z, Z, Q.Y, Q.Z);
  }

  lemma CrossStands(p: int, x: int, X: int, z: int, Z: int, x': int, z': int)
    requires Cong(p, x, X) && Cong(p, z, Z) && Cong(p, x', X) && Cong(p, z', Z)
    ensures Cong(p, x * z', x' * z)
  {
    MulCong(p, x, X, z', Z);
    MulCong(p, x', X, z, Z);
    Sym(p, x' * z, X * Z);
    Trans(p, x * z', X * Z, x' * z);
  }

  /** (-P) + Q, opposites taken, is the opposite of P + Q. */
  lemma FlipAdd(c: Curve, P: ExtPoint, Q: ExtPoint)
    requires c.p > 0
    ensures ProjEq(c, EdwardsAdd(c, Flip(c, P), Q), Flip(c, EdwardsAdd(c, P, Q)))
  {
    var p, d, N, S := c.p, c.d, Flip(c, P), EdwardsAdd(c, P, Q);
    var (e, f, g, h) := (EE(P, Q), FF(d, P, Q), GG(d, P, Q), HH(P, Q));
    FlipStands(c, P);
    FormsStand(p, d, N, 0 - P.X, 0 - P.Y, P.Z, P.T, Q);
    AddShape(c, P, Q);
    AddShape(c, N, Q);
    FlipForms(P.X, P.Y, Q.X, Q.Y);
    FlipProduct(p, EE(N, Q), e, FF(d, N, Q), f);
    FlipProduct(p, HH(N, Q), h, GG(d, N, Q), g);
    Commute(HH(N, Q), GG(d, N, Q));
    Commute(h, g);
    MulCong(p, FF(d, N, Q), f, GG(d, N, Q), g);
    var A := EdwardsAdd(c, N, Q);
    Trans(p, A.X, EE(N, Q) * FF(d, N, Q), 0 - e * f);
    Trans(p, A.Y, GG(d, N, Q) * HH(N, Q), 0 - g * h);
    Trans(p, A.Z, FF(d, N, Q) * GG(d, N, Q), f * g);
    FlipStands(c, S);
    OppositeCong(p, S.X, e * f);
    OppositeCong(p, S.Y, g * h);
    var F := Flip(c, S);
    Trans(p, F.X, 0 - S.X, 0 - e * f);
    Trans(p, F.Y, 0 - S.Y, 0 - g * h);
    Refl(p, A.T);
    Refl(p, F.T);
    StandsProj(c, A, F, 0 - e * f, 0 - g * h, f * g, A.T, F.T);
  }

  lemma OppositeCong(p: int, a: int, b: int)
    requires Cong(p, a, b)
    ensures Cong(p, 0 - a, 0 - b)
  {
    Refl(p, 0);
    AddCong(p, 0, 0, a, b);
  }

  lemma FlipForms(X1: int, Y1: int, X2: int, Y2: int)
    ensures (0 - X1) * Y2 + (0 - Y1) * X2 == 0 - (X1 * Y2 + Y1 * X2)
    ensures (0 - Y1) * Y2 - (0 - X1) * X2 == 0 - (Y1 * Y2 - X1 * X2)
  {
  }

  lemma FlipProduct(p: int, e': int, e: int, f': int, f: int)
    requires Cong(p, e', 0 - e) && Cong(p, f', f)
    ensures Cong(p, e' * f', 0 - e * f)
  {
    MulCong(p, e', 0 - e, f', f);
    assert (0 - e) * f == 0 - e * f;
  }

  lemma FlipProj(c: Curve, P: ExtPoint, Q: ExtPoint)
    requires c.p > 0 && ProjEq(c, P, Q)
    ensures ProjEq(c, Flip(c, P), Flip(c, Q))
  {
    FlipStands(c, P);
    FlipStands(c, Q);
    OppositeCross(c.p, Flip(c, P).X, P.X, Q.Z, Flip(c, Q).X, Q.X, P.Z);
    OppositeCross(c.p, Flip(c, P).Y, P.Y, Q.Z, Flip(c, Q).Y, Q.Y, P.Z);
  }

  lemma OppositeCross(p: int, a: int, x: int, z': int, b: int, x': int, z: int)
    requires Cong(p, a, 0 - x) && Cong(p, b, 0 - x') && Cong(p, x * z', x' * z)
    ensures Cong(p, a * z', b * z)
  {
    Refl(p, z);
    Refl(p, z');
    FlipProduct(p, a, x, z', z');
    FlipProduct(p, b, x', z, z);
    OppositeCong(p, x * z', x' * z);
    Sym(p, b * z, 0 - x' * z);
    Trans(p, a * z', 0 - x * z', 0 - x' * z);
    Trans(p, a * z', 0 - x' * z, b * z);
  }

  lemma FlipFlip(c: Curve, P: ExtPoint)
    requires c.p > 0
    ensures ProjEq(c, Flip(c, Flip(c, P)), P)
  {
    var Q := Flip(c, P);
    FlipStands(c, P);
    FlipStands(c, Q);
    OppositeCong(c.p, Q.X, 0 - P.X);
    OppositeCong(c.p, Q.Y, 0 - P.Y);
    Trans(c.p, Flip(c, Q).X, 0 - Q.X, P.X);
    Trans(c.p, Flip(c, Q).Y, 0 - Q.Y, P.Y);
    Refls(c.p, P);
    StandsProj(c, Flip(c, Q), P, P.X, P.Y, P.Z, P.T, P.T);
  }

  lemma CosetSym(c: Curve, P: ExtPoint, Q: ExtPoint)
    requires IsPrime(c.p) && Point(c, P) && Point(c, Q) && CosetEq(c, P, Q)
    ensures CosetEq(c, Q, P)
  {
    if ProjEq(c, P, Q) {
      ProjSym(c, P, Q);
    } else {
      FlipIsPoint(c, P);
      FlipIsPoint(c, Q);
      FlipIsPoint(c, Flip(c, Q));
      FlipProj(c, P, Flip(c, Q));
      FlipFlip(c, Q);
      ProjTrans(c, Flip(c, P), Flip(c, Flip(c, Q)), Q);
      ProjSym(c, Flip(c, P), Q);
    }
  }

  lemma CosetTrans(c: Curve, P: ExtPoint, Q: ExtPoint, R: ExtPoint)
    requires IsPrime(c.p) && Point(c, Q) && Point(c, R) && CosetEq(c, P, Q) && CosetEq(c, Q, R)
    ensures CosetEq(c, P, R)
  {
    FlipIsPoint(c, Q);
    FlipIsPoint(c, R);
    if ProjEq(c, P, Q) {
      if ProjEq(c, Q, R) {
        ProjTrans(c, P, Q, R);
      } else {
        ProjTrans(c, P, Q, Flip(c, R));
      }
    } else if ProjEq(c, Q, R) {
      FlipProj(c, Q, R);
      ProjTrans(c, P, Flip(c, Q), Flip(c, R));
    } else {
      FlipProj(c, Q, Flip(c, R));
      FlipIsPoint(c, Flip(c, R));
      FlipFlip(c, R);
      ProjTrans(c, P, Flip(c, Q), Flip(c, Flip(c, R)));
      ProjTrans(c, P, Flip(c, Flip(c, R)), R);
    }
  }

  /** Adding a point respects cosets. */
  lemma CosetAdd(c: Curve, P: ExtPoint, P': ExtPoint, Q: ExtPoint)
    requires Complete(c) && Point(c, P) && Point(c, P') && Point(c, Q) && CosetEq(c, P, P')
    ensures CosetEq(c, EdwardsAdd(c, P, Q), EdwardsAdd(c, P', Q))
  {
    if ProjEq(c, P, P') {
      ReplaceLeft(c, P, P', Q);
    } else {
      FlipIsPoint(c, P');
      ReplaceLeft(c, P, Flip(c, P'), Q);
      FlipAdd(c, P', Q);
      ProjTrans(c, EdwardsAdd(c, P, Q), EdwardsAdd(c, Flip(c, P'), Q), Flip(c, EdwardsAdd(c, P', Q)));
    }
  }

  lemma {:induction false} CosetTimes(c: Curve, P: ExtPoint, P': ExtPoint, k: nat)
    requires Complete(c) && Point(c, P) && Point(c, P') && CosetEq(c, P, P')
    ensures CosetEq(c, Times(c, P, k), Times(c, P', k))
  {
    if k == 0 {
      ProjRefl(c, Identity(c));
    } else {
      var T, T' := Times(c, P, k - 1), Times(c, P', k - 1);
      TimesPoint(c, P, k - 1);
      TimesPoint(c, P', k - 1);
      CosetTimes(c, P, P', k - 1);
      CosetAdd(c, T, T', P);
      CosetAdd(c, P, P', T');
      AddCommutes(c, P, T');
      AddCommutes(c, P', T');
      AddComplete(c, T', P);
      AddComplete(c, T', P');
      CosetTrans(c, EdwardsAdd(c, T, P), EdwardsAdd(c, T', P), EdwardsAdd(c, T', P'));
    }
  }

  /** edwardsScale respects cosets. */
  lemma CosetScale(c: Curve, P: ExtPoint, P': ExtPoint, s: int)
    requires Complete(c) && Point(c, P) && Point(c, P') && CosetEq(c, P, P')
    ensures CosetEq(c, Scale(c, P, s), Scale(c, P', s))
  {
    var k := Copies(s);
    ScaleIsTimes(c, P, s);
    ScaleIsTimes(c, P', s);
    TimesPoint(c, P, k);
    TimesPoint(c, P', k);
    CosetTimes(c, P, P', k);
    ProjSym(c, Scale(c, P', s), Times(c, P', k));
    CosetTrans(c, Scale(c, P, s), Times(c, P, k), Times(c, P', k));
    CosetTrans(c, Scale(c, P, s), Times(c, P', k), Scale(c, P', s));
  }

  /** Even points have the same encoding exactly when they are in one coset. */
  lemma EncodeInjective(c: Curve, P: ExtPoint, Q: ExtPoint)
    requires Params(c) && Point(c, P) && Even(c, P) && Point(c, Q) && Even(c, Q)
    ensures DecafEncode(c, P) == DecafEncode(c, Q) <==> CosetEq(c, P, Q)
  {
    if CosetEq(c, P, Q) {
      EncodeRespects(c, P, Q);
    }
    if DecafEncode(c, P) == DecafEncode(c, Q) {
      DecodeEncode(c, P);
      DecodeEncode(c, Q);
      var R := DecafDecode(c, DecafEncode(c, P)).value;
      CosetSym(c, R, P);
      CosetTrans(c, P, R, Q);
    }
  }

  /** A + E and A are in one coset exactly when E is in that of the identity. */
  lemma CosetCancel(c: Curve, A: ExtPoint, E: ExtPoint)
    requires Complete(c) && Point(c, A) && Point(c, E)
    ensures CosetEq(c, EdwardsAdd(c, A, E), A) <==> CosetEq(c, E, Identity(c))
  {
    var O, N := Identity(c), NegPoint(c, A);
    var S := EdwardsAdd(c, A, E);
    IdentityPoint(c);
    NegIsPoint(c, A);
    AddComplete(c, A, E);
    AddComplete(c, O, A);
    AddComplete(c, A, N);
    AddComplete(c, S, N);
    AddCommutes(c, A, E);
    AddCommutes(c, A, O);
    if CosetEq(c, E, O) {
      CosetAdd(c, E, O, A);
      AddIdentity(c, A);
      CosetTrans(c, S, EdwardsAdd(c, O, A), A);
    }
    if CosetEq(c, S, A) {
      CosetAdd(c, S, A, N);
      AddInverse(c, A);
      Unblind(c, E, A);
      ProjSym(c, EdwardsAdd(c, S, N), E);
      CosetTrans(c, E, EdwardsAdd(c, S, N), EdwardsAdd(c, A, N));
      CosetTrans(c, E, EdwardsAdd(c, A, N), O);
    }
  }
}
