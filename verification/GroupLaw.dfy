/**
 Associativity of edwardsAdd. The proof is by hand: with E, F, G, H, J, J', M, N
 formed from the outer points P1 and P3, both sides of the x-coordinate equation
 are brought to a multiple of one form in the middle point P2, which vanishes on
 the curve. The y-coordinate follows because rotating a point by a quarter turn,
 (X, Y) -> (Y, -X), commutes with addition.
 */
module GroupLaw {
  import opened ModArith
  import opened Edwards

  /** (Y, -X, Z, -T) is on the curve with (X, Y, Z, T). */
  lemma RotatedOnCurve(p: int, d: int, X: int, Y: int, Z: int, T: int)
    requires OnCurve(p, d, X, Y, Z, T)
    ensures OnCurve(p, d, Y, -X, Z, -T)
  {
    FlipOnCurve(p, d, X, Y, Z, T);
    RotateIdentity(X, Y);
  }

  lemma RotateIdentity(X: int, Y: int)
    ensures Y * Y + (-X) * (-X) == (-X) * (-X) + Y * Y && Y * (-X) == (-X) * Y
  {
  }

  // ----- A relation between two points

  lemma OuterIdentity1(X1: int, Y1: int, X3: int, Y3: int)
    ensures (X1 * X3 + Y1 * Y3) * (Y1 * Y1 - X1 * X1) + 2 * (X1 * Y1) * (X1 * Y3 - Y1 * X3)
         == (Y1 * Y3 - X1 * X3) * (X1 * X1 + Y1 * Y1)
  {
  }

  lemma OuterIdentity3(X1: int, Y1: int, X3: int, Y3: int)
    ensures (X1 * X3 + Y1 * Y3) * (Y3 * Y3 - X3 * X3) - 2 * (X3 * Y3) * (X1 * Y3 - Y1 * X3)
         == (Y1 * Y3 - X1 * X3) * (X3 * X3 + Y3 * Y3)
  {
  }

  /** N q1 + 2 Z1 T1 M = H (Z1^2 + d T1^2) and N q3 - 2 Z3 T3 M = H (Z3^2 + d T3^2), with q = Y^2 - X^2. */
  lemma OuterForms(p: int, d: int, X1: int, Y1: int, Z1: int, T1: int, X3: int, Y3: int, Z3: int, T3: int)
    requires OnCurve(p, d, X1, Y1, Z1, T1) && OnCurve(p, d, X3, Y3, Z3, T3)
    ensures var (H, M, N) := (Y1 * Y3 - X1 * X3, X1 * Y3 - Y1 * X3, X1 * X3 + Y1 * Y3);
            Cong(p, N * (Y1 * Y1 - X1 * X1) + 2 * (Z1 * T1) * M, H * (Z1 * Z1 + d * T1 * T1)) &&
            Cong(p, N * (Y3 * Y3 - X3 * X3) - 2 * (Z3 * T3) * M, H * (Z3 * Z3 + d * T3 * T3))
  {
    var (H, M, N) := (Y1 * Y3 - X1 * X3, X1 * Y3 - Y1 * X3, X1 * X3 + Y1 * Y3);
    OuterIdentity1(X1, Y1, X3, Y3);
    OuterIdentity3(X1, Y1, X3, Y3);
    OuterForm(p, N * (Y1 * Y1 - X1 * X1), X1 * Y1, Z1 * T1, M, H, X1 * X1 + Y1 * Y1, Z1 * Z1 + d * T1 * T1);
    OuterForm(p, N * (Y3 * Y3 - X3 * X3), X3 * Y3, Z3 * T3, -M, H, X3 * X3 + Y3 * Y3, Z3 * Z3 + d * T3 * T3)
    by { NegFactor(X3 * Y3, M); }
    NegFactor(Z3 * T3, M);
  }

  lemma NegFactor(a: int, m: int)
    ensures 2 * a * (-m) == -(2 * a * m)
  {
  }

  lemma OuterForm(p: int, nq: int, xy: int, zt: int, m: int, h: int, s: int, t: int)
    requires Cong(p, xy, zt) && Cong(p, s, t) && nq + 2 * xy * m == h * s
    ensures Cong(p, nq + 2 * zt * m, h * t)
  {
    var k, l := Witness(p, xy, zt), Witness(p, s, t);
    OuterFormArith(p, nq, zt, m, h, t, k, l);
    Intro(p, nq + 2 * zt * m, h * t, h * l - 2 * k * m);
  }

  lemma OuterFormArith(p: int, nq: int, zt: int, m: int, h: int, t: int, k: int, l: int)
    requires nq + 2 * (zt + k * p) * m == h * (t + l * p)
    ensures nq + 2 * zt * m == h * t + (h * l - 2 * k * m) * p
  {
  }

  lemma ProductJJ(Z1: int, T1: int, Z3: int, T3: int)
    ensures (Z1 * T3 - T1 * Z3) * (Z1 * T3 + T1 * Z3) == (Z1 * Z1) * (T3 * T3) - (T1 * T1) * (Z3 * Z3)
  {
  }

  lemma ProductTJ(Z1: int, T1: int, Z3: int, T3: int)
    ensures (T1 * T3) * (Z1 * T3 + T1 * Z3) == (T3 * T3) * (Z1 * T1) + (T1 * T1) * (Z3 * T3)
  {
  }

  lemma OuterGroup(H: int, M: int, N: int, q1: int, q3: int, a: int, b: int, u: int, c: int, e: int, v: int)
    ensures H * (a * e - b * c) + N * (b * q3 - e * q1) - 2 * (M * (e * u + b * v))
         == b * (N * q3 - 2 * v * M - H * c) - e * (N * q1 + 2 * u * M - H * a)
  {
  }

  lemma OuterCancel(p: int, d: int, H: int, a: int, b: int, c: int, e: int, k: int, l: int)
    ensures b * (H * (c + d * e) + k * p - H * c) - e * (H * (a + d * b) + l * p - H * a) == (b * k - e * l) * p
  {
  }

  lemma OuterResidual(p: int, d: int, H: int, M: int, N: int, q1: int, q3: int,
                      a: int, b: int, u: int, c: int, e: int, v: int, k: int, l: int)
    requires N * q1 + 2 * u * M == H * (a + d * b) + l * p
    requires N * q3 - 2 * v * M == H * (c + d * e) + k * p
    ensures H * (a * e - b * c) + N * (b * q3 - e * q1) == 2 * (M * (e * u + b * v)) + (b * k - e * l) * p
  {
    OuterGroup(H, M, N, q1, q3, a, b, u, c, e, v);
    OuterCancel(p, d, H, a, b, c, e, k, l);
  }

  /** H J J' + N (T1^2 q3 - T3^2 q1) = 2 T1 T3 M J'. */
  lemma OuterRelation(p: int, d: int, X1: int, Y1: int, Z1: int, T1: int, X3: int, Y3: int, Z3: int, T3: int)
    requires OnCurve(p, d, X1, Y1, Z1, T1) && OnCurve(p, d, X3, Y3, Z3, T3)
    ensures var (H, M, N) := (Y1 * Y3 - X1 * X3, X1 * Y3 - Y1 * X3, X1 * X3 + Y1 * Y3);
            var (J, J') := (Z1 * T3 - T1 * Z3, Z1 * T3 + T1 * Z3);
            Cong(p, H * (J * J') + N * ((T1 * T1) * (Y3 * Y3 - X3 * X3) - (T3 * T3) * (Y1 * Y1 - X1 * X1)),
                 2 * (M * ((T1 * T3) * J')))
  {
    var (H, M, N) := (Y1 * Y3 - X1 * X3, X1 * Y3 - Y1 * X3, X1 * X3 + Y1 * Y3);
    var (q1, q3) := (Y1 * Y1 - X1 * X1, Y3 * Y3 - X3 * X3);
    var (a, b, u, c, e, v) := (Z1 * Z1, T1 * T1, Z1 * T1, Z3 * Z3, T3 * T3, Z3 * T3);
    ProductJJ(Z1, T1, Z3, T3);
    ProductTJ(Z1, T1, Z3, T3);
    OuterForms(p, d, X1, Y1, Z1, T1, X3, Y3, Z3, T3);
    Assoc(d, T1, T1);
    Assoc(d, T3, T3);
    var l := Witness(p, N * q1 + 2 * u * M, H * (a + d * b));
    var k := Witness(p, N * q3 - 2 * v * M, H * (c + d * e));
    OuterResidual(p, d, H, M, N, q1, q3, a, b, u, c, e, v, k, l);
    Intro(p, H * (a * e - b * c) + N * (b * q3 - e * q1), 2 * (M * (e * u + b * v)), b * k - e * l);
  }

  lemma RotateSigns(E: int, M: int, q1: int, q3: int, b: int, e: int, jj: int, N: int, t: int, J: int)
    ensures (-E) * jj + (-M) * (b * q3 - e * (-q1)) == -(E * jj + M * (b * q3 + e * q1))
    ensures 2 * (N * ((-t) * J)) == -(2 * (N * (t * J)))
  {
  }

  /** E J J' + M (T1^2 q3 + T3^2 q1) = 2 T1 T3 N J: the relation of the rotated point. */
  lemma RotatedRelation(p: int, d: int, X1: int, Y1: int, Z1: int, T1: int, X3: int, Y3: int, Z3: int, T3: int)
    requires OnCurve(p, d, X1, Y1, Z1, T1) && OnCurve(p, d, X3, Y3, Z3, T3)
    ensures var (E, M, N) := (X1 * Y3 + Y1 * X3, X1 * Y3 - Y1 * X3, X1 * X3 + Y1 * Y3);
            var (J, J') := (Z1 * T3 - T1 * Z3, Z1 * T3 + T1 * Z3);
            Cong(p, E * (J * J') + M * ((T1 * T1) * (Y3 * Y3 - X3 * X3) + (T3 * T3) * (Y1 * Y1 - X1 * X1)),
                 2 * (N * ((T1 * T3) * J)))
  {
    var (E, M, N) := (X1 * Y3 + Y1 * X3, X1 * Y3 - Y1 * X3, X1 * X3 + Y1 * Y3);
    var (J, J') := (Z1 * T3 - T1 * Z3, Z1 * T3 + T1 * Z3);
    var (q1, q3) := (Y1 * Y1 - X1 * X1, Y3 * Y3 - X3 * X3);
    RotatedOnCurve(p, d, X1, Y1, Z1, T1);
    OuterRelation(p, d, Y1, -X1, Z1, -T1, X3, Y3, Z3, T3);
    RotatedTerms(X1, Y1, Z1, T1, X3, Y3, Z3, T3);
    RotateSigns(E, M, q1, q3, T1 * T1, T3 * T3, J * J', N, T1 * T3, J);
    Negate(p, E * (J * J') + M * ((T1 * T1) * q3 + (T3 * T3) * q1), 2 * (N * ((T1 * T3) * J)));
  }

  lemma RotatedTerms(X1: int, Y1: int, Z1: int, T1: int, X3: int, Y3: int, Z3: int, T3: int)
    ensures (-X1) * Y3 - Y1 * X3 == -(X1 * Y3 + Y1 * X3) && Y1 * Y3 - (-X1) * X3 == X1 * X3 + Y1 * Y3
    ensures Y1 * X3 + (-X1) * Y3 == -(X1 * Y3 - Y1 * X3)
    ensures Z1 * T3 - (-T1) * Z3 == Z1 * T3 + T1 * Z3 && Z1 * T3 + (-T1) * Z3 == Z1 * T3 - T1 * Z3
    ensures (-T1) * (-T1) == T1 * T1 && (-T1) * T3 == -(T1 * T3)
    ensures (-X1) * (-X1) - Y1 * Y1 == -(Y1 * Y1 - X1 * X1)
    ensures (Z1 * T3 + T1 * Z3) * (Z1 * T3 - T1 * Z3) == (Z1 * T3 - T1 * Z3) * (Z1 * T3 + T1 * Z3)
  {
  }

  lemma Negate(p: int, a: int, b: int)
    requires Cong(p, -a, -b)
    ensures Cong(p, a, b)
  {
    Refl(p, 0);
    AddCong(p, 0, 0, -a, -b);
  }

  // ----- The form in the middle point

  lemma MiddleIdentity(x: int, y: int, n: int, m: int)
    ensures (x * x + y * y) * (x * n + y * m) - 2 * ((x * y) * (x * m + y * n)) + (y * y - x * x) * (x * n - y * m) == 0
  {
  }

  /** z k1 + d y k2 + d^2 f t (x n + y m) + d q t (x n - y m) = 0, with (x, y, Z, T) on the curve. */
  lemma MiddleVanishes(p: int, d: int, X: int, Y: int, Z: int, T: int, k1: int, k2: int, t: int, n: int, m: int)
    requires OnCurve(p, d, X, Y, Z, T)
    requires Cong(p, k1, (d * t) * (X * n + Y * m)) && Cong(p, k2, -(2 * (t * (X * m + Y * n))))
    ensures Zero(p, (Z * Z) * k1 + (d * (Z * T)) * k2 + (d * d * (T * T)) * (t * (X * n + Y * m))
                    + (d * (Y * Y - X * X)) * (t * (X * n - Y * m)))
  {
    var (a, b, c) := (X * n + Y * m, X * m + Y * n, X * n - Y * m);
    var (z, y, f, q) := (Z * Z, Z * T, T * T, Y * Y - X * X);
    Assoc(d, T, T);
    Refl(p, z);
    MulCong(p, z, z, k1, (d * t) * a);
    Refl(p, d * y);
    MulCong(p, d * y, d * y, k2, -(2 * (t * b)));
    AddCong(p, z * k1, z * ((d * t) * a), (d * y) * k2, (d * y) * (-(2 * (t * b))));
    var rest := (d * d * f) * (t * a) + (d * q) * (t * c);
    Refl(p, rest);
    AddCong(p, z * k1 + (d * y) * k2, z * ((d * t) * a) + (d * y) * (-(2 * (t * b))), rest, rest);
    MiddleCollect(d, t, z, y, f, q, a, b, c);
    MiddleOnCurve(p, d, X, Y, Z, T, n, m);
    Refl(p, d * t);
    MulCong(p, d * t, d * t, (z + d * f) * a - 2 * (y * b) + q * c, 0);
    Trans(p, z * k1 + (d * y) * k2 + rest, (d * t) * ((z + d * f) * a - 2 * (y * b) + q * c), 0);
  }

  lemma MiddleCollect(d: int, t: int, z: int, y: int, f: int, q: int, a: int, b: int, c: int)
    ensures z * ((d * t) * a) + (d * y) * (-(2 * (t * b))) + ((d * d * f) * (t * a) + (d * q) * (t * c))
         == (d * t) * ((z + d * f) * a - 2 * (y * b) + q * c)
  {
    Distribute3(d * t, (z + d * f) * a, 2 * (y * b), q * c);
    CollectA(d, t, z, f, a);
    CollectB(d, t, y, b);
    CollectC(d, t, q, c);
  }

  lemma Distribute3(k: int, u: int, v: int, w: int)
    ensures k * (u - v + w) == k * u - k * v + k * w
  {
  }

  lemma CollectA(d: int, t: int, z: int, f: int, a: int)
    ensures (d * t) * ((z + d * f) * a) == z * ((d * t) * a) + (d * d * f) * (t * a)
  {
  }

  lemma CollectB(d: int, t: int, y: int, b: int)
    ensures (d * y) * (-(2 * (t * b))) == -((d * t) * (2 * (y * b)))
  {
  }

  lemma CollectC(d: int, t: int, q: int, c: int)
    ensures (d * q) * (t * c) == (d * t) * (q * c)
  {
  }

  lemma MiddleOnCurve(p: int, d: int, X: int, Y: int, Z: int, T: int, n: int, m: int)
    requires OnCurve(p, d, X, Y, Z, T)
    ensures Zero(p, (Z * Z + d * (T * T)) * (X * n + Y * m) - 2 * ((Z * T) * (X * m + Y * n))
                    + (Y * Y - X * X) * (X * n - Y * m))
  {
    var (a, b, c) := (X * n + Y * m, X * m + Y * n, X * n - Y * m);
    Assoc(d, T, T);
    var k, l := Witness(p, X * X + Y * Y, Z * Z + d * (T * T)), Witness(p, X * Y, Z * T);
    MiddleIdentity(X, Y, n, m);
    MiddleResidual(p, Z * Z + d * (T * T), Z * T, (Y * Y - X * X) * c, a, b, k, l);
    Intro(p, (Z * Z + d * (T * T)) * a - 2 * ((Z * T) * b) + (Y * Y - X * X) * c, 0, 2 * l * b - k * a);
  }

  lemma MiddleResidual(p: int, z: int, y: int, qc: int, a: int, b: int, k: int, l: int)
    requires (z + k * p) * a - 2 * ((y + l * p) * b) + qc == 0
    ensures z * a - 2 * (y * b) + qc == 0 + (2 * l * b - k * a) * p
  {
  }

  // ----- Associativity of the x-coordinate

  lemma ExpandU(d: int, X1: int, Y1: int, Z1: int, T1: int, X2: int, Y2: int, Z2: int, T2: int, X3: int, Y3: int)
    ensures ((X1 * Y2 + Y1 * X2) * (Z1 * Z2 - d * T1 * T2)) * Y3 + ((Z1 * Z2 + d * T1 * T2) * (Y1 * Y2 - X1 * X2)) * X3
         == (Z1 * Z2) * (X2 * (Y1 * Y3 - X1 * X3) + Y2 * (X1 * Y3 + Y1 * X3))
            + (d * T1 * T2) * (-(X2 * (X1 * X3 + Y1 * Y3)) - Y2 * (X1 * Y3 - Y1 * X3))
  {
    var (E, H, g, t) := (X1 * Y2 + Y1 * X2, Y1 * Y2 - X1 * X2, Z1 * Z2, d * T1 * T2);
    ExpandSums(E, H, g, t, X3, Y3);
    TrilinearU(X1, Y1, X2, Y2, X3, Y3);
    TrilinearV(X1, Y1, X2, Y2, X3, Y3);
  }

  lemma ExpandSums(E: int, H: int, g: int, t: int, x: int, y: int)
    ensures (E * (g - t)) * y + ((g + t) * H) * x == g * (E * y + H * x) + t * (H * x - E * y)
  {
  }

  lemma TrilinearU(X1: int, Y1: int, X2: int, Y2: int, X3: int, Y3: int)
    ensures (X1 * Y2 + Y1 * X2) * Y3 + (Y1 * Y2 - X1 * X2) * X3 == X2 * (Y1 * Y3 - X1 * X3) + Y2 * (X1 * Y3 + Y1 * X3)
  {
  }

  lemma TrilinearV(X1: int, Y1: int, X2: int, Y2: int, X3: int, Y3: int)
    ensures (Y1 * Y2 - X1 * X2) * X3 - (X1 * Y2 + Y1 * X2) * Y3
         == -(X2 * (X1 * X3 + Y1 * Y3)) - Y2 * (X1 * Y3 - Y1 * X3)
  {
  }

  /** e h = Z2 T2 q3 + Z3 T3 q2 for the sum of two points. */
  lemma ProductEH(p: int, d: int, X2: int, Y2: int, Z2: int, T2: int, X3: int, Y3: int, Z3: int, T3: int)
    requires OnCurve(p, d, X2, Y2, Z2, T2) && OnCurve(p, d, X3, Y3, Z3, T3)
    ensures Cong(p, (X2 * Y3 + Y2 * X3) * (Y2 * Y3 - X2 * X3),
                 (Z2 * T2) * (Y3 * Y3 - X3 * X3) + (Z3 * T3) * (Y2 * Y2 - X2 * X2))
  {
    var (q2, q3) := (Y2 * Y2 - X2 * X2, Y3 * Y3 - X3 * X3);
    ExpandEH(X2, Y2, X3, Y3);
    Refl(p, q2);
    Refl(p, q3);
    MulCong(p, X2 * Y2, Z2 * T2, q3, q3);
    MulCong(p, X3 * Y3, Z3 * T3, q2, q2);
    AddCong(p, (X2 * Y2) * q3, (Z2 * T2) * q3, (X3 * Y3) * q2, (Z3 * T3) * q2);
  }

  lemma ExpandEH(X2: int, Y2: int, X3: int, Y3: int)
    ensures (X2 * Y3 + Y2 * X3) * (Y2 * Y3 - X2 * X3)
         == (X2 * Y2) * (Y3 * Y3 - X3 * X3) + (X3 * Y3) * (Y2 * Y2 - X2 * X2)
  {
  }

  lemma ProductFG(d: int, Z2: int, T2: int, Z3: int, T3: int)
    ensures (Z2 * Z3 - d * T2 * T3) * (Z2 * Z3 + d * T2 * T3) == (Z2 * Z2) * (Z3 * Z3) - d * d * ((T2 * T2) * (T3 * T3))
  {
  }

  lemma PullZ(d: int, Z: int, T: int, s: int, r: int)
    ensures Z * (Z * s + (d * T) * r) == (Z * Z) * s + d * ((Z * T) * r)
  {
  }

  lemma PullT(d: int, Z: int, T: int, s: int, r: int)
    ensures T * (Z * s + (d * T) * r) == (Z * T) * s + d * ((T * T) * r)
  {
  }

  lemma CancelCommon(d: int, D: int, a: int, b: int, u: int, z: int, f: int, y: int, c: int, e: int, v: int, q1: int, q2: int, q3: int)
    ensures a * (z * c - D * (f * e)) + d * (u * (y * q3 + v * q2)) - (c * (z * a - D * (f * b)) + d * (v * (y * q1 + u * q2)))
         == D * (f * (c * b - a * e)) + d * (y * (u * q3 - v * q1))
  {
  }

  lemma SplitD(d: int, Z1: int, T1: int, Z2: int, T2: int, Z3: int, T3: int, U: int, V1: int, V3: int, A: int, B: int)
    ensures ((Z1 * Z2) * U + (d * T1 * T2) * V3) * A - ((Z2 * Z3) * U + (d * T2 * T3) * V1) * B
         == (Z2 * U) * (Z1 * A - Z3 * B) + (d * T2) * (V3 * (T1 * A) - V1 * (T3 * B))
  {
    SplitProduct((Z1 * Z2) * U, (d * T1 * T2) * V3, A);
    SplitProduct((Z2 * Z3) * U, (d * T2 * T3) * V1, B);
    SplitTerms(Z1, Z2, U, A, d, T1, T2, V3);
    SplitTerms(Z3, Z2, U, B, d, T3, T2, V1);
    SplitSum(Z2 * U, Z1 * A, Z3 * B, d * T2, V3 * (T1 * A), V1 * (T3 * B));
  }

  lemma SplitProduct(a: int, b: int, k: int)
    ensures (a + b) * k == a * k + b * k
  {
  }

  lemma SplitTerms(Z1: int, Z2: int, U: int, A: int, d: int, T1: int, T2: int, V: int)
    ensures ((Z1 * Z2) * U) * A == (Z2 * U) * (Z1 * A) && ((Z2 * Z1) * U) * A == (Z2 * U) * (Z1 * A)
    ensures ((d * T1 * T2) * V) * A == (d * T2) * (V * (T1 * A)) && ((d * T2 * T1) * V) * A == (d * T2) * (V * (T1 * A))
  {
  }

  lemma SplitSum(k: int, a: int, b: int, l: int, r: int, s: int)
    ensures k * a + l * r - (k * b + l * s) == k * (a - b) + l * (r - s)
  {
  }

  lemma FactorT2(d: int, Z2: int, T2: int, U: int, x: int, w: int, R: int)
    ensures (Z2 * U) * ((d * d) * ((T2 * T2) * x) + d * ((Z2 * T2) * w)) + (d * T2) * R
         == (d * T2) * (U * ((Z2 * Z2) * w + (d * (Z2 * T2)) * x) + R)
  {
    FactorTerms(d, Z2, T2, U, x, w);
    Distribute3(d * T2, U * ((Z2 * Z2) * w + (d * (Z2 * T2)) * x), 0, R);
  }

  lemma FactorTerms(d: int, Z2: int, T2: int, U: int, x: int, w: int)
    ensures (Z2 * U) * ((d * d) * ((T2 * T2) * x) + d * ((Z2 * T2) * w))
         == (d * T2) * (U * ((Z2 * Z2) * w + (d * (Z2 * T2)) * x))
  {
    assert (d * d) * ((T2 * T2) * x) + d * ((Z2 * T2) * w) == (d * T2) * ((d * T2) * x + Z2 * w);
    assert (Z2 * Z2) * w + (d * (Z2 * T2)) * x == Z2 * ((d * T2) * x + Z2 * w);
    FourFactors(Z2, U, d * T2, (d * T2) * x + Z2 * w);
  }

  lemma FourFactors(a: int, b: int, c: int, e: int)
    ensures (a * b) * (c * e) == c * (b * (a * e))
  {
  }

  lemma RegroupV(V: int, u: int, z: int, c: int, D: int, f: int, e: int, d: int, b: int, y: int, q3: int, v: int, q2: int)
    ensures V * (u * (z * c - D * (f * e)) + d * (b * (y * q3 + v * q2)))
         == z * ((c * u) * V) + (d * y) * ((b * q3) * V) - (D * f) * ((e * u) * V) + (d * q2) * ((b * v) * V)
  {
    assert u * (z * c - D * (f * e)) == z * (c * u) - (D * f) * (e * u);
    assert d * (b * (y * q3 + v * q2)) == (d * y) * (b * q3) + (d * q2) * (b * v);
    FourTerms(V, z * (c * u), (D * f) * (e * u), (d * y) * (b * q3), (d * q2) * (b * v));
    MoveFactor(V, z, c * u);
    MoveFactor(V, D * f, e * u);
    MoveFactor(V, d * y, b * q3);
    MoveFactor(V, d * q2, b * v);
  }

  lemma FourTerms(V: int, a: int, b: int, c: int, e: int)
    ensures V * (a - b + (c + e)) == V * a + V * c - V * b + V * e
  {
  }

  lemma MoveFactor(V: int, a: int, b: int)
    ensures V * (a * b) == a * (b * V)
  {
  }

  // ----- The coefficients of the form

  lemma ExpandW(X1: int, Y1: int, X3: int, Y3: int)
    ensures (X1 * Y1) * (Y3 * Y3 - X3 * X3) - (X3 * Y3) * (Y1 * Y1 - X1 * X1)
         == (X1 * Y3 - Y1 * X3) * (X1 * X3 + Y1 * Y3)
  {
  }

  /** w = Z1 T1 q3 - Z3 T3 q1 is M N. */
  lemma OuterW(p: int, d: int, X1: int, Y1: int, Z1: int, T1: int, X3: int, Y3: int, Z3: int, T3: int)
    requires OnCurve(p, d, X1, Y1, Z1, T1) && OnCurve(p, d, X3, Y3, Z3, T3)
    ensures Cong(p, (Z1 * T1) * (Y3 * Y3 - X3 * X3) - (Z3 * T3) * (Y1 * Y1 - X1 * X1),
                 (X1 * Y3 - Y1 * X3) * (X1 * X3 + Y1 * Y3))
  {
    var (q1, q3) := (Y1 * Y1 - X1 * X1, Y3 * Y3 - X3 * X3);
    ExpandW(X1, Y1, X3, Y3);
    Sym(p, X1 * Y1, Z1 * T1);
    Sym(p, X3 * Y3, Z3 * T3);
    Refl(p, q1);
    Refl(p, q3);
    MulCong(p, Z1 * T1, X1 * Y1, q3, q3);
    MulCong(p, Z3 * T3, X3 * Y3, q1, q1);
    AddCong(p, (Z1 * T1) * q3, (X1 * Y1) * q3, (Z3 * T3) * q1, (X3 * Y3) * q1);
  }

  lemma SignedPair(g: int, s: int, r: int, nx: int, my: int)
    ensures (g * r) * (-nx - my) - (g * s) * (-nx + my) == g * (nx * (s - r) - my * (s + r))
  {
  }

  lemma SignedPair'(g: int, s: int, r: int, nx: int, my: int)
    ensures (g * s) * (-nx - my) - (g * r) * (-nx + my) == -(g * (nx * (s - r) + my * (s + r)))
  {
  }

  lemma OuterProducts(Z1: int, T1: int, Z3: int, T3: int)
    ensures (Z3 * Z3) * (Z1 * T1) == (Z1 * Z3) * (T1 * Z3) && (Z1 * Z1) * (Z3 * T3) == (Z1 * Z3) * (Z1 * T3)
    ensures (T3 * T3) * (Z1 * T1) == (T1 * T3) * (Z1 * T3) && (T1 * T1) * (Z3 * T3) == (T1 * T3) * (T1 * Z3)
  {
  }

  /** The combinations of V3 = -nx - my and V1 = -nx + my that occur, by J and J'. */
  lemma OuterV(Z1: int, T1: int, Z3: int, T3: int, nx: int, my: int)
    ensures var (J, J') := (Z1 * T3 - T1 * Z3, Z1 * T3 + T1 * Z3);
            var (V1, V3) := (-nx + my, -nx - my);
            ((Z3 * Z3) * (Z1 * T1)) * V3 - ((Z1 * Z1) * (Z3 * T3)) * V1 == (Z1 * Z3) * (nx * J - my * J') &&
            ((T3 * T3) * (Z1 * T1)) * V3 - ((T1 * T1) * (Z3 * T3)) * V1 == -((T1 * T3) * (nx * J + my * J')) &&
            ((T1 * T1) * (Z3 * T3)) * V3 - ((T3 * T3) * (Z1 * T1)) * V1 == (T1 * T3) * (nx * J - my * J')
  {
    OuterProducts(Z1, T1, Z3, T3);
    SignedPair(Z1 * Z3, Z1 * T3, T1 * Z3, nx, my);
    SignedPair'(T1 * T3, Z1 * T3, T1 * Z3, nx, my);
    SignedPair(T1 * T3, Z1 * T3, T1 * Z3, nx, my);
  }

  lemma SwapMiddle(x: int, N: int, H: int, M: int, y: int, E: int)
    ensures (x * H + y * E) * (M * N) == (x * N) * (H * M) + (y * M) * (E * N)
  {
  }

  lemma CoefficientArith(p: int, g: int, s: int, x: int, y: int, N: int, M: int, J: int, J': int, hm: int, en: int, k: int, l: int)
    requires (g - s) * J == -hm + k * p && (g + s) * J' == en + l * p
    ensures (x * N) * hm + (y * M) * en + g * ((x * N) * J - (y * M) * J')
         == s * ((x * N) * J + (y * M) * J') + ((x * N) * k - (y * M) * l) * p
  {
    var a, b := x * N, y * M;
    assert a * ((g - s) * J) == a * (-hm + k * p);
    assert b * ((g + s) * J') == b * (en + l * p);
  }

  /** The coefficient of Z2^2 is d T1 T3 (X2 N J + Y2 M J'). */
  lemma Coefficient1(p: int, d: int, X1: int, Y1: int, Z1: int, T1: int, X2: int, Y2: int, X3: int, Y3: int, Z3: int, T3: int)
    requires OnCurve(p, d, X1, Y1, Z1, T1) && OnCurve(p, d, X3, Y3, Z3, T3)
    ensures var (E, H, M, N) := (X1 * Y3 + Y1 * X3, Y1 * Y3 - X1 * X3, X1 * Y3 - Y1 * X3, X1 * X3 + Y1 * Y3);
            var (J, J') := (Z1 * T3 - T1 * Z3, Z1 * T3 + T1 * Z3);
            var w := (Z1 * T1) * (Y3 * Y3 - X3 * X3) - (Z3 * T3) * (Y1 * Y1 - X1 * X1);
            Cong(p, (X2 * H + Y2 * E) * w + (Z1 * Z3) * ((X2 * N) * J - (Y2 * M) * J'),
                 (d * T1 * T3) * ((X2 * N) * J + (Y2 * M) * J'))
  {
    var (E, H, M, N) := (X1 * Y3 + Y1 * X3, Y1 * Y3 - X1 * X3, X1 * Y3 - Y1 * X3, X1 * X3 + Y1 * Y3);
    var (J, J') := (Z1 * T3 - T1 * Z3, Z1 * T3 + T1 * Z3);
    var w := (Z1 * T1) * (Y3 * Y3 - X3 * X3) - (Z3 * T3) * (Y1 * Y1 - X1 * X1);
    var (U, g, s) := (X2 * H + Y2 * E, Z1 * Z3, d * T1 * T3);
    var rest := g * ((X2 * N) * J - (Y2 * M) * J');
    OuterW(p, d, X1, Y1, Z1, T1, X3, Y3, Z3, T3);
    Refl(p, U);
    MulCong(p, U, U, w, M * N);
    SwapMiddle(X2, N, H, M, Y2, E);
    Refl(p, rest);
    AddCong(p, U * w, U * (M * N), rest, rest);
    Bilinear(p, d, X1, Y1, Z1, T1, X3, Y3, Z3, T3);
    var k, l := Witness(p, (g - s) * J, -(H * M)), Witness(p, (g + s) * J', E * N);
    CoefficientArith(p, g, s, X2, Y2, N, M, J, J', H * M, E * N, k, l);
    Intro(p, U * (M * N) + rest, s * ((X2 * N) * J + (Y2 * M) * J'), (X2 * N) * k - (Y2 * M) * l);
    Trans(p, U * w + rest, U * (M * N) + rest, s * ((X2 * N) * J + (Y2 * M) * J'));
  }

  lemma Collect2(x: int, y: int, H: int, E: int, M: int, N: int, jj: int, bq: int, eq: int)
    ensures (x * H + y * E) * (-jj) + bq * (-(x * N) - y * M) - eq * (-(x * N) + y * M)
         == -(x * (H * jj + N * (bq - eq)) + y * (E * jj + M * (bq + eq)))
  {
  }

  /** The coefficient of d Z2 T2 is -2 T1 T3 (X2 M J' + Y2 N J). */
  lemma Coefficient2(p: int, d: int, X1: int, Y1: int, Z1: int, T1: int, X2: int, Y2: int, X3: int, Y3: int, Z3: int, T3: int)
    requires OnCurve(p, d, X1, Y1, Z1, T1) && OnCurve(p, d, X3, Y3, Z3, T3)
    ensures var (E, H, M, N) := (X1 * Y3 + Y1 * X3, Y1 * Y3 - X1 * X3, X1 * Y3 - Y1 * X3, X1 * X3 + Y1 * Y3);
            var (J, J') := (Z1 * T3 - T1 * Z3, Z1 * T3 + T1 * Z3);
            var (bq, eq) := ((T1 * T1) * (Y3 * Y3 - X3 * X3), (T3 * T3) * (Y1 * Y1 - X1 * X1));
            Cong(p, (X2 * H + Y2 * E) * (-(J * J')) + bq * (-(X2 * N) - Y2 * M) - eq * (-(X2 * N) + Y2 * M),
                 -(X2 * (2 * (M * ((T1 * T3) * J'))) + Y2 * (2 * (N * ((T1 * T3) * J)))))
  {
    var (E, H, M, N) := (X1 * Y3 + Y1 * X3, Y1 * Y3 - X1 * X3, X1 * Y3 - Y1 * X3, X1 * X3 + Y1 * Y3);
    var (J, J') := (Z1 * T3 - T1 * Z3, Z1 * T3 + T1 * Z3);
    var (bq, eq) := ((T1 * T1) * (Y3 * Y3 - X3 * X3), (T3 * T3) * (Y1 * Y1 - X1 * X1));
    Collect2(X2, Y2, H, E, M, N, J * J', bq, eq);
    OuterRelation(p, d, X1, Y1, Z1, T1, X3, Y3, Z3, T3);
    RotatedRelation(p, d, X1, Y1, Z1, T1, X3, Y3, Z3, T3);
    var (r1, r2) := (H * (J * J') + N * (bq - eq), E * (J * J') + M * (bq + eq));
    var (s1, s2) := (2 * (M * ((T1 * T3) * J')), 2 * (N * ((T1 * T3) * J)));
    Refl(p, X2);
    Refl(p, Y2);
    Refl(p, 0);
    MulCong(p, X2, X2, r1, s1);
    MulCong(p, Y2, Y2, r2, s2);
    AddCong(p, X2 * r1, X2 * s1, Y2 * r2, Y2 * s2);
    AddCong(p, 0, 0, X2 * r1 + Y2 * r2, X2 * s1 + Y2 * s2);
  }

  // ----- Assembling

  lemma CombineK(z: int, y: int, d: int, D: int, f: int, q2: int, U: int, w: int, x: int, V1: int, V3: int,
                 cu: int, bq: int, eu: int, bv: int, av: int, eq: int)
    ensures U * (z * w + (d * y) * x)
            + (z * (cu * V3) + (d * y) * (bq * V3) - (D * f) * (eu * V3) + (d * q2) * (bv * V3))
            - (z * (av * V1) + (d * y) * (eq * V1) - (D * f) * (bv * V1) + (d * q2) * (eu * V1))
         == z * (U * w + (cu * V3 - av * V1)) + (d * y) * (U * x + bq * V3 - eq * V1)
            + (D * f) * (-(eu * V3 - bv * V1)) + (d * q2) * (bv * V3 - eu * V1)
  {
    CombineOne(z, U * w, cu * V3, av * V1);
    CombineOne(d * y, U * x, bq * V3, eq * V1);
    CombineOne(D * f, 0, bv * V1, eu * V3);
    CombineOne(d * q2, 0, bv * V3, eu * V1);
    CombineTwo(U, z, w, d * y, x);
  }

  lemma CombineOne(k: int, a: int, b: int, c: int)
    ensures k * (a + b - c) == k * a + k * b - k * c
  {
  }

  lemma CombineTwo(U: int, z: int, w: int, k: int, x: int)
    ensures U * (z * w + k * x) == z * (U * w) + k * (U * x)
  {
  }

  ghost function AA(d: int, Z1: int, T1: int, z: int, c: int, f: int, e: int, y: int, q3: int, v: int, q2: int): int {
    Z1 * (z * c - (d * d) * (f * e)) + (d * T1) * (y * q3 + v * q2)
  }

  lemma CoreU(d: int, Z1: int, T1: int, z: int, f: int, y: int, Z3: int, T3: int, q1: int, q2: int, q3: int)
    ensures var (a, b, u, c, e, v) := (Z1 * Z1, T1 * T1, Z1 * T1, Z3 * Z3, T3 * T3, Z3 * T3);
            Z1 * AA(d, Z1, T1, z, c, f, e, y, q3, v, q2) - Z3 * AA(d, Z3, T3, z, a, f, b, y, q1, u, q2) ==
            (d * d) * (f * (c * b - a * e)) + d * (y * (u * q3 - v * q1))
  {
    var (a, b, u, c, e, v) := (Z1 * Z1, T1 * T1, Z1 * T1, Z3 * Z3, T3 * T3, Z3 * T3);
    PullZ(d, Z1, T1, z * c - (d * d) * (f * e), y * q3 + v * q2);
    PullZ(d, Z3, T3, z * a - (d * d) * (f * b), y * q1 + u * q2);
    CancelCommon(d, d * d, a, b, u, z, f, y, c, e, v, q1, q2, q3);
  }

  lemma CoreV(d: int, Z1: int, T1: int, z: int, f: int, y: int, c: int, e: int, v: int, q2: int, q3: int, V: int)
    ensures V * (T1 * AA(d, Z1, T1, z, c, f, e, y, q3, v, q2))
         == z * ((c * (Z1 * T1)) * V) + (d * y) * (((T1 * T1) * q3) * V) - (d * d * f) * ((e * (Z1 * T1)) * V)
            + (d * q2) * (((T1 * T1) * v) * V)
  {
    PullT(d, Z1, T1, z * c - (d * d) * (f * e), y * q3 + v * q2);
    RegroupV(V, Z1 * T1, z, c, d * d, f, e, d, T1 * T1, y, q3, v, q2);
  }

  /** Both sides differ by d T2 times a form in the middle point. */
  lemma CoreIdentity(d: int, Z1: int, T1: int, Z2: int, T2: int, Z3: int, T3: int,
                     q1: int, q2: int, q3: int, U: int, V1: int, V3: int)
    ensures var (a, b, u, c, e, v) := (Z1 * Z1, T1 * T1, Z1 * T1, Z3 * Z3, T3 * T3, Z3 * T3);
            var (z, f, y) := (Z2 * Z2, T2 * T2, Z2 * T2);
            var A, B := AA(d, Z1, T1, z, c, f, e, y, q3, v, q2), AA(d, Z3, T3, z, a, f, b, y, q1, u, q2);
            ((Z1 * Z2) * U + (d * T1 * T2) * V3) * A - ((Z2 * Z3) * U + (d * T2 * T3) * V1) * B ==
            (d * T2) * (z * (U * (u * q3 - v * q1) + ((c * u) * V3 - (a * v) * V1))
                        + (d * y) * (U * (c * b - a * e) + (b * q3) * V3 - (e * q1) * V1)
                        + (d * d * f) * (-((e * u) * V3 - (b * v) * V1))
                        + (d * q2) * ((b * v) * V3 - (e * u) * V1))
  {
    var (a, b, u, c, e, v) := (Z1 * Z1, T1 * T1, Z1 * T1, Z3 * Z3, T3 * T3, Z3 * T3);
    var (z, f, y) := (Z2 * Z2, T2 * T2, Z2 * T2);
    var A, B := AA(d, Z1, T1, z, c, f, e, y, q3, v, q2), AA(d, Z3, T3, z, a, f, b, y, q1, u, q2);
    var (w, x) := (u * q3 - v * q1, c * b - a * e);
    var R := V3 * (T1 * A) - V1 * (T3 * B);
    SplitD(d, Z1, T1, Z2, T2, Z3, T3, U, V1, V3, A, B);
    CoreU(d, Z1, T1, z, f, y, Z3, T3, q1, q2, q3);
    FactorT2(d, Z2, T2, U, x, w, R);
    CoreV(d, Z1, T1, z, f, y, c, e, v, q2, q3, V3);
    CoreV(d, Z3, T3, z, f, y, a, b, u, q2, q1, V1);
    CombineK(z, y, d, d * d, f, q2, U, w, x, V1, V3, c * u, b * q3, e * u, b * v, a * v, e * q1);
  }

  /** The same, with V1 and V3 written out. */
  lemma CoreForm(d: int, Z1: int, T1: int, Z2: int, T2: int, Z3: int, T3: int,
                 q1: int, q2: int, q3: int, U: int, nx: int, my: int)
    ensures var (V1, V3) := (-nx + my, -nx - my);
            var (j, j') := (nx * (Z1 * T3 - T1 * Z3), my * (Z1 * T3 + T1 * Z3));
            var A := AA(d, Z1, T1, Z2 * Z2, Z3 * Z3, T2 * T2, T3 * T3, Z2 * T2, q3, Z3 * T3, q2);
            var B := AA(d, Z3, T3, Z2 * Z2, Z1 * Z1, T2 * T2, T1 * T1, Z2 * T2, q1, Z1 * T1, q2);
            var k1 := U * ((Z1 * T1) * q3 - (Z3 * T3) * q1) + (((Z3 * Z3) * (Z1 * T1)) * V3 - ((Z1 * Z1) * (Z3 * T3)) * V1);
            var k2 := U * ((Z3 * Z3) * (T1 * T1) - (Z1 * Z1) * (T3 * T3)) + ((T1 * T1) * q3) * V3 - ((T3 * T3) * q1) * V1;
            ((Z1 * Z2) * U + (d * T1 * T2) * V3) * A - ((Z2 * Z3) * U + (d * T2 * T3) * V1) * B ==
            (d * T2) * ((Z2 * Z2) * k1 + (d * (Z2 * T2)) * k2 + (d * d * (T2 * T2)) * ((T1 * T3) * (j + j'))
                        + (d * q2) * ((T1 * T3) * (j - j')))
  {
    CoreIdentity(d, Z1, T1, Z2, T2, Z3, T3, q1, q2, q3, U, -nx + my, -nx - my);
    OuterV(Z1, T1, Z3, T3, nx, my);
  }

  lemma FormK1(p: int, d: int, X1: int, Y1: int, Z1: int, T1: int, X2: int, Y2: int, X3: int, Y3: int, Z3: int, T3: int)
    requires OnCurve(p, d, X1, Y1, Z1, T1) && OnCurve(p, d, X3, Y3, Z3, T3)
    ensures var (E, H, M, N) := (X1 * Y3 + Y1 * X3, Y1 * Y3 - X1 * X3, X1 * Y3 - Y1 * X3, X1 * X3 + Y1 * Y3);
            var (n, m) := (N * (Z1 * T3 - T1 * Z3), M * (Z1 * T3 + T1 * Z3));
            var (U, V1, V3) := (X2 * H + Y2 * E, -(X2 * N) + Y2 * M, -(X2 * N) - Y2 * M);
            Cong(p, U * ((Z1 * T1) * (Y3 * Y3 - X3 * X3) - (Z3 * T3) * (Y1 * Y1 - X1 * X1))
                    + (((Z3 * Z3) * (Z1 * T1)) * V3 - ((Z1 * Z1) * (Z3 * T3)) * V1),
                 (d * (T1 * T3)) * (X2 * n + Y2 * m))
  {
    var (M, N) := (X1 * Y3 - Y1 * X3, X1 * X3 + Y1 * Y3);
    var (J, J') := (Z1 * T3 - T1 * Z3, Z1 * T3 + T1 * Z3);
    Coefficient1(p, d, X1, Y1, Z1, T1, X2, Y2, X3, Y3, Z3, T3);
    OuterV(Z1, T1, Z3, T3, X2 * N, Y2 * M);
    Assoc(X2, N, J);
    Assoc(Y2, M, J');
    Assoc(d, T1, T3);
  }

  lemma FormK2(p: int, d: int, X1: int, Y1: int, Z1: int, T1: int, X2: int, Y2: int, X3: int, Y3: int, Z3: int, T3: int)
    requires OnCurve(p, d, X1, Y1, Z1, T1) && OnCurve(p, d, X3, Y3, Z3, T3)
    ensures var (E, H, M, N) := (X1 * Y3 + Y1 * X3, Y1 * Y3 - X1 * X3, X1 * Y3 - Y1 * X3, X1 * X3 + Y1 * Y3);
            var (n, m) := (N * (Z1 * T3 - T1 * Z3), M * (Z1 * T3 + T1 * Z3));
            var (U, V1, V3) := (X2 * H + Y2 * E, -(X2 * N) + Y2 * M, -(X2 * N) - Y2 * M);
            Cong(p, U * ((Z3 * Z3) * (T1 * T1) - (Z1 * Z1) * (T3 * T3))
                    + ((T1 * T1) * (Y3 * Y3 - X3 * X3)) * V3 - ((T3 * T3) * (Y1 * Y1 - X1 * X1)) * V1,
                 -(2 * ((T1 * T3) * (X2 * m + Y2 * n))))
  {
    var (M, N) := (X1 * Y3 - Y1 * X3, X1 * X3 + Y1 * Y3);
    var (J, J') := (Z1 * T3 - T1 * Z3, Z1 * T3 + T1 * Z3);
    Coefficient2(p, d, X1, Y1, Z1, T1, X2, Y2, X3, Y3, Z3, T3);
    ProductJJ(Z1, T1, Z3, T3);
    SquareProducts(Z1 * Z1, T3 * T3, T1 * T1, Z3 * Z3);
    TwiceForm(X2, Y2, T1 * T3, M, J', N, J);
  }

  lemma SquareProducts(a: int, e: int, b: int, c: int)
    ensures c * b - a * e == -(a * e - b * c)
  {
  }

  lemma TwiceForm(x: int, y: int, t: int, M: int, J': int, N: int, J: int)
    ensures x * (2 * (M * (t * J'))) + y * (2 * (N * (t * J))) == 2 * (t * (x * (M * J') + y * (N * J)))
  {
  }

  /** The two products agree modulo p. */
  lemma CoreVanishes(p: int, d: int, X1: int, Y1: int, Z1: int, T1: int, X2: int, Y2: int, Z2: int, T2: int,
                     X3: int, Y3: int, Z3: int, T3: int)
    requires OnCurve(p, d, X1, Y1, Z1, T1) && OnCurve(p, d, X2, Y2, Z2, T2) && OnCurve(p, d, X3, Y3, Z3, T3)
    ensures var (E, H, M, N) := (X1 * Y3 + Y1 * X3, Y1 * Y3 - X1 * X3, X1 * Y3 - Y1 * X3, X1 * X3 + Y1 * Y3);
            var (U, V1, V3) := (X2 * H + Y2 * E, -(X2 * N) + Y2 * M, -(X2 * N) - Y2 * M);
            var (q1, q2, q3) := (Y1 * Y1 - X1 * X1, Y2 * Y2 - X2 * X2, Y3 * Y3 - X3 * X3);
            var A := AA(d, Z1, T1, Z2 * Z2, Z3 * Z3, T2 * T2, T3 * T3, Z2 * T2, q3, Z3 * T3, q2);
            var B := AA(d, Z3, T3, Z2 * Z2, Z1 * Z1, T2 * T2, T1 * T1, Z2 * T2, q1, Z1 * T1, q2);
            Cong(p, ((Z1 * Z2) * U + (d * T1 * T2) * V3) * A, ((Z2 * Z3) * U + (d * T2 * T3) * V1) * B)
  {
    var (E, H, M, N) := (X1 * Y3 + Y1 * X3, Y1 * Y3 - X1 * X3, X1 * Y3 - Y1 * X3, X1 * X3 + Y1 * Y3);
    var (U, V1, V3) := (X2 * H + Y2 * E, -(X2 * N) + Y2 * M, -(X2 * N) - Y2 * M);
    var (q1, q2, q3) := (Y1 * Y1 - X1 * X1, Y2 * Y2 - X2 * X2, Y3 * Y3 - X3 * X3);
    var A := AA(d, Z1, T1, Z2 * Z2, Z3 * Z3, T2 * T2, T3 * T3, Z2 * T2, q3, Z3 * T3, q2);
    var B := AA(d, Z3, T3, Z2 * Z2, Z1 * Z1, T2 * T2, T1 * T1, Z2 * T2, q1, Z1 * T1, q2);
    var (n, m, t) := (N * (Z1 * T3 - T1 * Z3), M * (Z1 * T3 + T1 * Z3), T1 * T3);
    CoreForm(d, Z1, T1, Z2, T2, Z3, T3, q1, q2, q3, U, X2 * N, Y2 * M);
    FormK1(p, d, X1, Y1, Z1, T1, X2, Y2, X3, Y3, Z3, T3);
    FormK2(p, d, X1, Y1, Z1, T1, X2, Y2, X3, Y3, Z3, T3);
    Assoc(X2, N, Z1 * T3 - T1 * Z3);
    Assoc(Y2, M, Z1 * T3 + T1 * Z3);
    var k1 := U * ((Z1 * T1) * q3 - (Z3 * T3) * q1) + (((Z3 * Z3) * (Z1 * T1)) * V3 - ((Z1 * Z1) * (Z3 * T3)) * V1);
    var k2 := U * ((Z3 * Z3) * (T1 * T1) - (Z1 * Z1) * (T3 * T3)) + ((T1 * T1) * q3) * V3 - ((T3 * T3) * q1) * V1;
    MiddleVanishes(p, d, X2, Y2, Z2, T2, k1, k2, t, n, m);
    DifferenceVanishes(p, ((Z1 * Z2) * U + (d * T1 * T2) * V3) * A, ((Z2 * Z3) * U + (d * T2 * T3) * V1) * B, d * T2,
      (Z2 * Z2) * k1 + (d * (Z2 * T2)) * k2 + (d * d * (T2 * T2)) * (t * (X2 * n + Y2 * m)) + (d * q2) * (t * (X2 * n - Y2 * m)));
  }

  lemma DifferenceVanishes(p: int, a: int, b: int, k: int, r: int)
    requires a - b == k * r && Zero(p, r)
    ensures Cong(p, a, b)
  {
    Refl(p, k);
    MulCong(p, k, k, r, 0);
    DifferenceZero(p, a, b);
  }

  lemma ExpandU'(d: int, X1: int, Y1: int, X2: int, Y2: int, Z2: int, T2: int, X3: int, Y3: int, Z3: int, T3: int)
    ensures X1 * ((Z2 * Z3 + d * T2 * T3) * (Y2 * Y3 - X2 * X3)) + Y1 * ((X2 * Y3 + Y2 * X3) * (Z2 * Z3 - d * T2 * T3))
         == (Z2 * Z3) * (X2 * (Y1 * Y3 - X1 * X3) + Y2 * (X1 * Y3 + Y1 * X3))
            + (d * T2 * T3) * (-(X2 * (X1 * X3 + Y1 * Y3)) + Y2 * (X1 * Y3 - Y1 * X3))
  {
    var (e, h, g, t) := (X2 * Y3 + Y2 * X3, Y2 * Y3 - X2 * X3, Z2 * Z3, d * T2 * T3);
    ExpandSums(e, h, g, t, X1, Y1);
    TrilinearU'(X1, Y1, X2, Y2, X3, Y3);
    TrilinearV'(X1, Y1, X2, Y2, X3, Y3);
    Commute(Y1, e * (g - t));
    Commute(X1, (g + t) * h);
  }

  lemma Commute(a: int, b: int)
    ensures a * b == b * a
  {
  }

  lemma TrilinearU'(X1: int, Y1: int, X2: int, Y2: int, X3: int, Y3: int)
    ensures (X2 * Y3 + Y2 * X3) * Y1 + (Y2 * Y3 - X2 * X3) * X1 == X2 * (Y1 * Y3 - X1 * X3) + Y2 * (X1 * Y3 + Y1 * X3)
  {
  }

  lemma TrilinearV'(X1: int, Y1: int, X2: int, Y2: int, X3: int, Y3: int)
    ensures (Y2 * Y3 - X2 * X3) * X1 - (X2 * Y3 + Y2 * X3) * Y1
         == -(X2 * (X1 * X3 + Y1 * Y3)) + Y2 * (X1 * Y3 - Y1 * X3)
  {
  }

  /** The denominator of a sum with the sum of P2 and P3, in reduced form. */
  lemma OuterDenominator(p: int, d: int, Z1: int, T1: int, X2: int, Y2: int, Z2: int, T2: int, X3: int, Y3: int, Z3: int, T3: int)
    requires OnCurve(p, d, X2, Y2, Z2, T2) && OnCurve(p, d, X3, Y3, Z3, T3)
    ensures Cong(p, Z1 * ((Z2 * Z3 - d * T2 * T3) * (Z2 * Z3 + d * T2 * T3)) + d * T1 * ((X2 * Y3 + Y2 * X3) * (Y2 * Y3 - X2 * X3)),
                 AA(d, Z1, T1, Z2 * Z2, Z3 * Z3, T2 * T2, T3 * T3, Z2 * T2, Y3 * Y3 - X3 * X3, Z3 * T3, Y2 * Y2 - X2 * X2))
  {
    var eh := (X2 * Y3 + Y2 * X3) * (Y2 * Y3 - X2 * X3);
    var r := (Z2 * T2) * (Y3 * Y3 - X3 * X3) + (Z3 * T3) * (Y2 * Y2 - X2 * X2);
    var s := Z1 * ((Z2 * Z3 - d * T2 * T3) * (Z2 * Z3 + d * T2 * T3));
    ProductFG(d, Z2, T2, Z3, T3);
    ProductEH(p, d, X2, Y2, Z2, T2, X3, Y3, Z3, T3);
    Refl(p, d * T1);
    MulCong(p, d * T1, d * T1, eh, r);
    Refl(p, s);
    AddCong(p, s, s, d * T1 * eh, d * T1 * r);
  }

  lemma SwapOuter(d: int, X1: int, Y1: int, Z1: int, T1: int, X2: int, Y2: int, Z2: int, T2: int, Z3: int, T3: int)
    ensures Z3 * ((Z2 * Z1 - d * T2 * T1) * (Z2 * Z1 + d * T2 * T1)) + d * T3 * ((X2 * Y1 + Y2 * X1) * (Y2 * Y1 - X2 * X1))
         == ((Z1 * Z2 - d * T1 * T2) * (Z1 * Z2 + d * T1 * T2)) * Z3 + d * ((X1 * Y2 + Y1 * X2) * (Y1 * Y2 - X1 * X2)) * T3
  {
    SwapFactors(d, T1, T2);
    SwapEH(X1, Y1, X2, Y2);
    SwapOuterTerms(Z3, (Z1 * Z2 - d * T1 * T2) * (Z1 * Z2 + d * T1 * T2), d, T3, (X1 * Y2 + Y1 * X2) * (Y1 * Y2 - X1 * X2));
  }

  lemma SwapFactors(d: int, s: int, t: int)
    ensures d * t * s == d * s * t
  {
  }

  lemma SwapEH(X1: int, Y1: int, X2: int, Y2: int)
    ensures (X2 * Y1 + Y2 * X1) == (X1 * Y2 + Y1 * X2) && (Y2 * Y1 - X2 * X1) == (Y1 * Y2 - X1 * X2)
  {
  }

  lemma SwapOuterTerms(Z: int, fg: int, d: int, T: int, eh: int)
    ensures Z * fg + d * T * eh == fg * Z + d * eh * T
  {
  }

  /** x((P1 + P2) + P3) = x(P1 + (P2 + P3)), cross-multiplied. */
  lemma AssociativeX(p: int, d: int, X1: int, Y1: int, Z1: int, T1: int, X2: int, Y2: int, Z2: int, T2: int,
                     X3: int, Y3: int, Z3: int, T3: int)
    requires OnCurve(p, d, X1, Y1, Z1, T1) && OnCurve(p, d, X2, Y2, Z2, T2) && OnCurve(p, d, X3, Y3, Z3, T3)
    ensures var (E, F, G, H) := (X1 * Y2 + Y1 * X2, Z1 * Z2 - d * T1 * T2, Z1 * Z2 + d * T1 * T2, Y1 * Y2 - X1 * X2);
            var (e, f, g, h) := (X2 * Y3 + Y2 * X3, Z2 * Z3 - d * T2 * T3, Z2 * Z3 + d * T2 * T3, Y2 * Y3 - X2 * X3);
            Cong(p, ((E * F) * Y3 + (G * H) * X3) * (Z1 * (f * g) + d * T1 * (e * h)),
                 (X1 * (g * h) + Y1 * (e * f)) * ((F * G) * Z3 + d * (E * H) * T3))
  {
    var (E, F, G, H) := (X1 * Y2 + Y1 * X2, Z1 * Z2 - d * T1 * T2, Z1 * Z2 + d * T1 * T2, Y1 * Y2 - X1 * X2);
    var (e, f, g, h) := (X2 * Y3 + Y2 * X3, Z2 * Z3 - d * T2 * T3, Z2 * Z3 + d * T2 * T3, Y2 * Y3 - X2 * X3);
    var (q1, q2, q3) := (Y1 * Y1 - X1 * X1, Y2 * Y2 - X2 * X2, Y3 * Y3 - X3 * X3);
    var A := AA(d, Z1, T1, Z2 * Z2, Z3 * Z3, T2 * T2, T3 * T3, Z2 * T2, q3, Z3 * T3, q2);
    var B := AA(d, Z3, T3, Z2 * Z2, Z1 * Z1, T2 * T2, T1 * T1, Z2 * T2, q1, Z1 * T1, q2);
    ExpandU(d, X1, Y1, Z1, T1, X2, Y2, Z2, T2, X3, Y3);
    ExpandU'(d, X1, Y1, X2, Y2, Z2, T2, X3, Y3, Z3, T3);
    OuterDenominator(p, d, Z1, T1, X2, Y2, Z2, T2, X3, Y3, Z3, T3);
    OuterDenominator(p, d, Z3, T3, X2, Y2, Z2, T2, X1, Y1, Z1, T1);
    SwapOuter(d, X1, Y1, Z1, T1, X2, Y2, Z2, T2, Z3, T3);
    CoreVanishes(p, d, X1, Y1, Z1, T1, X2, Y2, Z2, T2, X3, Y3, Z3, T3);
    CrossCong(p, (E * F) * Y3 + (G * H) * X3, Z1 * (f * g) + d * T1 * (e * h), A,
                 X1 * (g * h) + Y1 * (e * f), (F * G) * Z3 + d * (E * H) * T3, B);
  }

  lemma CrossCong(p: int, l: int, a: int, A: int, r: int, b: int, B: int)
    requires Cong(p, a, A) && Cong(p, b, B) && Cong(p, l * A, r * B)
    ensures Cong(p, l * a, r * b)
  {
    Refl(p, l);
    Refl(p, r);
    MulCong(p, l, l, a, A);
    MulCong(p, r, r, b, B);
    Sym(p, r * b, r * B);
    Trans(p, l * a, l * A, r * B);
    Trans(p, l * a, r * B, r * b);
  }

  /** y((P1 + P2) + P3) = y(P1 + (P2 + P3)): the x-coordinates after rotating P1. */
  lemma AssociativeY(p: int, d: int, X1: int, Y1: int, Z1: int, T1: int, X2: int, Y2: int, Z2: int, T2: int,
                     X3: int, Y3: int, Z3: int, T3: int)
    requires OnCurve(p, d, X1, Y1, Z1, T1) && OnCurve(p, d, X2, Y2, Z2, T2) && OnCurve(p, d, X3, Y3, Z3, T3)
    ensures var (E, F, G, H) := (X1 * Y2 + Y1 * X2, Z1 * Z2 - d * T1 * T2, Z1 * Z2 + d * T1 * T2, Y1 * Y2 - X1 * X2);
            var (e, f, g, h) := (X2 * Y3 + Y2 * X3, Z2 * Z3 - d * T2 * T3, Z2 * Z3 + d * T2 * T3, Y2 * Y3 - X2 * X3);
            Cong(p, ((G * H) * Y3 - (E * F) * X3) * (Z1 * (f * g) - d * T1 * (e * h)),
                 (Y1 * (g * h) - X1 * (e * f)) * ((F * G) * Z3 - d * (E * H) * T3))
  {
    var (E, F, G, H) := (X1 * Y2 + Y1 * X2, Z1 * Z2 - d * T1 * T2, Z1 * Z2 + d * T1 * T2, Y1 * Y2 - X1 * X2);
    var (e, f, g, h) := (X2 * Y3 + Y2 * X3, Z2 * Z3 - d * T2 * T3, Z2 * Z3 + d * T2 * T3, Y2 * Y3 - X2 * X3);
    RotatedOnCurve(p, d, X1, Y1, Z1, T1);
    AssociativeX(p, d, Y1, -X1, Z1, -T1, X2, Y2, Z2, T2, X3, Y3, Z3, T3);
    RotatedSum(d, X1, Y1, Z1, T1, X2, Y2, Z2, T2);
    RotatedCross(E, F, G, H, X1, X3, Y3, Z3, T1, T3, d, e, f, e * h);
  }

  lemma RotatedSum(d: int, X1: int, Y1: int, Z1: int, T1: int, X2: int, Y2: int, Z2: int, T2: int)
    ensures Y1 * Y2 + (-X1) * X2 == Y1 * Y2 - X1 * X2 && (-X1) * Y2 - Y1 * X2 == -(X1 * Y2 + Y1 * X2)
    ensures Z1 * Z2 - d * (-T1) * T2 == Z1 * Z2 + d * T1 * T2 && Z1 * Z2 + d * (-T1) * T2 == Z1 * Z2 - d * T1 * T2
  {
  }

  lemma RotatedCross(E: int, F: int, G: int, H: int, X1: int, X3: int, Y3: int, Z3: int, T1: int, T3: int, d: int, e: int, f: int, eh: int)
    ensures (H * G) * Y3 + (F * (-E)) * X3 == (G * H) * Y3 - (E * F) * X3
    ensures d * (-T1) * eh == -(d * T1 * eh) && (-X1) * (e * f) == -(X1 * (e * f))
    ensures (G * F) * Z3 + d * (H * (-E)) * T3 == (F * G) * Z3 - d * (E * H) * T3
  {
  }
}
