/**
 Points up to projective equality: a commutative group under edwardsAdd.
 */
module Points {
  import opened ModArith
  import opened Edwards
  import opened GroupLaw

  /** The same affine point: X/Z and Y/Z agree. */
  ghost predicate ProjEq(c: Curve, P: ExtPoint, Q: ExtPoint) {
    Cong(c.p, P.X * Q.Z, Q.X * P.Z) && Cong(c.p, P.Y * Q.Z, Q.Y * P.Z)
  }

  lemma ProjRefl(c: Curve, P: ExtPoint)
    ensures ProjEq(c, P, P)
  {
    Refl(c.p, P.X * P.Z);
    Refl(c.p, P.Y * P.Z);
  }

  lemma ProjSym(c: Curve, P: ExtPoint, Q: ExtPoint)
    requires ProjEq(c, P, Q)
    ensures ProjEq(c, Q, P)
  {
    Sym(c.p, P.X * Q.Z, Q.X * P.Z);
    Sym(c.p, P.Y * Q.Z, Q.Y * P.Z);
  }

  lemma CrossTrans(p: nat, x1: int, z1: int, x2: int, z2: int, x3: int, z3: int)
    requires IsPrime(p) && !Zero(p, z2) && Cong(p, x1 * z2, x2 * z1) && Cong(p, x2 * z3, x3 * z2)
    ensures Cong(p, x1 * z3, x3 * z1)
  {
    Refl(p, z1);
    Refl(p, z3);
    MulCong(p, x1 * z2, x2 * z1, z3, z3);
    MulCong(p, x2 * z3, x3 * z2, z1, z1);
    CrossTerms3(x1, z1, x2, z2, x3, z3);
    Trans(p, z2 * (x1 * z3), (x2 * z1) * z3, z2 * (x3 * z1));
    Cancel(p, z2, x1 * z3, x3 * z1);
  }

  lemma CrossTerms3(x1: int, z1: int, x2: int, z2: int, x3: int, z3: int)
    ensures (x1 * z2) * z3 == z2 * (x1 * z3) && (x2 * z1) * z3 == (x2 * z3) * z1 && (x3 * z2) * z1 == z2 * (x3 * z1)
  {
  }

  lemma ProjTrans(c: Curve, P: ExtPoint, Q: ExtPoint, R: ExtPoint)
    requires IsPrime(c.p) && !Zero(c.p, Q.Z) && ProjEq(c, P, Q) && ProjEq(c, Q, R)
    ensures ProjEq(c, P, R)
  {
    CrossTrans(c.p, P.X, P.Z, Q.X, Q.Z, R.X, R.Z);
    CrossTrans(c.p, P.Y, P.Z, Q.Y, Q.Z, R.Y, R.Z);
  }

  // ----- Addition respects projective equality

  /** l P and m Q have congruent coordinates. */
  ghost predicate Proportional(p: int, l: int, P: ExtPoint, m: int, Q: ExtPoint) {
    Cong(p, l * P.X, m * Q.X) && Cong(p, l * P.Y, m * Q.Y) && Cong(p, l * P.Z, m * Q.Z) && Cong(p, l * P.T, m * Q.T)
  }

  lemma ProportionalT(p: nat, X: int, Y: int, Z: int, T: int, X': int, Y': int, Z': int, T': int)
    requires IsPrime(p) && !Zero(p, Z) && !Zero(p, Z') && Cong(p, X * Y, Z * T) && Cong(p, X' * Y', Z' * T')
    requires Cong(p, X * Z', X' * Z) && Cong(p, Y * Z', Y' * Z)
    ensures Cong(p, Z' * T, Z * T')
  {
    MulCong(p, X * Z', X' * Z, Y * Z', Y' * Z);
    Refl(p, Z' * Z');
    Refl(p, Z * Z);
    MulCong(p, X * Y, Z * T, Z' * Z', Z' * Z');
    MulCong(p, X' * Y', Z' * T', Z * Z, Z * Z);
    ProportionalTerms(X, Y, Z, T, Z');
    ProportionalTerms(X', Y', Z', T', Z);
    var (a, b) := ((Z * Z') * (Z' * T), (Z' * Z) * (Z * T'));
    Sym(p, (X * Z') * (Y * Z'), a);
    Trans(p, a, (X * Z') * (Y * Z'), (X' * Z) * (Y' * Z));
    Trans(p, a, (X' * Z) * (Y' * Z), b);
    NoZeroDivisors(p, Z, Z');
    Commute(Z', Z);
    Cancel(p, Z * Z', Z' * T, Z * T');
  }

  lemma ProportionalTerms(X: int, Y: int, Z: int, T: int, W: int)
    ensures (X * Y) * (W * W) == (X * W) * (Y * W) && (Z * T) * (W * W) == (Z * W) * (W * T)
  {
  }

  lemma ProjProportional(c: Curve, P: ExtPoint, Q: ExtPoint)
    requires IsPrime(c.p) && Point(c, P) && Point(c, Q) && ProjEq(c, P, Q)
    ensures Proportional(c.p, Q.Z, P, P.Z, Q)
  {
    ProportionalT(c.p, P.X, P.Y, P.Z, P.T, Q.X, Q.Y, Q.Z, Q.T);
    Refl(c.p, Q.Z * P.Z);
    Commute(Q.Z, P.Z);
    Commute(Q.Z, P.X);
    Commute(P.Z, Q.X);
    Commute(Q.Z, P.Y);
    Commute(P.Z, Q.Y);
  }

  lemma CrossRatio(p: nat, l: int, x: int, z: int, m: int, x': int, z': int)
    requires IsPrime(p) && !Zero(p, l) && !Zero(p, m) && Cong(p, l * x, m * x') && Cong(p, l * z, m * z')
    ensures Cong(p, x * z', x' * z)
  {
    Sym(p, l * z, m * z');
    MulCong(p, l * x, m * x', m * z', l * z);
    RatioTerms(l, m, x, z', x', z);
    NoZeroDivisors(p, l, m);
    Cancel(p, l * m, x * z', x' * z);
  }

  lemma RatioTerms(l: int, m: int, x: int, z': int, x': int, z: int)
    ensures (l * x) * (m * z') == (l * m) * (x * z') && (m * x') * (l * z) == (l * m) * (x' * z)
  {
  }

  lemma ProportionalProj(c: Curve, l: int, P: ExtPoint, m: int, Q: ExtPoint)
    requires IsPrime(c.p) && !Zero(c.p, l) && !Zero(c.p, m) && Proportional(c.p, l, P, m, Q)
    ensures ProjEq(c, P, Q)
  {
    CrossRatio(c.p, l, P.X, P.Z, m, Q.X, Q.Z);
    CrossRatio(c.p, l, P.Y, P.Z, m, Q.Y, Q.Z);
  }

  lemma ProductPair(p: int, l: int, x: int, l': int, x': int, m: int, y: int, m': int, y': int)
    requires Cong(p, l * x, l' * x') && Cong(p, m * y, m' * y')
    ensures Cong(p, (l * m) * (x * y), (l' * m') * (x' * y'))
  {
    MulCong(p, l * x, l' * x', m * y, m' * y');
    PairTerms(l, m, x, y);
    PairTerms(l', m', x', y');
  }

  lemma PairTerms(l: int, m: int, x: int, y: int)
    ensures (l * x) * (m * y) == (l * m) * (x * y)
  {
  }

  lemma SumPair(p: int, k: int, a: int, b: int, k': int, a': int, b': int)
    requires Cong(p, k * a, k' * a') && Cong(p, k * b, k' * b')
    ensures Cong(p, k * (a + b), k' * (a' + b')) && Cong(p, k * (a - b), k' * (a' - b'))
  {
    AddCong(p, k * a, k' * a', k * b, k' * b');
    SumTerms(k, a, b);
    SumTerms(k', a', b');
  }

  lemma SumTerms(k: int, a: int, b: int)
    ensures k * (a + b) == k * a + k * b && k * (a - b) == k * a - k * b
  {
  }

  /** The polynomials of the sum scale with the product of the factors. */
  lemma FormsProportional(p: int, d: int, l: int, P: ExtPoint, l': int, P': ExtPoint, m: int, Q: ExtPoint, m': int, Q': ExtPoint)
    requires Proportional(p, l, P, l', P') && Proportional(p, m, Q, m', Q')
    ensures var (k, k') := (l * m, l' * m');
            Cong(p, k * EE(P, Q), k' * EE(P', Q')) && Cong(p, k * HH(P, Q), k' * HH(P', Q')) &&
            Cong(p, k * FF(d, P, Q), k' * FF(d, P', Q')) && Cong(p, k * GG(d, P, Q), k' * GG(d, P', Q'))
  {
    var (k, k') := (l * m, l' * m');
    ProductPair(p, l, P.X, l', P'.X, m, Q.Y, m', Q'.Y);
    ProductPair(p, l, P.Y, l', P'.Y, m, Q.X, m', Q'.X);
    SumPair(p, k, P.X * Q.Y, P.Y * Q.X, k', P'.X * Q'.Y, P'.Y * Q'.X);
    ProductPair(p, l, P.Y, l', P'.Y, m, Q.Y, m', Q'.Y);
    ProductPair(p, l, P.X, l', P'.X, m, Q.X, m', Q'.X);
    SumPair(p, k, P.Y * Q.Y, P.X * Q.X, k', P'.Y * Q'.Y, P'.X * Q'.X);
    FormsZT(p, d, l, P, l', P', m, Q, m', Q');
  }

  lemma FormsZT(p: int, d: int, l: int, P: ExtPoint, l': int, P': ExtPoint, m: int, Q: ExtPoint, m': int, Q': ExtPoint)
    requires Proportional(p, l, P, l', P') && Proportional(p, m, Q, m', Q')
    ensures Cong(p, (l * m) * FF(d, P, Q), (l' * m') * FF(d, P', Q'))
    ensures Cong(p, (l * m) * GG(d, P, Q), (l' * m') * GG(d, P', Q'))
  {
    var (k, k') := (l * m, l' * m');
    ProductPair(p, l, P.Z, l', P'.Z, m, Q.Z, m', Q'.Z);
    ProductPair(p, l, P.T, l', P'.T, m, Q.T, m', Q'.T);
    Refl(p, d);
    MulCong(p, d, d, k * (P.T * Q.T), k' * (P'.T * Q'.T));
    ScaleD(d, k, P.T, Q.T);
    ScaleD(d, k', P'.T, Q'.T);
    SumPair(p, k, P.Z * Q.Z, d * P.T * Q.T, k', P'.Z * Q'.Z, d * P'.T * Q'.T);
  }

  lemma ScaleD(d: int, k: int, s: int, t: int)
    ensures d * (k * (s * t)) == k * (d * s * t)
  {
  }

  /** edwardsAdd maps projectively equal arguments to projectively equal sums. */
  lemma AddRespects(c: Curve, P: ExtPoint, P': ExtPoint, Q: ExtPoint, Q': ExtPoint)
    requires Complete(c) && Point(c, P) && Point(c, P') && Point(c, Q) && Point(c, Q')
    requires ProjEq(c, P, P') && ProjEq(c, Q, Q')
    ensures ProjEq(c, EdwardsAdd(c, P, Q), EdwardsAdd(c, P', Q'))
  {
    var p, d := c.p, c.d;
    ProjProportional(c, P, P');
    ProjProportional(c, Q, Q');
    var (k, k') := (P'.Z * Q'.Z, P.Z * Q.Z);
    FormsProportional(p, d, P'.Z, P, P.Z, P', Q'.Z, Q, Q.Z, Q');
    NoZeroDivisors(p, P'.Z, Q'.Z);
    NoZeroDivisors(p, P.Z, Q.Z);
    NoZeroDivisors(p, k, k);
    NoZeroDivisors(p, k', k');
    var R, R' := EdwardsAdd(c, P, Q), EdwardsAdd(c, P', Q');
    AddShape(c, P, Q);
    AddShape(c, P', Q');
    var (e, f, g, h) := (EE(P, Q), FF(d, P, Q), GG(d, P, Q), HH(P, Q));
    var (e', f', g', h') := (EE(P', Q'), FF(d, P', Q'), GG(d, P', Q'), HH(P', Q'));
    ProductCoordinate(p, k, e, f, R.X, k', e', f', R'.X);
    ProductCoordinate(p, k, g, h, R.Y, k', g', h', R'.Y);
    ProductCoordinate(p, k, f, g, R.Z, k', f', g', R'.Z);
    ProductCoordinate(p, k, e, h, R.T, k', e', h', R'.T);
    ProportionalProj(c, k * k, R, k' * k', R');
  }

  lemma ProductCoordinate(p: int, k: int, a: int, b: int, r: int, k': int, a': int, b': int, r': int)
    requires Cong(p, k * a, k' * a') && Cong(p, k * b, k' * b') && Cong(p, r, a * b) && Cong(p, r', a' * b')
    ensures Cong(p, (k * k) * r, (k' * k') * r')
  {
    ProductPair(p, k, a, k', a', k, b, k', b');
    Refl(p, k * k);
    Refl(p, k' * k');
    MulCong(p, k * k, k * k, r, a * b);
    MulCong(p, k' * k', k' * k', r', a' * b');
    Sym(p, (k' * k') * r', (k' * k') * (a' * b'));
    Trans(p, (k * k) * r, (k * k) * (a * b), (k' * k') * (a' * b'));
    Trans(p, (k * k) * r, (k' * k') * (a' * b'), (k' * k') * r');
  }

  // ----- The group laws

  lemma ModMulCommutes(p: nat, a: int, b: int)
    requires p > 0
    ensures ModMul(p, a, b) == ModMul(p, b, a)
  {
    Commute(a, b);
  }

  /** The sum does not depend on the order of its arguments: the two results are equal, not just equivalent. */
  lemma AddCommutes(c: Curve, P: ExtPoint, Q: ExtPoint)
    requires c.p > 0
    ensures EdwardsAdd(c, P, Q) == EdwardsAdd(c, Q, P)
  {
    ModMulCommutes(c.p, P.X, Q.X);
    ModMulCommutes(c.p, P.Y, Q.Y);
    ModMulCommutes(c.p, P.T, Q.T);
    ModMulCommutes(c.p, P.Z, Q.Z);
    ModMulCommutes(c.p, ModAdd(c.p, P.X, P.Y), ModAdd(c.p, Q.X, Q.Y));
  }

  /** The polynomials of a sum whose first argument stands for (X, Y, Z, T). */
  lemma FormsStand(p: int, d: int, S: ExtPoint, X: int, Y: int, Z: int, T: int, Q: ExtPoint)
    requires Stands(p, S, X, Y, Z, T)
    ensures Cong(p, EE(S, Q), X * Q.Y + Y * Q.X) && Cong(p, HH(S, Q), Y * Q.Y - X * Q.X)
    ensures Cong(p, FF(d, S, Q), Z * Q.Z - d * T * Q.T) && Cong(p, GG(d, S, Q), Z * Q.Z + d * T * Q.T)
  {
    Refls(p, Q);
    MulCong(p, S.X, X, Q.Y, Q.Y);
    MulCong(p, S.Y, Y, Q.X, Q.X);
    AddCong(p, S.X * Q.Y, X * Q.Y, S.Y * Q.X, Y * Q.X);
    MulCong(p, S.Y, Y, Q.Y, Q.Y);
    MulCong(p, S.X, X, Q.X, Q.X);
    AddCong(p, S.Y * Q.Y, Y * Q.Y, S.X * Q.X, X * Q.X);
    FormsStandZT(p, d, S.Z, Z, S.T, T, Q.Z, Q.T);
  }

  lemma FormsStandZT(p: int, d: int, z: int, Z: int, t: int, T: int, z': int, t': int)
    requires Cong(p, z, Z) && Cong(p, t, T)
    ensures Cong(p, z * z' - d * t * t', Z * z' - d * T * t') && Cong(p, z * z' + d * t * t', Z * z' + d * T * t')
  {
    Refl(p, d);
    Refl(p, z');
    Refl(p, t');
    MulCong(p, z, Z, z', z');
    MulCong(p, d, d, t, T);
    MulCong(p, d * t, d * T, t', t');
    AddCong(p, z * z', Z * z', d * t * t', d * T * t');
  }

  lemma FormsSwap(d: int, P: ExtPoint, Q: ExtPoint)
    ensures EE(P, Q) == EE(Q, P) && HH(P, Q) == HH(Q, P)
    ensures FF(d, P, Q) == FF(d, Q, P) && GG(d, P, Q) == GG(d, Q, P)
  {
    SwapEH(P.X, P.Y, Q.X, Q.Y);
    SwapFactors(d, P.T, Q.T);
    Commute(P.Z, Q.Z);
  }

  /** Two sums are equivalent once their ratios E : G and H : F agree. */
  lemma SumsAgree(c: Curve, P: ExtPoint, Q: ExtPoint, P': ExtPoint, Q': ExtPoint)
    requires c.p > 0
    requires Cong(c.p, EE(P, Q) * GG(c.d, P', Q'), EE(P', Q') * GG(c.d, P, Q))
    requires Cong(c.p, HH(P, Q) * FF(c.d, P', Q'), HH(P', Q') * FF(c.d, P, Q))
    ensures ProjEq(c, EdwardsAdd(c, P, Q), EdwardsAdd(c, P', Q'))
  {
    var p, d := c.p, c.d;
    var R, R' := EdwardsAdd(c, P, Q), EdwardsAdd(c, P', Q');
    AddShape(c, P, Q);
    AddShape(c, P', Q');
    var (e, f, g, h) := (EE(P, Q), FF(d, P, Q), GG(d, P, Q), HH(P, Q));
    var (e', f', g', h') := (EE(P', Q'), FF(d, P', Q'), GG(d, P', Q'), HH(P', Q'));
    CoordinatesAgree(p, R.X, e, f, R.Z, g, R'.X, e', f', R'.Z, g') by {
      Commute(f, g);
      Commute(f', g');
    }
    CoordinatesAgree(p, R.Y, h, g, R.Z, f, R'.Y, h', g', R'.Z, f') by {
      Commute(g, h);
      Commute(g', h');
    }
  }

  lemma CoordinatesAgree(p: int, x: int, e: int, f: int, z: int, g: int, x': int, e': int, f': int, z': int, g': int)
    requires Cong(p, x, e * f) && Cong(p, z, g * f) && Cong(p, x', e' * f') && Cong(p, z', g' * f')
    requires Cong(p, e * g', e' * g)
    ensures Cong(p, x * z', x' * z)
  {
    MulCong(p, x, e * f, z', g' * f');
    MulCong(p, x', e' * f', z, g * f);
    Refl(p, f * f');
    MulCong(p, e * g', e' * g, f * f', f * f');
    AgreeTerms(e, f, g', f');
    AgreeTerms(e', f', g, f);
    Commute(f, f');
    Sym(p, x' * z, (e' * g) * (f * f'));
    Trans(p, x * z', (e * g') * (f * f'), (e' * g) * (f * f'));
    Trans(p, x * z', (e' * g) * (f * f'), x' * z);
  }

  lemma AgreeTerms(e: int, f: int, g': int, f': int)
    ensures (e * f) * (g' * f') == (e * g') * (f * f')
  {
  }

  lemma ProductsCong(p: int, a: int, A: int, b: int, B: int, a': int, A': int, b': int, B': int)
    requires Cong(p, a, A) && Cong(p, b, B) && Cong(p, a', A') && Cong(p, b', B') && Cong(p, A * B, A' * B')
    ensures Cong(p, a * b, a' * b')
  {
    MulCong(p, a, A, b, B);
    MulCong(p, a', A', b', B');
    Sym(p, a' * b', A' * B');
    Trans(p, a * b, A * B, A' * B');
    Trans(p, a * b, A' * B', a' * b');
  }

  /** The forms of (P1 + P2) + P3 and of P1 + (P2 + P3), as the polynomials of GroupLaw. */
  lemma NestedForms(c: Curve, P1: ExtPoint, P2: ExtPoint, P3: ExtPoint)
    requires c.p > 0
    ensures var p, d, S, R := c.p, c.d, EdwardsAdd(c, P1, P2), EdwardsAdd(c, P2, P3);
            var (E, F, G, H) := (EE(P1, P2), FF(d, P1, P2), GG(d, P1, P2), HH(P1, P2));
            var (e, f, g, h) := (EE(P2, P3), FF(d, P2, P3), GG(d, P2, P3), HH(P2, P3));
            Cong(p, EE(S, P3), (E * F) * P3.Y + (G * H) * P3.X) && Cong(p, HH(S, P3), (G * H) * P3.Y - (E * F) * P3.X) &&
            Cong(p, FF(d, S, P3), (F * G) * P3.Z - d * (E * H) * P3.T) && Cong(p, GG(d, S, P3), (F * G) * P3.Z + d * (E * H) * P3.T) &&
            Cong(p, EE(P1, R), P1.X * (g * h) + P1.Y * (e * f)) && Cong(p, HH(P1, R), P1.Y * (g * h) - P1.X * (e * f)) &&
            Cong(p, FF(d, P1, R), P1.Z * (f * g) - d * P1.T * (e * h)) && Cong(p, GG(d, P1, R), P1.Z * (f * g) + d * P1.T * (e * h))
  {
    var p, d, S, R := c.p, c.d, EdwardsAdd(c, P1, P2), EdwardsAdd(c, P2, P3);
    var (E, F, G, H) := (EE(P1, P2), FF(d, P1, P2), GG(d, P1, P2), HH(P1, P2));
    var (e, f, g, h) := (EE(P2, P3), FF(d, P2, P3), GG(d, P2, P3), HH(P2, P3));
    AddShape(c, P1, P2);
    AddShape(c, P2, P3);
    FormsStand(p, d, S, E * F, G * H, F * G, E * H, P3);
    FormsStand(p, d, R, e * f, g * h, f * g, e * h, P1);
    FormsSwap(d, P1, R);
    SwapInner(d, e * f, g * h, f * g, e * h, P1.X, P1.Y, P1.Z, P1.T);
  }

  /** edwardsAdd is associative up to projective equality. */
  lemma AddAssociates(c: Curve, P1: ExtPoint, P2: ExtPoint, P3: ExtPoint)
    requires c.p > 0 && OnCurve(c.p, c.d, P1.X, P1.Y, P1.Z, P1.T)
    requires OnCurve(c.p, c.d, P2.X, P2.Y, P2.Z, P2.T) && OnCurve(c.p, c.d, P3.X, P3.Y, P3.Z, P3.T)
    ensures ProjEq(c, EdwardsAdd(c, EdwardsAdd(c, P1, P2), P3), EdwardsAdd(c, P1, EdwardsAdd(c, P2, P3)))
  {
    AssociateX(c, P1, P2, P3);
    AssociateY(c, P1, P2, P3);
    SumsAgree(c, EdwardsAdd(c, P1, P2), P3, P1, EdwardsAdd(c, P2, P3));
  }

  lemma AssociateX(c: Curve, P1: ExtPoint, P2: ExtPoint, P3: ExtPoint)
    requires c.p > 0 && OnCurve(c.p, c.d, P1.X, P1.Y, P1.Z, P1.T)
    requires OnCurve(c.p, c.d, P2.X, P2.Y, P2.Z, P2.T) && OnCurve(c.p, c.d, P3.X, P3.Y, P3.Z, P3.T)
    ensures var S, R := EdwardsAdd(c, P1, P2), EdwardsAdd(c, P2, P3);
            Cong(c.p, EE(S, P3) * GG(c.d, P1, R), EE(P1, R) * GG(c.d, S, P3))
  {
    var p, d, S, R := c.p, c.d, EdwardsAdd(c, P1, P2), EdwardsAdd(c, P2, P3);
    var (E, F, G, H) := (EE(P1, P2), FF(d, P1, P2), GG(d, P1, P2), HH(P1, P2));
    var (e, f, g, h) := (EE(P2, P3), FF(d, P2, P3), GG(d, P2, P3), HH(P2, P3));
    NestedForms(c, P1, P2, P3);
    AssociativeX(p, d, P1.X, P1.Y, P1.Z, P1.T, P2.X, P2.Y, P2.Z, P2.T, P3.X, P3.Y, P3.Z, P3.T);
    ProductsCong(p, EE(S, P3), (E * F) * P3.Y + (G * H) * P3.X, GG(d, P1, R), P1.Z * (f * g) + d * P1.T * (e * h),
                    EE(P1, R), P1.X * (g * h) + P1.Y * (e * f), GG(d, S, P3), (F * G) * P3.Z + d * (E * H) * P3.T);
  }

  lemma AssociateY(c: Curve, P1: ExtPoint, P2: ExtPoint, P3: ExtPoint)
    requires c.p > 0 && OnCurve(c.p, c.d, P1.X, P1.Y, P1.Z, P1.T)
    requires OnCurve(c.p, c.d, P2.X, P2.Y, P2.Z, P2.T) && OnCurve(c.p, c.d, P3.X, P3.Y, P3.Z, P3.T)
    ensures var S, R := EdwardsAdd(c, P1, P2), EdwardsAdd(c, P2, P3);
            Cong(c.p, HH(S, P3) * FF(c.d, P1, R), HH(P1, R) * FF(c.d, S, P3))
  {
    var p, d, S, R := c.p, c.d, EdwardsAdd(c, P1, P2), EdwardsAdd(c, P2, P3);
    var (E, F, G, H) := (EE(P1, P2), FF(d, P1, P2), GG(d, P1, P2), HH(P1, P2));
    var (e, f, g, h) := (EE(P2, P3), FF(d, P2, P3), GG(d, P2, P3), HH(P2, P3));
    NestedForms(c, P1, P2, P3);
    AssociativeY(p, d, P1.X, P1.Y, P1.Z, P1.T, P2.X, P2.Y, P2.Z, P2.T, P3.X, P3.Y, P3.Z, P3.T);
    ProductsCong(p, HH(S, P3), (G * H) * P3.Y - (E * F) * P3.X, FF(d, P1, R), P1.Z * (f * g) - d * P1.T * (e * h),
                    HH(P1, R), P1.Y * (g * h) - P1.X * (e * f), FF(d, S, P3), (F * G) * P3.Z - d * (E * H) * P3.T);
  }

  lemma SwapInner(d: int, x: int, y: int, z: int, t: int, X1: int, Y1: int, Z1: int, T1: int)
    ensures x * Y1 + y * X1 == X1 * y + Y1 * x && y * Y1 - x * X1 == Y1 * y - X1 * x
    ensures z * Z1 - d * t * T1 == Z1 * z - d * T1 * t && z * Z1 + d * t * T1 == Z1 * z + d * T1 * t
  {
  }

  lemma IdentityPoint(c: Curve)
    requires c.p >= 2
    ensures Point(c, Identity(c)) && Identity(c) == ExtPoint(0, 1, 1, 0)
  {
    ModSmall(c.p, 0);
    ModSmall(c.p, 1);
    Refl(c.p, 1);
    Refl(c.p, 0);
    assert c.d * 0 * 0 == 0;
    OneNotZero(c.p, 1);
  }

  /** (0, 1) is neutral. */
  lemma AddIdentity(c: Curve, P: ExtPoint)
    requires c.p >= 2
    ensures ProjEq(c, EdwardsAdd(c, P, Identity(c)), P) && ProjEq(c, EdwardsAdd(c, Identity(c), P), P)
  {
    var p, O := c.p, Identity(c);
    IdentityPoint(c);
    var R := EdwardsAdd(c, P, O);
    AddShape(c, P, O);
    assert c.d * P.T * 0 == 0;
    var (x, y, z) := (P.X * P.Z, P.Z * P.Y, P.Z * P.Z);
    assert Cong(p, R.X, x) && Cong(p, R.Y, y) && Cong(p, R.Z, z);
    ScaleBack(p, R.X, R.Z, P.X, P.Z);
    Commute(P.Z, P.Y);
    ScaleBack(p, R.Y, R.Z, P.Y, P.Z);
    AddCommutes(c, P, O);
  }

  lemma ScaleBack(p: int, r: int, s: int, x: int, z: int)
    requires Cong(p, r, x * z) && Cong(p, s, z * z)
    ensures Cong(p, r * z, x * s)
  {
    Refl(p, z);
    Refl(p, x);
    MulCong(p, r, x * z, z, z);
    MulCong(p, x, x, s, z * z);
    Sym(p, x * s, x * (z * z));
    Assoc(x, z, z);
    Trans(p, r * z, (x * z) * z, x * s);
  }

  lemma NegStands(p: nat, d: int, x: int, t: int, X: int, Y: int, Z: int, T: int, N: ExtPoint)
    requires p > 0 && OnCurve(p, d, X, Y, Z, T) && N.X == Neg(p, X) && N.Y == Y && N.Z == Z && N.T == Neg(p, T)
    requires x == -X && t == -T
    ensures Stands(p, N, x, Y, Z, t) && OnCurve(p, d, N.X, N.Y, N.Z, N.T)
  {
    Refl(p, X);
    Refl(p, Y);
    Refl(p, Z);
    Refl(p, T);
    NegOp(p, X, X);
    NegOp(p, T, T);
    FlipOnCurve(p, d, X, Y, Z, T);
    OnCurveCong(p, d, N, x, Y, Z, t);
  }

  lemma NegIsPoint(c: Curve, P: ExtPoint)
    requires c.p > 0 && Point(c, P)
    ensures Point(c, NegPoint(c, P)) && Stands(c.p, NegPoint(c, P), 0 - P.X, P.Y, P.Z, 0 - P.T)
  {
    NegStands(c.p, c.d, 0 - P.X, 0 - P.T, P.X, P.Y, P.Z, P.T, NegPoint(c, P));
  }

  /** The negation that spake2ee2 builds is the inverse. */
  lemma AddInverse(c: Curve, P: ExtPoint)
    requires c.p >= 2 && Point(c, P)
    ensures ProjEq(c, EdwardsAdd(c, P, NegPoint(c, P)), Identity(c))
  {
    var p, d, N := c.p, c.d, NegPoint(c, P);
    NegIsPoint(c, P);
    IdentityPoint(c);
    AddShape(c, P, N);
    FormsStand(p, d, N, 0 - P.X, P.Y, P.Z, 0 - P.T, P);
    FormsSwap(d, P, N);
    InverseForms(d, P.X, P.Y, P.Z, P.T);
    InverseCoordinates(p, EE(P, N), FF(d, P, N), GG(d, P, N), HH(P, N), P.X * P.X + P.Y * P.Y, P.Z * P.Z + d * P.T * P.T,
                       EdwardsAdd(c, P, N));
  }

  /** E vanishes, and H = X^2 + Y^2 equals F = Z^2 + d T^2. */
  lemma InverseCoordinates(p: int, e: int, f: int, g: int, h: int, s: int, t: int, R: ExtPoint)
    requires Cong(p, e, 0) && Cong(p, h, s) && Cong(p, f, t) && Cong(p, s, t)
    requires Cong(p, R.X, e * f) && Cong(p, R.Y, g * h) && Cong(p, R.Z, f * g)
    ensures Cong(p, R.X, 0) && Cong(p, R.Y, R.Z)
  {
    Refl(p, f);
    MulCong(p, e, 0, f, f);
    Trans(p, R.X, e * f, 0);
    Sym(p, f, t);
    Trans(p, h, s, t);
    Trans(p, h, t, f);
    Refl(p, g);
    MulCong(p, g, g, h, f);
    Commute(g, f);
    Trans(p, R.Y, g * h, f * g);
    Sym(p, R.Z, f * g);
    Trans(p, R.Y, f * g, R.Z);
  }

  lemma InverseForms(d: int, X: int, Y: int, Z: int, T: int)
    ensures (-X) * Y + Y * X == 0 && Y * Y - (-X) * X == X * X + Y * Y
    ensures Z * Z - d * (-T) * T == Z * Z + d * T * T
  {
  }

  /** Unblinding cancels blinding: (P + B) + (-B) is P again. */
  lemma Unblind(c: Curve, P: ExtPoint, B: ExtPoint)
    requires Complete(c) && Point(c, P) && Point(c, B)
    ensures ProjEq(c, EdwardsAdd(c, EdwardsAdd(c, P, B), NegPoint(c, B)), P)
  {
    var N, O := NegPoint(c, B), Identity(c);
    NegIsPoint(c, B);
    IdentityPoint(c);
    AddComplete(c, B, N);
    AddComplete(c, P, EdwardsAdd(c, B, N));
    AddComplete(c, P, O);
    AddAssociates(c, P, B, N);
    AddInverse(c, B);
    ProjRefl(c, P);
    AddRespects(c, P, P, EdwardsAdd(c, B, N), O);
    AddIdentity(c, P);
    ProjTrans(c, EdwardsAdd(c, P, EdwardsAdd(c, B, N)), EdwardsAdd(c, P, O), P);
    ProjTrans(c, EdwardsAdd(c, EdwardsAdd(c, P, B), N), EdwardsAdd(c, P, EdwardsAdd(c, B, N)), P);
  }
}
