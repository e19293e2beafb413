/**
 Square roots modulo a prime: legendre, msqrt (with its Tonelli-Shanks loop) and
 misqrt of pak.go, for an arbitrary odd prime fieldP.

 The loop computes "1 << (r - m - 1)" in a 64-bit int. A count of 63 gives the
 most negative int, for which big.Int.Exp inverts the base; larger counts give 0;
 a negative count panics. All three are modelled.
 */
module SquareRoot {
  import opened ModArith
  import opened Residues

  /** What a call of msqrt does: return a number, or panic on a negative shift count. */
  datatype Outcome = Root(v: nat) | Panic

  function Legendre(p: nat, a: int): (r: nat)
    requires p > 0
  {
    var r := Exp(p, Mod(p, a), Half(p));
    if r == p - 1 then Neg(p, 1) else r
  }

  ghost predicate NonResidueFrom(p: nat, n: nat)
    requires p > 0
  {
    exists m :: n <= m < p && Legendre(p, m) == Neg(p, 1)
  }

  /** The search of spake2eeH2P and msqrt: the first number from n on whose symbol is -1. */
  function FirstNonResidue(p: nat, n: nat): (r: nat)
    requires p > 0 && NonResidueFrom(p, n)
    ensures n <= r < p && Legendre(p, r) == Neg(p, 1)
    decreases p - n
  {
    if Legendre(p, n) == Neg(p, 1) then n else FirstNonResidue(p, n + 1)
  }

  /** 2^k. */
  function TwoTo(k: nat): (r: nat)
    ensures r >= 1
  {
    if k == 0 then 1 else 2 * TwoTo(k - 1)
  }

  /** m as (s, e) with s odd and m = s * 2^e. */
  function TwoAdic(m: nat): (r: (nat, nat))
    requires m > 0
    ensures r.0 % 2 == 1
  {
    if m % 2 == 1 then (m, 0)
    else
      var (s, e) := TwoAdic(m / 2);
      (s, e + 1)
  }

  lemma {:induction false} TwoAdicSpec(m: nat)
    requires m > 0
    ensures m == TwoAdic(m).0 * TwoTo(TwoAdic(m).1)
  {
    if m % 2 == 0 {
      TwoAdicSpec(m / 2);
      var (s, e) := TwoAdic(m / 2);
      DoubleProduct(s, TwoTo(e));
    }
  }

  /** Go's 1 << k in a 64-bit int, for k >= 0. */
  function ShiftOne(k: nat): int {
    if k < 63 then TwoTo(k) else if k == 63 then 0 - TwoTo(k) else 0
  }

  /** big.Int.Exp with a possibly negative exponent. */
  function ExpInt(p: nat, g: int, y: int): nat
    requires p > 0
  {
    if y >= 0 then Exp(p, g, y) else Exp(p, ModInv(p, g), -y)
  }

  /** The inner loop: how often t is squared, starting from m, before it is 1 or m is r. */
  function Squarings(p: nat, t: int, m: nat, r: nat): (k: nat)
    requires p > 0 && m <= r
    ensures m <= k <= r
    decreases r - m
  {
    if m < r && t != 1 then Squarings(p, Square(p, t), m + 1, r) else m
  }

  /** The outer loop. */
  function Tonelli(p: nat, x: nat, b: nat, g: nat, r: nat): Outcome
    requires p > 0
    decreases r
  {
    var m := Squarings(p, b, 0, r);
    if m == 0 then Root(x)
    else if m == r then Panic
    else
      var gs := ExpInt(p, g, ShiftOne(r - m - 1));
      var g' := Square(p, gs);
      Tonelli(p, ModMul(p, x, gs), ModMul(p, b, g'), g', m)
  }

  function Msqrt(p: nat, v: int): Outcome
    requires OddPrime(p)
  {
    var a := Mod(p, v);
    if a == 0 then Root(0)
    else if Legendre(p, a) != 1 then Root(0)
    else
      var (s, e) := TwoAdic(p - 1);
      if e == 1 then Root(Exp(p, a, (p + 1) / 4))
      else
        SearchEnds(p);
        var n := FirstNonResidue(p, 2);
        Tonelli(p, Exp(p, a, (s + 1) / 2), Exp(p, a, s), Exp(p, n, s), e)
  }

  function Misqrt(p: nat, a: int): Outcome
    requires OddPrime(p)
  {
    if p % 4 == 3 then Root(Exp(p, Mod(p, a), (p - 3) / 4))
    else
      var root := Msqrt(p, a);
      if root.Panic? || root.v == 0 then root else Root(ModInv(p, root.v))
  }

  // ----- msqrt as the source writes it

  /** The halving loop of msqrt. */
  method SplitTwoAdic(m: nat) returns (s: nat, e: nat)
    requires m > 0
    ensures s % 2 == 1 && m == s * TwoTo(e)
    ensures (s, e) == TwoAdic(m)
  {
    s, e := m, 0;
    while s % 2 == 0
      invariant s > 0
      invariant TwoAdic(m) == (TwoAdic(s).0, TwoAdic(s).1 + e)
      decreases s
    {
      s, e := s / 2, e + 1;
    }
    TwoAdicSpec(m);
  }

  /** The search loop that msqrt and spake2eeH2P share. */
  method FindNonResidue(p: nat) returns (n: nat)
    requires OddPrime(p)
    ensures 2 <= n < p && Legendre(p, n) == Neg(p, 1)
    ensures forall m :: 2 <= m < n ==> Legendre(p, m) != Neg(p, 1)
    ensures NonResidueFrom(p, 2) && n == FirstNonResidue(p, 2)
  {
    SearchEnds(p);
    n := 2;
    while Legendre(p, n) != Neg(p, 1)
      invariant 2 <= n < p && NonResidueFrom(p, n)
      invariant FirstNonResidue(p, n) == FirstNonResidue(p, 2)
      invariant forall m :: 2 <= m < n ==> Legendre(p, m) != Neg(p, 1)
      decreases p - n
    {
      n := n + 1;
    }
  }

  /** The loops of Tonelli and Shanks. */
  method TonelliLoops(p: nat, x0: nat, b0: nat, g0: nat, e: nat) returns (o: Outcome)
    requires p > 0
    ensures o == Tonelli(p, x0, b0, g0, e)
  {
    var x, b, g, r := x0, b0, g0, e;
    while true
      invariant Tonelli(p, x, b, g, r) == Tonelli(p, x0, b0, g0, e)
      decreases r
    {
      var m, t := 0, b;
      while m < r && t != 1
        invariant 0 <= m <= r
        invariant Squarings(p, t, m, r) == Squarings(p, b, 0, r)
      {
        t, m := Square(p, t), m + 1;
      }
      if m == 0 {
        return Root(x);
      }
      if r < m + 1 {
        return Panic;
      }
      var gs := ExpInt(p, g, ShiftOne(r - m - 1));
      g := Square(p, gs);
      x := ModMul(p, x, gs);
      b := ModMul(p, b, g);
      r := m;
    }
  }

  /** The imperative msqrt computes the function that the lemmas below are about. */
  method MsqrtLoops(p: nat, v: int) returns (o: Outcome)
    requires OddPrime(p)
    ensures o == Msqrt(p, v)
  {
    var a := Mod(p, v);
    if a == 0 {
      return Root(0);
    }
    if Legendre(p, a) != 1 {
      return Root(0);
    }
    var s, e := SplitTwoAdic(p - 1);
    if e == 1 {
      return Root(Exp(p, a, (p + 1) / 4));
    }
    var n := FindNonResidue(p);
    o := TonelliLoops(p, Exp(p, a, (s + 1) / 2), Exp(p, a, s), Exp(p, n, s), e);
  }

  // ----- What legendre computes

  lemma LegendreCong(p: nat, a: int)
    requires p > 1
    ensures Legendre(p, a) < p && Cong(p, Legendre(p, a), Pow(a, Half(p)))
  {
    var b := Mod(p, a);
    ModCong(p, a);
    PowCong(p, b, a, Half(p));
    ExpCong(p, b, Half(p));
    Trans(p, Exp(p, b, Half(p)), Pow(b, Half(p)), Pow(a, Half(p)));
    assert Neg(p, 1) == p - 1 by {
      ModCong(p, -1);
      Intro(p, -1, p - 1, -1);
      Trans(p, Neg(p, 1), -1, p - 1);
      CongUnique(p, Neg(p, 1), p - 1);
    }
  }

  lemma MinusOneRep(p: nat)
    requires p > 1
    ensures Neg(p, 1) == p - 1 && Cong(p, p - 1, -1)
  {
    Intro(p, p - 1, -1, 1);
    ModCong(p, -1);
    Sym(p, p - 1, -1);
    Trans(p, Neg(p, 1), -1, p - 1);
    CongUnique(p, Neg(p, 1), p - 1);
  }

  /** The symbol is 1 exactly when the power is congruent to 1, and -1 exactly when it is congruent to -1. */
  lemma LegendreValue(p: nat, a: int)
    requires p > 2
    ensures Legendre(p, a) == 1 <==> Cong(p, Pow(a, Half(p)), 1)
    ensures Legendre(p, a) == Neg(p, 1) <==> Cong(p, Pow(a, Half(p)), -1)
  {
    LegendreCong(p, a);
    MinusOneRep(p);
    var l, w := Legendre(p, a), Pow(a, Half(p));
    Sym(p, l, w);
    if Cong(p, w, 1) {
      Trans(p, l, w, 1);
      CongUnique(p, l, 1);
    }
    if Cong(p, w, -1) {
      Trans(p, l, w, -1);
      Sym(p, p - 1, -1);
      Trans(p, l, -1, p - 1);
      CongUnique(p, l, p - 1);
    }
    if l == p - 1 {
      Trans(p, w, p - 1, -1);
    }
  }

  /** The search for a non-residue ends: there is one between 2 and p. */
  lemma SearchEnds(p: nat)
    requires OddPrime(p)
    ensures NonResidueFrom(p, 2)
  {
    var n := NonResidueExists(p);
    LegendreValue(p, n);
  }

  // ----- The loop invariants

  lemma PowTwoTo(x: int, k: nat)
    ensures Pow(x, TwoTo(k + 1)) == Pow(x, TwoTo(k)) * Pow(x, TwoTo(k))
    ensures Pow(x * x, TwoTo(k)) == Pow(x, TwoTo(k + 1))
  {
    PowAdd(x, TwoTo(k), TwoTo(k));
    PowBase(x, x, TwoTo(k));
  }

  lemma {:induction false} PowTwoToSplit(x: int, j: nat, k: nat)
    ensures Pow(Pow(x, TwoTo(j)), TwoTo(k)) == Pow(x, TwoTo(j + k))
  {
    PowMul(x, TwoTo(j), TwoTo(k));
    TwoToAdd(j, k);
  }

  lemma {:induction false} TwoToAdd(j: nat, k: nat)
    ensures TwoTo(j) * TwoTo(k) == TwoTo(j + k)
  {
    if j > 0 {
      TwoToAdd(j - 1, k);
      assert TwoTo(j) * TwoTo(k) == 2 * (TwoTo(j - 1) * TwoTo(k));
    }
  }

  /** Tonelli-Shanks: x^2 = a b, g has order 2^r and the order of b divides 2^(r-1). */
  ghost predicate Invariant(p: nat, a: int, x: int, b: nat, g: int, r: nat) {
    r >= 1 && b < p &&
    Cong(p, x * x, a * b) &&
    Cong(p, Pow(g, TwoTo(r - 1)), -1) &&
    Cong(p, Pow(b, TwoTo(r - 1)), 1)
  }

  /** Squaring t first or last gives the same power. */
  lemma SquarePower(p: nat, t: int, j: nat, c: int)
    requires p > 0
    ensures Cong(p, Pow(Square(p, t), TwoTo(j)), c) <==> Cong(p, Pow(t, TwoTo(j + 1)), c)
  {
    var u, v := Pow(Square(p, t), TwoTo(j)), Pow(t, TwoTo(j + 1));
    ModCong(p, t * t);
    PowCong(p, Square(p, t), t * t, TwoTo(j));
    PowTwoTo(t, j);
    Sym(p, u, v);
    if Cong(p, u, c) { Trans(p, v, u, c); }
    if Cong(p, v, c) { Trans(p, u, v, c); }
  }

  lemma RootOfOne(p: nat, t: nat)
    requires IsPrime(p) && t < p && t != 1 && Square(p, t) == 1
    ensures Cong(p, Pow(t, 1), -1)
  {
    ModCong(p, t * t);
    Sym(p, 1, t * t);
    RootsAgree(p, t, 1);
    if Cong(p, t, 1) {
      CongUnique(p, t, 1);
    }
    PowTwo(t);
  }

  /** Counting squarings finds the least m with t^(2^m) = 1, so t^(2^(m-1)) = -1. */
  lemma {:induction false} SquaringsSpec(p: nat, t: nat, m: nat, r: nat)
    requires IsPrime(p) && m <= r && t < p && Cong(p, Pow(t, TwoTo(r - m)), 1)
    ensures var k := Squarings(p, t, m, r) - m;
            if k == 0 then t == 1 else Cong(p, Pow(t, TwoTo(k - 1)), -1)
    decreases r - m
  {
    if m < r && t != 1 {
      var u := Square(p, t);
      SquarePower(p, t, r - m - 1, 1);
      SquaringsSpec(p, u, m + 1, r);
      var k := Squarings(p, t, m, r) - m;
      if k == 1 {
        RootOfOne(p, t);
      } else {
        SquarePower(p, t, k - 2, -1);
      }
    } else if m == r {
      PowTwo(t);
      CongUnique(p, t, 1);
    }
  }

  lemma NonzeroBase(p: nat, g: int, n: nat)
    requires IsPrime(p) && Cong(p, Pow(g, n), -1) && n > 0
    ensures !Zero(p, g)
  {
    if Zero(p, g) {
      PowCong(p, g, 0, n);
      Sym(p, Pow(g, n), -1);
      Trans(p, -1, Pow(g, n), 0);
      SmallNonzero(p, -1);
    }
  }

  /** The inverse of an element of order 2^r has that order too. */
  lemma InverseOrder(p: nat, g: int, n: nat)
    requires IsPrime(p) && Cong(p, Pow(g, n), -1) && n > 0
    ensures Cong(p, Pow(ModInv(p, g), n), -1)
  {
    var i := ModInv(p, g);
    NonzeroBase(p, g, n);
    Inverse(p, g);
    PowBase(g, i, n);
    PowCong(p, g * i, 1, n);
    PowOne(n);
    Refl(p, Pow(i, n));
    MulCong(p, Pow(g, n), -1, Pow(i, n), Pow(i, n));
    Sym(p, Pow(g, n) * Pow(i, n), -1 * Pow(i, n));
    Trans(p, -1 * Pow(i, n), Pow(g, n) * Pow(i, n), 1);
    Refl(p, 0);
    AddCong(p, 0, 0, -1 * Pow(i, n), 1);
  }

  /** For every count below 64, the shifted exponent gives gs with gs^(2^m) of order 2. */
  lemma RaiseGenerator(p: nat, g: int, m: nat, r: nat)
    requires IsPrime(p) && 0 < m < r && r - m - 1 <= 63
    requires Cong(p, Pow(g, TwoTo(r - 1)), -1)
    ensures Cong(p, Pow(ExpInt(p, g, ShiftOne(r - m - 1)), TwoTo(m)), -1)
  {
    var j := r - m - 1;
    ShiftedExp(p, g, j);
    if j == 63 {
      InverseOrder(p, g, TwoTo(r - 1));
      RaiseBase(p, ModInv(p, g), j, m);
    } else {
      RaiseBase(p, g, j, m);
    }
  }

  lemma ShiftedExp(p: nat, g: int, j: nat)
    requires p > 0 && j <= 63
    ensures ExpInt(p, g, ShiftOne(j)) == Exp(p, if j < 63 then g else ModInv(p, g), TwoTo(j))
  {
  }

  lemma RaiseBase(p: nat, base: int, j: nat, m: nat)
    requires p > 0 && Cong(p, Pow(base, TwoTo(j + m)), -1)
    ensures Cong(p, Pow(Exp(p, base, TwoTo(j)), TwoTo(m)), -1)
  {
    var gs := Exp(p, base, TwoTo(j));
    ExpCong(p, base, TwoTo(j));
    PowCong(p, gs, Pow(base, TwoTo(j)), TwoTo(m));
    PowTwoToSplit(base, j, m);
    Trans(p, Pow(gs, TwoTo(m)), Pow(base, TwoTo(j + m)), -1);
  }

  /** One iteration keeps the invariant. */
  lemma Iterate(p: nat, a: int, x: int, b: nat, g: int, r: nat, m: nat, gs: int)
    requires IsPrime(p) && Invariant(p, a, x, b, g, r) && m > 0
    requires Cong(p, Pow(b, TwoTo(m - 1)), -1)
    requires Cong(p, Pow(gs, TwoTo(m)), -1)
    ensures var g' := Square(p, gs);
            Invariant(p, a, ModMul(p, x, gs), ModMul(p, b, g'), g', m)
  {
    var g' := Square(p, gs);
    var x', b' := ModMul(p, x, gs), ModMul(p, b, g');
    var n := TwoTo(m - 1);
    ModCong(p, gs * gs);
    PowTwoTo(gs, m - 1);
    PowCong(p, g', gs * gs, n);
    Trans(p, Pow(g', n), Pow(gs, TwoTo(m)), -1);
    ModCong(p, b * g');
    PowCong(p, b', b * g', n);
    PowBase(b, g', n);
    MulCong(p, Pow(b, n), -1, Pow(g', n), -1);
    Trans(p, Pow(b', n), Pow(b, n) * Pow(g', n), 1);
    RootStep(p, a, x, b, gs);
  }

  lemma RootStep(p: nat, a: int, x: int, b: int, gs: int)
    requires p > 0 && Cong(p, x * x, a * b)
    ensures var x', b' := ModMul(p, x, gs), ModMul(p, b, Square(p, gs));
            Cong(p, x' * x', a * b')
  {
    var x', g', b' := ModMul(p, x, gs), Square(p, gs), ModMul(p, b, Square(p, gs));
    ModCong(p, x * gs);
    MulCong(p, x', x * gs, x', x * gs);
    ModCong(p, gs * gs);
    Sym(p, g', gs * gs);
    MulCong(p, x * x, a * b, gs * gs, g');
    ModCong(p, b * g');
    Sym(p, b', b * g');
    Refl(p, a);
    MulCong(p, a, a, b * g', b');
    RootStepRegroup(a, x, b, gs, g');
    Trans(p, x' * x', (x * gs) * (x * gs), (a * b) * g');
    Trans(p, x' * x', a * (b * g'), a * b');
  }

  lemma RootStepRegroup(a: int, x: int, b: int, gs: int, g: int)
    ensures (x * gs) * (x * gs) == (x * x) * (gs * gs)
    ensures (a * b) * g == a * (b * g)
  {
  }

  lemma OrderDivides(p: nat, b: int, r: nat)
    requires r >= 1 && Cong(p, Pow(b, TwoTo(r - 1)), 1)
    ensures Cong(p, Pow(b, TwoTo(r)), 1)
  {
    PowTwoTo(b, r - 1);
    MulCong(p, Pow(b, TwoTo(r - 1)), 1, Pow(b, TwoTo(r - 1)), 1);
  }

  /** From the invariant, and with counts that fit, the loop returns a square root of a. */
  lemma {:induction false} TonelliSpec(p: nat, a: int, x: nat, b: nat, g: nat, r: nat)
    requires IsPrime(p) && Invariant(p, a, x, b, g, r) && r <= 65 && x < p
    ensures var o := Tonelli(p, x, b, g, r);
            o.Root? && o.v < p && Cong(p, o.v * o.v, a)
    decreases r
  {
    var m := Squarings(p, b, 0, r);
    OrderDivides(p, b, r);
    SquaringsSpec(p, b, 0, r);
    if m > 0 {
      SquaringsStop(p, b, 0, r);
      var gs := ExpInt(p, g, ShiftOne(r - m - 1));
      RaiseGenerator(p, g, m, r);
      Iterate(p, a, x, b, g, r, m, gs);
      var g' := Square(p, gs);
      TonelliSpec(p, a, ModMul(p, x, gs), ModMul(p, b, g'), g', m);
    }
  }

  /** If t^(2^(r-m-1)) is already 1, then counting stops before r. */
  lemma {:induction false} SquaringsStop(p: nat, t: nat, m: nat, r: nat)
    requires IsPrime(p) && m < r && t < p && Cong(p, Pow(t, TwoTo(r - m - 1)), 1)
    ensures Squarings(p, t, m, r) < r
    decreases r - m
  {
    if t != 1 {
      if r - m == 1 {
        PowTwo(t);
        CongUnique(p, t, 1);
      } else {
        SquarePower(p, t, r - m - 2, 1);
        SquaringsStop(p, Square(p, t), m + 1, r);
      }
    }
  }

  // ----- What msqrt returns, and when

  /** A root of a nonzero square; 0 for everything else. */
  ghost predicate CorrectRoot(p: nat, v: int, o: Outcome) {
    o.Root? && o.v < p &&
    if IsSquare(p, v) && !Zero(p, v) then o.v != 0 && Cong(p, o.v * o.v, v) else o.v == 0
  }

  lemma HalfSplit(p: nat)
    requires OddPrime(p)
    ensures var (s, e) := TwoAdic(p - 1);
            e >= 1 && Half(p) == s * TwoTo(e - 1) && p % 4 == (if e == 1 then 3 else 1)
  {
    var (s, e) := TwoAdic(p - 1);
    TwoAdicSpec(p - 1);
    if e == 1 {
      assert TwoTo(1) == 2 && TwoTo(0) == 1;
      OddDouble(p, s);
    } else if e >= 2 {
      DoubleProduct(s, TwoTo(e - 1));
      DoubleProduct(s, TwoTo(e - 2));
      FourFold(p, s * TwoTo(e - 2));
    }
  }

  lemma OddDouble(p: nat, s: nat)
    requires p - 1 == s * 2 && s % 2 == 1
    ensures p % 4 == 3 && Half(p) == s
  {
  }

  lemma FourFold(p: nat, u: int)
    requires p - 1 == 4 * u
    ensures p % 4 == 1 && Half(p) == 2 * u
  {
  }

  lemma DoubleProduct(s: int, t: int)
    ensures s * (2 * t) == 2 * (s * t)
  {
  }

  lemma PowSplit(p: nat, x: int)
    requires OddPrime(p)
    ensures var (s, e) := TwoAdic(p - 1);
            e >= 1 && Cong(p, Pow(Exp(p, x, s), TwoTo(e - 1)), Pow(x, Half(p)))
  {
    var (s, e) := TwoAdic(p - 1);
    HalfSplit(p);
    ExpCong(p, x, s);
    PowCong(p, Exp(p, x, s), Pow(x, s), TwoTo(e - 1));
    PowMul(x, s, TwoTo(e - 1));
  }

  lemma InitialInvariant(p: nat, a: nat, n: nat)
    requires OddPrime(p) && Cong(p, Pow(a, Half(p)), 1) && Cong(p, Pow(n, Half(p)), -1)
    ensures var (s, e) := TwoAdic(p - 1);
            Invariant(p, a, Exp(p, a, (s + 1) / 2), Exp(p, a, s), Exp(p, n, s), e)
  {
    var (s, e) := TwoAdic(p - 1);
    PowSplit(p, a);
    PowSplit(p, n);
    var h := (s + 1) / 2;
    var x, b, g := Exp(p, a, h), Exp(p, a, s), Exp(p, n, s);
    Trans(p, Pow(b, TwoTo(e - 1)), Pow(a, Half(p)), 1);
    Trans(p, Pow(g, TwoTo(e - 1)), Pow(n, Half(p)), -1);
    InitialRoot(p, a, s);
  }

  lemma InitialRoot(p: nat, a: int, s: nat)
    requires p > 0 && s % 2 == 1
    ensures var x := Exp(p, a, (s + 1) / 2); Cong(p, x * x, a * Exp(p, a, s))
  {
    var h, b := (s + 1) / 2, Exp(p, a, s);
    var x := Exp(p, a, h);
    ExpCong(p, a, h);
    ExpCong(p, a, s);
    MulCong(p, x, Pow(a, h), x, Pow(a, h));
    PowAdd(a, h, h);
    Sym(p, b, Pow(a, s));
    Refl(p, a);
    MulCong(p, a, a, Pow(a, s), b);
    Trans(p, x * x, Pow(a, s + 1), a * b);
  }

  lemma ShortBranch(p: nat, a: int)
    requires OddPrime(p) && p % 4 == 3 && Cong(p, Pow(a, Half(p)), 1)
    ensures var x := Exp(p, a, (p + 1) / 4); Cong(p, x * x, a)
  {
    var q := (p + 1) / 4;
    var x := Exp(p, a, q);
    ExpCong(p, a, q);
    MulCong(p, x, Pow(a, q), x, Pow(a, q));
    PowAdd(a, q, q);
    Refl(p, a);
    MulCong(p, a, a, Pow(a, Half(p)), 1);
    Trans(p, x * x, a * Pow(a, Half(p)), a);
  }

  /** The value found squares to a whenever the symbol of a is 1. */
  lemma RootFound(p: nat, v: int)
    requires OddPrime(p) && TwoAdic(p - 1).1 <= 65
    requires Cong(p, Pow(v, Half(p)), 1) && !Zero(p, v)
    ensures Msqrt(p, v).Root? && Msqrt(p, v).v < p && Cong(p, Msqrt(p, v).v * Msqrt(p, v).v, v)
  {
    var a := Mod(p, v);
    ModCong(p, v);
    PowCong(p, a, v, Half(p));
    Trans(p, Pow(a, Half(p)), Pow(v, Half(p)), 1);
    ZeroMod(p, v);
    LegendreValue(p, a);
    var (s, e) := TwoAdic(p - 1);
    HalfSplit(p);
    if e == 1 {
      ShortBranch(p, a);
    } else {
      SearchEnds(p);
      var n := FirstNonResidue(p, 2);
      LegendreValue(p, n);
      InitialInvariant(p, a, n);
      TonelliSpec(p, a, Exp(p, a, (s + 1) / 2), Exp(p, a, s), Exp(p, n, s), e);
    }
    var o := Msqrt(p, v);
    Trans(p, o.v * o.v, a, v);
  }

  /** msqrt is totally correct for every odd prime p such that 2^66 does not divide p - 1. */
  lemma MsqrtCorrect(p: nat, v: int)
    requires OddPrime(p) && TwoAdic(p - 1).1 <= 65
    ensures CorrectRoot(p, v, Msqrt(p, v))
  {
    var a := Mod(p, v);
    ModCong(p, v);
    ZeroMod(p, v);
    if !Zero(p, v) {
      PowCong(p, a, v, Half(p));
      LegendreValue(p, a);
      if Cong(p, Pow(v, Half(p)), 1) {
        RootFound(p, v);
        var r := Msqrt(p, v).v;
        assert IsRoot(p, r, v);
        if r == 0 {
          Sym(p, 0, v);
        }
      } else {
        Sym(p, Pow(a, Half(p)), Pow(v, Half(p)));
        if Cong(p, Pow(a, Half(p)), 1) {
          Trans(p, Pow(v, Half(p)), Pow(a, Half(p)), 1);
        }
        if IsSquare(p, v) {
          SquareHasPowerOne(p, v);
        }
      }
    }
  }

  lemma MinusOneSquares(p: nat)
    requires p > 2
    ensures Square(p, p - 1) == 1
  {
    Intro(p, (p - 1) * (p - 1), 1, p - 2);
    CongIffMod(p, (p - 1) * (p - 1), 1);
  }

  /** If 2^66 divides p - 1, then -1 is a square and yet msqrt panics on it. */
  lemma MsqrtPanics(p: nat)
    requires OddPrime(p) && TwoAdic(p - 1).1 >= 66
    ensures IsSquare(p, p - 1) && !Zero(p, p - 1)
    ensures Msqrt(p, p - 1) == Panic
  {
    var (s, e) := TwoAdic(p - 1);
    SmallNonzero(p, p - 1);
    HalfSplit(p);
    MinusOneIsSquare(p);
    MinusOneSymbol(p);
    MinusOneOddPower(p, s);
    var x, g := LongBranch(p, p - 1);
    PanicStep(p, x, g, e);
  }

  /** How msqrt enters its loop. */
  lemma LongBranch(p: nat, a: nat) returns (x: nat, g: nat)
    requires OddPrime(p) && 0 < a < p && Legendre(p, a) == 1 && TwoAdic(p - 1).1 != 1
    ensures Msqrt(p, a) == Tonelli(p, x, Exp(p, a, TwoAdic(p - 1).0), g, TwoAdic(p - 1).1)
  {
    ModSmall(p, a);
    SearchEnds(p);
    var s := TwoAdic(p - 1).0;
    x, g := Exp(p, a, (s + 1) / 2), Exp(p, FirstNonResidue(p, 2), s);
  }

  lemma MinusOnePow(p: nat, n: nat)
    requires p > 1
    ensures Cong(p, Pow(p - 1, n), if n % 2 == 0 then 1 else -1)
  {
    MinusOneRep(p);
    PowCong(p, p - 1, -1, n);
    PowMinusOne(n);
  }

  lemma ExpValue(p: nat, x: int, n: nat, c: nat)
    requires p > 0 && c < p && Cong(p, Pow(x, n), c)
    ensures Exp(p, x, n) == c
  {
    ExpCong(p, x, n);
    Trans(p, Exp(p, x, n), Pow(x, n), c);
    CongUnique(p, Exp(p, x, n), c);
  }

  /** -1 has symbol 1 when 4 divides p - 1. */
  lemma MinusOneSymbol(p: nat)
    requires p > 2 && p % 4 == 1
    ensures Legendre(p, p - 1) == 1
  {
    MinusOnePow(p, Half(p));
    LegendreValue(p, p - 1);
  }

  /** Odd powers of -1 are -1. */
  lemma MinusOneOddPower(p: nat, s: nat)
    requires p > 2 && s % 2 == 1
    ensures Exp(p, p - 1, s) == p - 1
  {
    MinusOnePow(p, s);
    MinusOneRep(p);
    Sym(p, p - 1, -1);
    Trans(p, Pow(p - 1, s), -1, p - 1);
    ExpValue(p, p - 1, s, p - 1);
  }

  /** Squaring -1 once gives 1. */
  lemma OneSquaring(p: nat, r: nat)
    requires p > 2 && r >= 1
    ensures Squarings(p, p - 1, 0, r) == 1
  {
    MinusOneSquares(p);
    assert Squarings(p, p - 1, 0, r) == Squarings(p, 1, 1, r);
  }

  /** The shift by 64 or more places is 0, so the power taken is 1. */
  lemma ShiftedOut(p: nat, g: nat, k: nat)
    requires p > 2 && k >= 64
    ensures ExpInt(p, g, ShiftOne(k)) == 1 && Square(p, 1) == 1
  {
    assert ShiftOne(k) == 0 && Pow(g, 0) == 1;
    ModSmall(p, 1);
  }

  /** The second round of the loop shifts by a negative count. */
  lemma SecondRound(p: nat, x: nat, g: nat)
    requires p > 2
    ensures Tonelli(p, x, p - 1, g, 1) == Panic
  {
    OneSquaring(p, 1);
  }

  lemma PanicStep(p: nat, x: nat, g: nat, e: nat)
    requires p > 2 && e >= 66
    ensures Tonelli(p, x, p - 1, g, e) == Panic
  {
    OneSquaring(p, e);
    ShiftedOut(p, g, e - 2);
    ModSmall(p, p - 1);
    assert ModMul(p, p - 1, 1) == p - 1;
    SecondRound(p, ModMul(p, x, 1), 1);
  }

  /** When 4 divides p - 1, -1 is the square of n^((p-1)/4) for a non-residue n. */
  lemma MinusOneIsSquare(p: nat)
    requires OddPrime(p) && p % 4 == 1
    ensures IsSquare(p, p - 1)
  {
    var n := NonResidueExists(p);
    var q := (p - 1) / 4;
    assert Half(p) == q + q;
    PowAdd(n, q, q);
    MinusOneRep(p);
    Sym(p, p - 1, -1);
    Trans(p, Pow(n, Half(p)), -1, p - 1);
    assert IsRoot(p, Pow(n, q), p - 1);
  }

  /** Exactly which moduli msqrt works for. */
  lemma MsqrtCorrectIff(p: nat)
    requires OddPrime(p)
    ensures (forall v :: CorrectRoot(p, v, Msqrt(p, v))) <==> TwoAdic(p - 1).1 <= 65
  {
    if TwoAdic(p - 1).1 <= 65 {
      forall v
        ensures CorrectRoot(p, v, Msqrt(p, v))
      {
        MsqrtCorrect(p, v);
      }
    } else {
      MsqrtPanics(p);
      assert !CorrectRoot(p, p - 1, Msqrt(p, p - 1));
    }
  }

  // ----- The case p = 3 (mod 4), in which the curve lives

  /** Euler's criterion. */
  lemma Euler(p: nat, a: int)
    requires IsPrime(p) && p % 4 == 3 && !Zero(p, a)
    ensures IsSquare(p, a) <==> Cong(p, Pow(a, Half(p)), 1)
    ensures !IsSquare(p, a) <==> Cong(p, Pow(a, Half(p)), -1)
  {
    HalfPower(p, a);
    if IsSquare(p, a) {
      SquareHasPowerOne(p, a);
    }
    if Cong(p, Pow(a, Half(p)), 1) {
      OneIsNotMinusOne(p, Pow(a, Half(p)));
      ShortBranch(p, a);
      assert IsRoot(p, Exp(p, a, (p + 1) / 4), a);
    }
  }

  /** The product of two non-squares is a square. */
  lemma NonSquareProduct(p: nat, a: int, b: int)
    requires IsPrime(p) && p % 4 == 3
    requires !Zero(p, a) && !Zero(p, b) && !IsSquare(p, a) && !IsSquare(p, b)
    ensures !Zero(p, a * b) && IsSquare(p, a * b)
  {
    NoZeroDivisors(p, a, b);
    Euler(p, a);
    Euler(p, b);
    Euler(p, a * b);
    PowBase(a, b, Half(p));
    MulCong(p, Pow(a, Half(p)), -1, Pow(b, Half(p)), -1);
  }

  /** misqrt by a power, when p = 3 (mod 4). */
  lemma MisqrtPower(p: nat, a: int)
    requires IsPrime(p) && p % 4 == 3
    ensures Misqrt(p, a).Root? && Misqrt(p, a).v < p
    ensures !Zero(p, a) && IsSquare(p, a) ==> Cong(p, a * (Misqrt(p, a).v * Misqrt(p, a).v), 1)
    ensures Zero(p, a) && p > 3 ==> Misqrt(p, a).v == 0
    ensures !IsSquare(p, a) ==> Cong(p, a * (Misqrt(p, a).v * Misqrt(p, a).v), -1)
  {
    if Zero(p, a) {
      MisqrtOfZero(p, a);
      ZeroSquare(p, a);
    } else if IsSquare(p, a) {
      MisqrtOfSquare(p, a);
    } else {
      Euler(p, a);
      MisqrtValue(p, a, -1);
    }
  }

  lemma ZeroSquare(p: nat, a: int)
    requires Zero(p, a)
    ensures IsSquare(p, a)
  {
    Sym(p, a, 0);
    assert IsRoot(p, 0, a);
  }

  lemma MisqrtOfZero(p: nat, a: int)
    requires OddPrime(p) && p % 4 == 3 && Zero(p, a)
    ensures p > 3 ==> Misqrt(p, a).v == 0
  {
    ZeroMod(p, a);
    if p > 3 {
      ZeroPower(p, (p - 3) / 4);
    }
  }

  lemma ZeroPower(p: nat, n: nat)
    requires p > 0 && n > 0
    ensures Exp(p, 0, n) == 0
  {
    assert Pow(0, n) == 0;
  }

  lemma MisqrtOfSquare(p: nat, a: int)
    requires OddPrime(p) && p % 4 == 3 && !Zero(p, a) && IsSquare(p, a)
    ensures Cong(p, a * (Misqrt(p, a).v * Misqrt(p, a).v), 1)
  {
    SquareHasPowerOne(p, a);
    MisqrtValue(p, a, 1);
  }

  lemma MisqrtValue(p: nat, a: int, v: int)
    requires OddPrime(p) && p % 4 == 3 && Cong(p, Pow(a, Half(p)), v)
    ensures Cong(p, a * (Misqrt(p, a).v * Misqrt(p, a).v), v)
  {
    var b, q := Mod(p, a), (p - 3) / 4;
    var r := Exp(p, b, q);
    ModCong(p, a);
    ExpCong(p, b, q);
    PowCong(p, b, a, q);
    Trans(p, r, Pow(b, q), Pow(a, q));
    InverseRoot(p, a, r, v);
  }

  lemma InverseRoot(p: nat, a: int, r: int, v: int)
    requires p % 4 == 3 && Cong(p, r, Pow(a, (p - 3) / 4)) && Cong(p, Pow(a, Half(p)), v)
    ensures Cong(p, a * (r * r), v)
  {
    var q := (p - 3) / 4;
    MulCong(p, r, Pow(a, q), r, Pow(a, q));
    PowAdd(a, q, q);
    Refl(p, a);
    MulCong(p, a, a, r * r, Pow(a, 2 * q));
    Trans(p, a * (r * r), Pow(a, Half(p)), v);
  }

  /** misqrt through msqrt, when p = 1 (mod 4). */
  lemma MisqrtRoot(p: nat, a: int)
    requires OddPrime(p) && p % 4 == 1 && TwoAdic(p - 1).1 <= 65
    ensures Misqrt(p, a).Root? && Misqrt(p, a).v < p
    ensures if !Zero(p, a) && IsSquare(p, a) then Cong(p, a * (Misqrt(p, a).v * Misqrt(p, a).v), 1) else Misqrt(p, a).v == 0
  {
    MsqrtCorrect(p, a);
    var r := Msqrt(p, a).v;
    if r != 0 {
      SmallNonzero(p, r);
      Inverse(p, r);
      InverseOfRoot(p, a, r, ModInv(p, r));
    }
  }

  lemma InverseOfRoot(p: nat, a: int, r: int, i: int)
    requires Cong(p, r * r, a) && Cong(p, r * i, 1)
    ensures Cong(p, a * (i * i), 1)
  {
    MulCong(p, r * i, 1, r * i, 1);
    assert (r * i) * (r * i) == (r * r) * (i * i);
    Sym(p, r * r, a);
    Refl(p, i * i);
    MulCong(p, a, r * r, i * i, i * i);
    Trans(p, a * (i * i), (r * r) * (i * i), 1);
  }

  /** misqrt inverts the square root: a * misqrt(a)^2 = 1 for every nonzero square a, and misqrt(0) = 0 once p > 3. */
  lemma MisqrtSpec(p: nat, a: int)
    requires OddPrime(p) && TwoAdic(p - 1).1 <= 65
    ensures Misqrt(p, a).Root? && Misqrt(p, a).v < p
    ensures !Zero(p, a) && IsSquare(p, a) ==> Cong(p, a * (Misqrt(p, a).v * Misqrt(p, a).v), 1)
    ensures Zero(p, a) && p > 3 ==> Misqrt(p, a).v == 0
    ensures p % 4 == 1 && !IsSquare(p, a) ==> Misqrt(p, a).v == 0
    ensures p % 4 == 3 && !IsSquare(p, a) ==> Cong(p, a * (Misqrt(p, a).v * Misqrt(p, a).v), -1)
  {
    HalfSplit(p);
    if p % 4 == 3 {
      MisqrtPower(p, a);
    } else {
      MisqrtRoot(p, a);
    }
  }

  // ----- Which of the two roots

  lemma PowerOfSquare(p: nat, a: int, n: nat)
    requires p > 0 && IsSquare(p, a)
    ensures IsSquare(p, Pow(a, n))
  {
    var b :| IsRoot(p, b, a);
    PowCong(p, b * b, a, n);
    PowBase(b, b, n);
    assert IsRoot(p, Pow(b, n), Pow(a, n));
  }

  lemma ExpOfSquare(p: nat, a: int, n: nat)
    requires p > 0 && IsSquare(p, a)
    ensures IsSquare(p, Exp(p, Mod(p, a), n))
  {
    ModCong(p, a);
    SquareCong(p, Mod(p, a), a);
    PowerOfSquare(p, Mod(p, a), n);
    ExpCong(p, Mod(p, a), n);
    SquareCong(p, Exp(p, Mod(p, a), n), Pow(Mod(p, a), n));
  }

  /** When p = 3 (mod 4), msqrt and misqrt return the number that is itself a square; its opposite is not. */
  lemma PrincipalRoot(p: nat, a: int)
    requires OddPrime(p) && p % 4 == 3 && IsSquare(p, a)
    ensures Msqrt(p, a).Root? && IsSquare(p, Msqrt(p, a).v)
    ensures Misqrt(p, a).Root? && IsSquare(p, Misqrt(p, a).v)
  {
    HalfSplit(p);
    ExpOfSquare(p, a, (p + 1) / 4);
    ExpOfSquare(p, a, (p - 3) / 4);
    Refl(p, 0);
    assert IsRoot(p, 0, 0);
  }

  /** Of two opposite numbers, not zero, at most one is a square. */
  lemma OppositeNotSquare(p: nat, m: int, m': int)
    requires OddPrime(p) && p % 4 == 3 && !Zero(p, m') && IsSquare(p, m) && IsSquare(p, m')
    ensures !Cong(p, m, -m')
  {
    if Cong(p, m, -m') {
      var x :| IsRoot(p, x, m);
      var y :| IsRoot(p, y, m');
      OppositeRoots(p, x, y, m, m');
      MinusOneNonSquare(p, 0);
    }
  }

  lemma OppositeRoots(p: nat, x: int, y: int, m: int, m': int)
    requires IsPrime(p) && Cong(p, x * x, m) && Cong(p, y * y, m') && Cong(p, m, -m') && !Zero(p, m')
    ensures IsSquare(p, -1)
  {
    Sym(p, y * y, m');
    Combine(p, -m', -1 * y * y, -1, m', y * y);
    Trans(p, x * x, m, -m');
    Trans(p, x * x, -m', -1 * y * y);
    if Zero(p, y) {
      MulCong(p, y, 0, y, 0);
      Trans(p, m', y * y, 0);
    }
    SquareQuotient(p, -1, y, x);
  }
}
