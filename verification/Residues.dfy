/**
 The number theory that pak.go's square roots rely on: Fermat's little theorem,
 the bound on the roots of a polynomial modulo a prime, and what they say about
 the power (p-1)/2 that legendre computes.
 */
module Residues {
  import opened ModArith

  // ----- Fermat's little theorem, by the binomial theorem

  function Choose(n: nat, k: nat): nat {
    if k == 0 then 1 else if n == 0 then 0 else Choose(n - 1, k - 1) + Choose(n - 1, k)
  }

  lemma {:induction false} ChooseEnds(n: nat, k: nat)
    requires k >= n
    ensures Choose(n, k) == if k == n then 1 else 0
  {
    if n > 0 {
      ChooseEnds(n - 1, k - 1);
      ChooseEnds(n - 1, k);
    }
  }

  lemma {:induction false} Absorb(n: nat, k: nat)
    requires n >= 1 && k >= 1
    ensures k * Choose(n, k) == n * Choose(n - 1, k - 1)
  {
    if n == 1 {
      ChooseEnds(1, k);
      ChooseEnds(0, k - 1);
    } else if k == 1 {
      Absorb(n - 1, 1);
    } else {
      Absorb(n - 1, k);
      Absorb(n - 1, k - 1);
      AbsorbStep(n, k, Choose(n - 2, k - 2), Choose(n - 2, k - 1), Choose(n - 1, k));
    }
  }

  lemma AbsorbStep(n: nat, k: nat, a: nat, b: nat, c: nat)
    requires (k - 1) * (a + b) == (n - 1) * a && k * c == (n - 1) * b
    ensures k * (a + b + c) == n * (a + b)
  {
  }

  /** The first m terms of the expansion of (1+x)^n. */
  ghost function Expansion(n: nat, x: int, m: nat): int {
    if m == 0 then 0 else Expansion(n, x, m - 1) + Choose(n, m - 1) * Pow(x, m - 1)
  }

  lemma {:induction false} ExpansionStep(n: nat, x: int, m: nat)
    requires n >= 1 && m >= 1
    ensures Expansion(n, x, m) == Expansion(n - 1, x, m) + x * Expansion(n - 1, x, m - 1)
  {
    if m > 1 {
      ExpansionStep(n, x, m - 1);
      Distribute(x, Choose(n - 1, m - 2), Choose(n - 1, m - 1), Pow(x, m - 2), Expansion(n - 1, x, m - 2));
    }
  }

  lemma Distribute(x: int, a: int, b: int, y: int, e: int)
    ensures (a + b) * (x * y) == b * (x * y) + x * (a * y)
    ensures x * (e + a * y) == x * e + x * (a * y)
  {
  }

  lemma {:induction false} Binomial(n: nat, x: int, m: nat)
    requires m > n
    ensures Expansion(n, x, m) == Pow(1 + x, n)
  {
    if n > 0 {
      ExpansionStep(n, x, m);
      Binomial(n - 1, x, m);
      Binomial(n - 1, x, m - 1);
      calc {
        Expansion(n, x, m);
        Pow(1 + x, n - 1) + x * Pow(1 + x, n - 1);
        (1 + x) * Pow(1 + x, n - 1);
        Pow(1 + x, n);
      }
    } else if m > 1 {
      Binomial(0, x, m - 1);
    }
  }

  lemma ChooseVanishes(p: nat, k: nat)
    requires IsPrime(p) && 0 < k < p
    ensures Zero(p, Choose(p, k))
  {
    Absorb(p, k);
    Intro(p, k * Choose(p, k), 0, Choose(p - 1, k - 1));
    SmallNonzero(p, k);
    NoZeroDivisors(p, k, Choose(p, k));
  }

  lemma {:induction false} ExpansionModPrime(p: nat, x: int, m: nat)
    requires IsPrime(p) && 1 <= m <= p
    ensures Cong(p, Expansion(p, x, m), 1)
  {
    if m == 1 {
      assert Expansion(p, x, 1) == Expansion(p, x, 0) + Choose(p, 0) * Pow(x, 0) == 1;
      Refl(p, 1);
    } else {
      ExpansionModPrime(p, x, m - 1);
      ChooseVanishes(p, m - 1);
      Refl(p, Pow(x, m - 1));
      MulCong(p, Choose(p, m - 1), 0, Pow(x, m - 1), Pow(x, m - 1));
      AddCong(p, Expansion(p, x, m - 1), 1, Choose(p, m - 1) * Pow(x, m - 1), 0);
    }
  }

  lemma {:induction false} FermatNat(p: nat, x: nat)
    requires IsPrime(p)
    ensures Cong(p, Pow(x, p), x)
  {
    if x == 0 {
      Refl(p, 0);
    } else {
      FermatNat(p, x - 1);
      Binomial(p, x - 1, p + 1);
      ExpansionModPrime(p, x - 1, p);
      ChooseEnds(p, p);
      AddCong(p, Expansion(p, x - 1, p), 1, Pow(x - 1, p), x - 1);
    }
  }

  lemma Fermat(p: nat, x: int)
    requires IsPrime(p) && !Zero(p, x)
    ensures Cong(p, Pow(x, p - 1), 1)
  {
    var y := Mod(p, x);
    ModCong(p, x);
    FermatNat(p, y);
    ZeroMod(p, x);
    SmallNonzero(p, y);
    assert Pow(y, p) == y * Pow(y, p - 1);
    Cancel(p, y, Pow(y, p - 1), 1);
    Sym(p, y, x);
    PowCong(p, x, y, p - 1);
    Trans(p, Pow(x, p - 1), Pow(y, p - 1), 1);
  }

  // ----- A polynomial has no more roots than its degree

  ghost function Eval(c: seq<int>, x: int): int {
    if c == [] then 0 else c[0] + x * Eval(c[1..], x)
  }

  /** The quotient of c by (x - r). */
  ghost function Quotient(c: seq<int>, r: int): seq<int> {
    if |c| <= 1 then [] else [Eval(c[1..], r)] + Quotient(c[1..], r)
  }

  lemma {:induction false} QuotientSpec(c: seq<int>, r: int, x: int)
    requires c != []
    ensures |Quotient(c, r)| == |c| - 1
    ensures |c| > 1 ==> Quotient(c, r)[|c| - 2] == c[|c| - 1]
    ensures Eval(c, x) - Eval(c, r) == (x - r) * Eval(Quotient(c, r), x)
  {
    if |c| > 1 {
      var t, q := c[1..], Quotient(c[1..], r);
      QuotientSpec(t, r, x);
      assert Quotient(c, r)[1..] == q;
      if |c| == 2 {
        assert Eval(t, r) == t[0] + r * Eval([], r);
        assert t[1..] == [];
      }
      QuotientStep(x, r, c[0], Eval(t, x), Eval(t, r), Eval(q, x));
    }
  }

  lemma QuotientStep(x: int, r: int, a: int, u: int, v: int, q: int)
    requires u - v == (x - r) * q
    ensures (a + x * u) - (a + r * v) == (x - r) * (v + x * q)
  {
    assert x * (u - v) == (x - r) * (x * q);
  }

  /** A polynomial with a nonzero leading coefficient misses one of any |c| consecutive points. */
  lemma {:induction false} NonRoot(p: nat, c: seq<int>, lo: int) returns (x: int)
    requires IsPrime(p) && 0 < |c| <= p && !Zero(p, c[|c| - 1])
    ensures lo <= x < lo + |c| && !Zero(p, Eval(c, x))
    decreases |c|
  {
    if |c| == 1 {
      assert c[1..] == [];
      assert Eval(c, lo) == c[0] + lo * Eval([], lo);
      x := lo;
    } else if !Zero(p, Eval(c, lo)) {
      x := lo;
    } else {
      QuotientSpec(c, lo, lo);
      x := NonRoot(p, Quotient(c, lo), lo + 1);
      QuotientSpec(c, lo, x);
      SmallNonzero(p, x - lo);
      NoZeroDivisors(p, x - lo, Eval(Quotient(c, lo), x));
      if Zero(p, Eval(c, x)) {
        AddCong(p, Eval(c, x), 0, Eval(c, lo), 0);
      }
    }
  }

  // ----- Squares

  ghost predicate IsRoot(p: int, x: int, a: int) {
    Cong(p, x * x, a)
  }

  ghost predicate IsSquare(p: int, a: int) {
    exists x :: IsRoot(p, x, a)
  }

  lemma SquareCong(p: int, a: int, b: int)
    requires Cong(p, a, b)
    ensures IsSquare(p, a) <==> IsSquare(p, b)
  {
    Sym(p, a, b);
    if IsSquare(p, a) {
      var x :| IsRoot(p, x, a);
      Trans(p, x * x, a, b);
      assert IsRoot(p, x, b);
    }
    if IsSquare(p, b) {
      var x :| IsRoot(p, x, b);
      Trans(p, x * x, b, a);
      assert IsRoot(p, x, a);
    }
  }

  /** If k is nonzero and d k^2 is a square, then so is d. */
  lemma SquareQuotient(p: nat, d: int, k: int, m: int)
    requires IsPrime(p) && !Zero(p, k) && Cong(p, m * m, d * k * k)
    ensures IsSquare(p, d)
  {
    var i := ModInv(p, k);
    Inverse(p, k);
    MulCong(p, k * i, 1, k * i, 1);
    Refl(p, d);
    MulCong(p, d, d, (k * i) * (k * i), 1);
    Refl(p, i * i);
    MulCong(p, m * m, d * k * k, i * i, i * i);
    Regroup(d, k, i, m);
    Trans(p, (m * i) * (m * i), d * ((k * i) * (k * i)), d);
    assert IsRoot(p, m * i, d);
  }

  lemma Regroup(d: int, k: int, i: int, m: int)
    ensures (m * m) * (i * i) == (m * i) * (m * i)
    ensures (d * k * k) * (i * i) == d * ((k * i) * (k * i))
  {
  }

  /** x^2 = y^2 only if x = y or x = -y. */
  lemma RootsAgree(p: nat, x: int, y: int)
    requires IsPrime(p) && Cong(p, x * x, y * y)
    ensures Cong(p, x, y) || Cong(p, x, -y)
  {
    var k := Witness(p, x * x, y * y);
    Intro(p, (x - y) * (x + y), 0, k);
    NoZeroDivisors(p, x - y, x + y);
    if Zero(p, x - y) {
      Intro(p, x, y, Witness(p, x - y, 0));
    } else {
      Intro(p, x, -y, Witness(p, x + y, 0));
    }
  }

  lemma OneIsNotMinusOne(p: nat, a: int)
    requires p > 2 && Cong(p, a, 1)
    ensures !Cong(p, a, -1)
  {
    if Cong(p, a, -1) {
      AddCong(p, a, -1, a, 1);
      Sym(p, a - a, -2);
      SmallNonzero(p, -2);
    }
  }

  // ----- The power (p-1)/2

  function Half(p: nat): nat
    requires p > 0
  {
    (p - 1) / 2
  }

  /** a^((p-1)/2) is 1 or -1. */
  lemma HalfPower(p: nat, a: int)
    requires OddPrime(p) && !Zero(p, a)
    ensures Cong(p, Pow(a, Half(p)), 1) || Cong(p, Pow(a, Half(p)), -1)
  {
    Fermat(p, a);
    PowAdd(a, Half(p), Half(p));
    RootsAgree(p, Pow(a, Half(p)), 1);
  }

  /** The easy half of Euler's criterion: squares have power 1. */
  lemma SquareHasPowerOne(p: nat, a: int)
    requires OddPrime(p) && !Zero(p, a) && IsSquare(p, a)
    ensures Cong(p, Pow(a, Half(p)), 1)
  {
    var x :| IsRoot(p, x, a);
    Sym(p, x * x, a);
    if Zero(p, x) {
      MulCong(p, x, 0, x, 0);
      Trans(p, a, x * x, 0);
    }
    Fermat(p, x);
    PowAdd(x, Half(p), Half(p));
    PowBase(x, x, Half(p));
    PowCong(p, a, x * x, Half(p));
    Trans(p, Pow(a, Half(p)), Pow(x * x, Half(p)), 1);
  }

  lemma {:induction false} MonomialEval(n: nat, x: int)
    ensures Eval(seq(n, _ => 0) + [1], x) == Pow(x, n)
  {
    var c := seq(n, _ => 0) + [1];
    if n == 0 {
      assert c[1..] == [];
      assert Eval(c, x) == 1 + x * Eval([], x);
    } else {
      assert c[1..] == seq(n - 1, _ => 0) + [1];
      MonomialEval(n - 1, x);
    }
  }

  /** Some number below p has power -1, so a search for one that starts at 2 ends. */
  lemma NonResidueExists(p: nat) returns (n: nat)
    requires OddPrime(p)
    ensures 2 <= n < p && Cong(p, Pow(n, Half(p)), -1)
  {
    var h := Half(p);
    var c := [-1] + (seq(h - 1, _ => 0) + [1]);
    assert c[|c| - 1] == 1;
    Refl(p, 1);
    OneNotZero(p, 1);
    n := NonRoot(p, c, 1);
    assert c[1..] == seq(h - 1, _ => 0) + [1];
    MonomialEval(h - 1, n);
    assert Eval(c, n) == Pow(n, h) - 1;
    SmallNonzero(p, n);
    HalfPower(p, n);
    if Cong(p, Pow(n, h), 1) {
      Refl(p, 1);
      AddCong(p, Pow(n, h), 1, 1, 1);
      assert false;
    }
    PowOne(h);
  }

  /** When p = 3 (mod 4), -1 is not a square, so 1 + s^2 never vanishes. */
  lemma MinusOneNonSquare(p: nat, s: int)
    requires IsPrime(p) && p % 4 == 3
    ensures !IsSquare(p, -1)
    ensures !Zero(p, 1 + s * s)
  {
    if IsSquare(p, -1) {
      SmallNonzero(p, -1);
      SquareHasPowerOne(p, -1);
      PowMinusOne(Half(p));
      OneIsNotMinusOne(p, -1);
      Refl(p, -1);
    }
    if Zero(p, 1 + s * s) {
      Intro(p, s * s, -1, Witness(p, 1 + s * s, 0));
      assert IsRoot(p, s, -1);
    }
  }
}
