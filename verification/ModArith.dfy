/**
 Arithmetic modulo p: the helpers of pak.go (mod, modAdd, modSub, modMul, neg,
 square, modInv and big.Int.Exp), the congruence relation that all curve proofs
 are written in, and the inverse of a nonzero residue modulo a prime.
 */
module ModArith {

  // ----- The source's helpers. big.Int.Mod is Euclidean, as is Dafny's %.

  function Mod(p: nat, v: int): (r: nat)
    requires p > 0
    ensures r < p
  {
    v % p
  }

  function ModAdd(p: nat, a: int, b: int): nat
    requires p > 0
  {
    Mod(p, a + b)
  }

  function ModSub(p: nat, a: int, b: int): nat
    requires p > 0
  {
    Mod(p, a - b)
  }

  function ModMul(p: nat, a: int, b: int): nat
    requires p > 0
  {
    Mod(p, a * b)
  }

  function Neg(p: nat, v: int): nat
    requires p > 0
  {
    Mod(p, -v)
  }

  function Square(p: nat, v: int): nat
    requires p > 0
  {
    ModMul(p, v, v)
  }

  function Pow(x: int, n: nat): int {
    if n == 0 then 1 else x * Pow(x, n - 1)
  }

  /** big.Int.Exp(x, n, p) for a non-negative exponent. */
  function Exp(p: nat, x: int, n: nat): (r: nat)
    requires p > 0
  {
    Mod(p, Pow(x, n))
  }

  /** big.Int.ModInverse(v mod p, p); 0 stands for the nil that it returns when there is no inverse. */
  function ModInv(p: nat, v: int): nat
    requires p > 0
  {
    Mod(p, InvOf(p, Mod(p, v)))
  }

  function InvOf(p: nat, a: nat): int
    requires p > 0
    decreases a
  {
    if a == 0 then 0
    else if a == 1 then 1
    else -(p / a) * InvOf(p, p % a)
  }

  // ----- Congruence

  predicate Differ(p: int, a: int, b: int, k: int) {
    a == b + k * p
  }

  ghost predicate Cong(p: int, a: int, b: int) {
    exists k :: Differ(p, a, b, k)
  }

  /** The multiple of p by which two congruent numbers differ. */
  ghost function Witness(p: int, a: int, b: int): (k: int)
    requires Cong(p, a, b)
    ensures a == b + k * p
  {
    var k :| Differ(p, a, b, k);
    k
  }

  lemma Intro(p: int, a: int, b: int, k: int)
    requires a == b + k * p
    ensures Cong(p, a, b)
  {
    assert Differ(p, a, b, k);
  }

  lemma Refl(p: int, a: int)
    ensures Cong(p, a, a)
  {
    Intro(p, a, a, 0);
  }

  lemma Sym(p: int, a: int, b: int)
    requires Cong(p, a, b)
    ensures Cong(p, b, a)
  {
    var k := Witness(p, a, b);
    Intro(p, b, a, -k);
  }

  lemma Trans(p: int, a: int, b: int, c: int)
    requires Cong(p, a, b) && Cong(p, b, c)
    ensures Cong(p, a, c)
  {
    var k, l := Witness(p, a, b), Witness(p, b, c);
    Intro(p, a, c, k + l);
  }

  lemma AddCong(p: int, a: int, a': int, b: int, b': int)
    requires Cong(p, a, a') && Cong(p, b, b')
    ensures Cong(p, a + b, a' + b')
    ensures Cong(p, a - b, a' - b')
  {
    var k, l := Witness(p, a, a'), Witness(p, b, b');
    Intro(p, a + b, a' + b', k + l);
    Intro(p, a - b, a' - b', k - l);
  }

  lemma MulCong(p: int, a: int, a': int, b: int, b': int)
    requires Cong(p, a, a') && Cong(p, b, b')
    ensures Cong(p, a * b, a' * b')
  {
    var k, l := Witness(p, a, a'), Witness(p, b, b');
    Intro(p, a * b, a' * b', k * b' + a' * l + k * l * p);
  }

  /** A combination of congruences: the difference of the two sides is a combination of vanishing differences. */
  lemma Combine(p: int, l: int, r: int, c: int, a: int, b: int)
    requires Cong(p, a, b) && l - r == c * (a - b)
    ensures Cong(p, l, r)
  {
    var k := Witness(p, a, b);
    Assoc(c, k, p);
    Intro(p, l, r, c * k);
  }

  lemma Combine2(p: int, l: int, r: int, c: int, a: int, b: int, c': int, a': int, b': int)
    requires Cong(p, a, b) && Cong(p, a', b') && l - r == c * (a - b) + c' * (a' - b')
    ensures Cong(p, l, r)
  {
    Combine(p, c * (a - b), 0, c, a, b);
    Combine(p, l, r + c * (a - b), c', a', b');
    Refl(p, r);
    AddCong(p, r, r, c * (a - b), 0);
    Trans(p, l, r + c * (a - b), r);
  }

  lemma Assoc(a: int, b: int, c: int)
    ensures a * (b * c) == (a * b) * c
  {
  }

  lemma ModCong(p: nat, v: int)
    requires p > 0
    ensures Cong(p, Mod(p, v), v)
  {
    Intro(p, Mod(p, v), v, -(v / p));
  }

  lemma BoundedMultiple(p: nat, k: int)
    ensures k == 0 || k * p >= p || k * p <= 0 - p
  {
    if k >= 1 {
      assert k * p == p + (k - 1) * p;
    } else if k <= -1 {
      assert k * p == (k + 1) * p - p;
    }
  }

  /** Reduced representatives of one class are equal. */
  lemma CongUnique(p: nat, a: int, b: int)
    requires Cong(p, a, b) && 0 <= a < p && 0 <= b < p
    ensures a == b
  {
    var k := Witness(p, a, b);
    BoundedMultiple(p, k);
  }

  lemma ModSmall(p: nat, a: nat)
    requires a < p
    ensures Mod(p, a) == a
  {
    ModCong(p, a);
    CongUnique(p, Mod(p, a), a);
  }

  /** Congruence is equality of remainders. */
  lemma CongIffMod(p: nat, a: int, b: int)
    requires p > 0
    ensures Cong(p, a, b) <==> Mod(p, a) == Mod(p, b)
  {
    ModCong(p, a);
    ModCong(p, b);
    if Cong(p, a, b) {
      Trans(p, Mod(p, a), a, b);
      Sym(p, Mod(p, b), b);
      Trans(p, Mod(p, a), b, Mod(p, b));
      CongUnique(p, Mod(p, a), Mod(p, b));
    } else if Mod(p, a) == Mod(p, b) {
      Sym(p, Mod(p, a), a);
      Trans(p, a, Mod(p, a), b);
    }
  }

  /** One line of source arithmetic: if the operands stand for A and B, the reduced results stand for A+B, A-B and A*B. */
  lemma Ops(p: nat, a: int, A: int, b: int, B: int)
    requires p > 0 && Cong(p, a, A) && Cong(p, b, B)
    ensures Cong(p, ModAdd(p, a, b), A + B)
    ensures Cong(p, ModSub(p, a, b), A - B)
    ensures Cong(p, ModMul(p, a, b), A * B)
  {
    AddCong(p, a, A, b, B);
    MulCong(p, a, A, b, B);
    ModCong(p, a + b);
    ModCong(p, a - b);
    ModCong(p, a * b);
    Trans(p, ModAdd(p, a, b), a + b, A + B);
    Trans(p, ModSub(p, a, b), a - b, A - B);
    Trans(p, ModMul(p, a, b), a * b, A * B);
  }

  lemma NegOp(p: nat, a: int, A: int)
    requires p > 0 && Cong(p, a, A)
    ensures Cong(p, Neg(p, a), -A)
  {
    Refl(p, 0);
    Ops(p, 0, 0, a, A);
  }

  // ----- Powers

  lemma PowCong(p: int, x: int, y: int, n: nat)
    requires Cong(p, x, y)
    ensures Cong(p, Pow(x, n), Pow(y, n))
  {
    if n == 0 {
      Refl(p, 1);
    } else {
      PowCong(p, x, y, n - 1);
      MulCong(p, x, y, Pow(x, n - 1), Pow(y, n - 1));
    }
  }

  lemma {:induction false} PowAdd(x: int, m: nat, n: nat)
    ensures Pow(x, m + n) == Pow(x, m) * Pow(x, n)
  {
    if m > 0 {
      PowAdd(x, m - 1, n);
      assert Pow(x, m + n) == x * (Pow(x, m - 1) * Pow(x, n));
    }
  }

  lemma {:induction false} PowMul(x: int, m: nat, n: nat)
    ensures m * n >= 0
    ensures Pow(x, m * n) == Pow(Pow(x, m), n)
  {
    if n > 0 {
      PowMul(x, m, n - 1);
      assert m * n == m + m * (n - 1);
      PowAdd(x, m, m * (n - 1));
    }
  }

  lemma {:induction false} PowBase(x: int, y: int, n: nat)
    ensures Pow(x * y, n) == Pow(x, n) * Pow(y, n)
  {
    if n > 0 {
      PowBase(x, y, n - 1);
      assert Pow(x * y, n) == x * y * (Pow(x, n - 1) * Pow(y, n - 1));
    }
  }

  lemma {:induction false} PowOne(n: nat)
    ensures Pow(1, n) == 1
  {
    if n > 0 { PowOne(n - 1); }
  }

  lemma {:induction false} PowMinusOne(n: nat)
    ensures Pow(-1, n) == if n % 2 == 0 then 1 else -1
  {
    if n > 0 { PowMinusOne(n - 1); }
  }

  lemma PowTwo(x: int)
    ensures Pow(x, 1) == x && Pow(x, 2) == x * x
  {
    assert Pow(x, 1) == x * Pow(x, 0);
  }

  lemma ExpCong(p: nat, x: int, n: nat)
    requires p > 0
    ensures Cong(p, Exp(p, x, n), Pow(x, n))
  {
    ModCong(p, Pow(x, n));
  }

  // ----- Primes

  predicate Divides(m: nat, n: int)
    requires m > 0
  {
    n % m == 0
  }

  ghost predicate IsPrime(p: nat) {
    p >= 2 && forall m :: 2 <= m < p ==> !Divides(m, p)
  }

  ghost predicate OddPrime(p: nat) {
    IsPrime(p) && p % 2 == 1
  }

  ghost predicate Zero(p: int, a: int) {
    Cong(p, a, 0)
  }

  lemma ZeroMod(p: nat, a: int)
    requires p > 0
    ensures Zero(p, a) <==> Mod(p, a) == 0
  {
    CongIffMod(p, a, 0);
    assert Mod(p, 0) == 0;
  }

  lemma {:induction false} InvOfSpec(p: nat, a: nat)
    requires IsPrime(p) && 0 < a < p
    ensures Cong(p, a * InvOf(p, a), 1)
    decreases a
  {
    if a == 1 {
      Refl(p, 1);
    } else {
      assert !Divides(a, p);
      var q, r := p / a, p % a;
      InvOfSpec(p, r);
      var i := InvOf(p, r);
      var k := Witness(p, r * i, 1);
      InverseStep(p, a, q, r, i, k);
      Intro(p, a * (-q * i), 1, k - i);
    }
  }

  lemma InverseStep(p: int, a: int, q: int, r: int, i: int, k: int)
    requires p == q * a + r && r * i == 1 + k * p
    ensures a * (-q * i) == 1 + (k - i) * p
  {
    assert a * (-q * i) == (r - p) * i;
  }

  /** modInv is a multiplicative inverse: every nonzero residue modulo a prime has one. */
  lemma Inverse(p: nat, v: int)
    requires IsPrime(p) && !Zero(p, v)
    ensures Cong(p, v * ModInv(p, v), 1)
    ensures !Zero(p, ModInv(p, v))
  {
    ZeroMod(p, v);
    var a, i := Mod(p, v), InvOf(p, Mod(p, v));
    InvOfSpec(p, a);
    ModCong(p, v);
    ModCong(p, i);
    MulCong(p, a, v, ModInv(p, v), i);
    assert Cong(p, v * ModInv(p, v), 1) by {
      Sym(p, a, v);
      MulCong(p, v, a, ModInv(p, v), i);
      Trans(p, v * ModInv(p, v), a * i, 1);
    }
    if Zero(p, ModInv(p, v)) {
      Refl(p, v);
      MulCong(p, v, v, ModInv(p, v), 0);
      OneNotZero(p, v * ModInv(p, v));
    }
  }

  lemma OneNotZero(p: nat, a: int)
    requires p >= 2 && Cong(p, a, 1)
    ensures !Zero(p, a)
  {
    if Zero(p, a) {
      Sym(p, a, 1);
      Trans(p, 1, a, 0);
      CongUnique(p, 1, 0);
    }
  }

  lemma DivideOut(p: nat, a: int, b: int, i: int, k: int, l: int)
    requires a * b == k * p && a * i == 1 + l * p
    ensures Zero(p, b)
  {
    assert b * (a * i) == b + b * l * p;
    assert b * (a * i) == (k * p) * i;
    Intro(p, b, 0, i * k - l * b);
  }

  /** Euclid's lemma: there are no zero divisors modulo a prime. */
  lemma NoZeroDivisors(p: nat, a: int, b: int)
    requires IsPrime(p)
    ensures Zero(p, a * b) <==> Zero(p, a) || Zero(p, b)
  {
    Refl(p, a);
    Refl(p, b);
    if Zero(p, a) { MulCong(p, a, 0, b, b); }
    if Zero(p, b) { MulCong(p, a, a, b, 0); }
    if Zero(p, a * b) && !Zero(p, a) {
      Inverse(p, a);
      var i := ModInv(p, a);
      DivideOut(p, a, b, i, Witness(p, a * b, 0), Witness(p, a * i, 1));
    }
  }

  /** A nonzero factor cancels. */
  lemma Cancel(p: nat, c: int, a: int, b: int)
    requires IsPrime(p) && !Zero(p, c) && Cong(p, c * a, c * b)
    ensures Cong(p, a, b)
  {
    var k := Witness(p, c * a, c * b);
    assert c * (a - b) == 0 + k * p;
    Intro(p, c * (a - b), 0, k);
    NoZeroDivisors(p, c, a - b);
    var l := Witness(p, a - b, 0);
    Intro(p, a, b, l);
  }

  /** Small integers are nonzero residues. */
  lemma SmallNonzero(p: nat, a: int)
    requires 0 < a < p || 0 - p < a < 0
    ensures !Zero(p, a)
  {
    if Zero(p, a) {
      var k := Witness(p, a, 0);
      BoundedMultiple(p, k);
    }
  }
}
