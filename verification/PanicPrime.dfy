/**
 The primes on which msqrt panics exist: every prime factor of the Fermat number
 2^(2^65) + 1 is one, because 2 has order 2^66 modulo it.
 */
module PanicPrime {
  import opened ModArith
  import opened Residues
  import opened SquareRoot

  lemma DivisorWitness(m: nat, n: nat)
    requires m > 0
    ensures Divides(m, n) ==> n == m * (n / m)
  {
  }

  lemma MultipleDivides(m: nat, c: nat)
    requires m > 0
    ensures Divides(m, m * c)
  {
    Intro(m, m * c, 0, c);
    CongIffMod(m, m * c, 0);
    ModSmall(m, 0);
  }

  lemma DividesTrans(k: nat, m: nat, n: nat)
    requires k > 0 && m > 0 && Divides(k, m) && Divides(m, n)
    ensures Divides(k, n)
  {
    var c, d := m / k, n / m;
    DivisorWitness(k, m);
    DivisorWitness(m, n);
    assert n == k * (c * d);
    MultipleDivides(k, c * d);
  }

  /** The least divisor of n, when nothing below m divides n; it is prime. */
  lemma LeastDivisor(n: nat, m: nat) returns (q: nat)
    requires 2 <= m <= n && forall i :: 2 <= i < m ==> !Divides(i, n)
    ensures m <= q <= n && Divides(q, n) && IsPrime(q)
    decreases n - m
  {
    if Divides(m, n) {
      q := m;
      forall i | 2 <= i < q
        ensures !Divides(i, q)
      {
        if Divides(i, q) { DividesTrans(i, q, n); }
      }
    } else {
      assert Divides(n, n);
      q := LeastDivisor(n, m + 1);
    }
  }

  lemma FactorCong(q: nat, n: nat, a: int, b: int)
    requires q > 0 && Divides(q, n) && Cong(n, a, b)
    ensures Cong(q, a, b)
  {
    DivisorWitness(q, n);
    var w, c := Witness(n, a, b), n / q;
    assert w * (q * c) == (w * c) * q;
    Intro(q, a, b, w * c);
  }

  /** If b^(2^(e-1)) = -1 modulo an odd prime q, then 2^e divides q - 1. */
  lemma OrderBound(q: nat, b: int, e: nat)
    requires OddPrime(q) && e >= 1 && Cong(q, Pow(b, TwoTo(e - 1)), -1)
    ensures TwoAdic(q - 1).1 >= e
  {
    var (s, f) := TwoAdic(q - 1);
    if f < e {
      TwoAdicSpec(q - 1);
      TwoToAdd(f, e - 1 - f);
      SameExponent(s, TwoTo(f), TwoTo(e - 1 - f), TwoTo(e - 1));
      OrderConflict(q, b, TwoTo(e - 1 - f), TwoTo(e - 1), s);
    }
  }

  /** An odd multiple u s of u cannot also be a multiple of q - 1 if b^u = -1. */
  lemma OrderConflict(q: nat, b: int, j: nat, u: nat, s: nat)
    requires OddPrime(q) && u > 0 && Cong(q, Pow(b, u), -1) && s % 2 == 1
    ensures (q - 1) * j != u * s
  {
    NonzeroBase(q, b, u);
    Fermat(q, b);
    PowMul(b, q - 1, j);
    PowCong(q, Pow(b, q - 1), 1, j);
    PowOne(j);
    PowMul(b, u, s);
    PowCong(q, Pow(b, u), -1, s);
    PowMinusOne(s);
    OneIsNotMinusOne(q, Pow(b, (q - 1) * j));
  }

  lemma SameExponent(s: nat, t: nat, j: nat, u: nat)
    requires t * j == u
    ensures (s * t) * j == u * s
  {
  }

  /** The k-th Fermat number. */
  ghost function FermatNumber(k: nat): (n: nat)
    ensures n >= 3 && n % 2 == 1
  {
    EvenPower(TwoTo(k));
    Pow(2, TwoTo(k)) + 1
  }

  lemma EvenPower(n: nat)
    ensures n >= 1 ==> Pow(2, n) >= 2 && Pow(2, n) % 2 == 0
  {
    if n > 1 { EvenPower(n - 1); }
  }

  /** Every prime factor of 2^(2^65) + 1 is an odd prime on which msqrt panics, given the square -1. */
  lemma FermatFactorPanics(q: nat)
    requires IsPrime(q) && Divides(q, FermatNumber(65))
    ensures OddPrime(q) && IsSquare(q, q - 1) && !Zero(q, q - 1)
    ensures Msqrt(q, q - 1) == Panic
  {
    var n := FermatNumber(65);
    assert q % 2 == 1 by {
      if q % 2 == 0 { DividesTrans(2, q, n); }
    }
    Intro(n, Pow(2, TwoTo(65)), -1, 1);
    FactorCong(q, n, Pow(2, TwoTo(65)), -1);
    OrderBound(q, 2, 66);
    MsqrtPanics(q);
  }

  /** Such a prime exists: the least factor of that Fermat number. */
  lemma MsqrtPanicsSomewhere() returns (q: nat)
    ensures OddPrime(q) && IsSquare(q, q - 1) && Msqrt(q, q - 1) == Panic
  {
    q := LeastDivisor(FermatNumber(65), 2);
    FermatFactorPanics(q);
  }
}
