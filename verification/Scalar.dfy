/**
 Scalar multiplication: edwardsScale of pak.go computes the sum of s copies of a
 point, so the secret points of the SPAKE2-EE exchange agree.
 */
module Scalar {
  import opened Edwards
  import opened Points

  /** The sum of k copies of P. */
  ghost function Times(c: Curve, P: ExtPoint, k: nat): ExtPoint
    requires c.p > 0
  {
    if k == 0 then Identity(c) else EdwardsAdd(c, Times(c, P, k - 1), P)
  }

  /** What the loop of edwardsScale makes of its variables. */
  function ScaleFrom(c: Curve, acc: ExtPoint, cur: ExtPoint, k: nat): ExtPoint
    requires c.p > 0
    decreases k
  {
    if k == 0 then acc
    else ScaleFrom(c, if k % 2 == 1 then EdwardsAdd(c, acc, cur) else acc, EdwardsAdd(c, cur, cur), k / 2)
  }

  /** How many copies edwardsScale adds up. */
  function Copies(s: int): nat {
    if s > 0 then s else 0
  }

  /** edwardsScale; a scalar that is not positive leaves the identity. */
  function Scale(c: Curve, P: ExtPoint, s: int): ExtPoint
    requires c.p > 0
  {
    ScaleFrom(c, Identity(c), P, Copies(s))
  }

  /** edwardsScale as the source writes it: double and add, from the low bit up. */
  method EdwardsScale(c: Curve, P: ExtPoint, s: int) returns (acc: ExtPoint)
    requires Complete(c) && Point(c, P)
    ensures acc == Scale(c, P, s)
    ensures Point(c, acc) && ProjEq(c, acc, Times(c, P, Copies(s)))
  {
    acc := Identity(c);
    var cur, k := P, s;
    while k > 0
      invariant ScaleFrom(c, acc, cur, Copies(k)) == Scale(c, P, s)
      decreases k
    {
      if k % 2 == 1 {
        acc := EdwardsAdd(c, acc, cur);
      }
      cur := EdwardsAdd(c, cur, cur);
      k := k / 2;
    }
    ScaleIsTimes(c, P, s);
  }

  lemma {:induction false} TimesPoint(c: Curve, P: ExtPoint, k: nat)
    requires Complete(c) && Point(c, P)
    ensures Point(c, Times(c, P, k))
  {
    if k == 0 {
      IdentityPoint(c);
    } else {
      TimesPoint(c, P, k - 1);
      AddComplete(c, Times(c, P, k - 1), P);
    }
  }

  lemma {:induction false} TimesRespects(c: Curve, P: ExtPoint, Q: ExtPoint, k: nat)
    requires Complete(c) && Point(c, P) && Point(c, Q) && ProjEq(c, P, Q)
    ensures ProjEq(c, Times(c, P, k), Times(c, Q, k))
  {
    if k == 0 {
      ProjRefl(c, Identity(c));
    } else {
      TimesRespects(c, P, Q, k - 1);
      TimesPoint(c, P, k - 1);
      TimesPoint(c, Q, k - 1);
      AddRespects(c, Times(c, P, k - 1), Times(c, Q, k - 1), P, Q);
    }
  }

  /** Replacing the first summand by an equivalent point. */
  lemma ReplaceLeft(c: Curve, A: ExtPoint, B: ExtPoint, P: ExtPoint)
    requires Complete(c) && Point(c, A) && Point(c, B) && Point(c, P) && ProjEq(c, A, B)
    ensures Point(c, EdwardsAdd(c, A, P)) && Point(c, EdwardsAdd(c, B, P))
    ensures ProjEq(c, EdwardsAdd(c, A, P), EdwardsAdd(c, B, P))
  {
    AddComplete(c, A, P);
    AddComplete(c, B, P);
    ProjRefl(c, P);
    AddRespects(c, A, B, P, P);
  }

  lemma ReplaceRight(c: Curve, P: ExtPoint, A: ExtPoint, B: ExtPoint)
    requires Complete(c) && Point(c, A) && Point(c, B) && Point(c, P) && ProjEq(c, A, B)
    ensures Point(c, EdwardsAdd(c, P, A)) && Point(c, EdwardsAdd(c, P, B))
    ensures ProjEq(c, EdwardsAdd(c, P, A), EdwardsAdd(c, P, B))
  {
    ReplaceLeft(c, A, B, P);
    AddCommutes(c, A, P);
    AddCommutes(c, B, P);
  }

  /** (m + n) P = m P + n P. */
  lemma {:induction false} TimesAdd(c: Curve, P: ExtPoint, m: nat, n: nat)
    requires Complete(c) && Point(c, P)
    ensures ProjEq(c, Times(c, P, m + n), EdwardsAdd(c, Times(c, P, m), Times(c, P, n)))
  {
    var M := Times(c, P, m);
    TimesPoint(c, P, m);
    if n == 0 {
      AddIdentity(c, M);
      ProjSym(c, EdwardsAdd(c, M, Identity(c)), M);
    } else {
      var N := Times(c, P, n - 1);
      TimesPoint(c, P, n - 1);
      TimesPoint(c, P, m + n - 1);
      AddComplete(c, M, N);
      TimesAdd(c, P, m, n - 1);
      ReplaceLeft(c, Times(c, P, m + n - 1), EdwardsAdd(c, M, N), P);
      AddAssociates(c, M, N, P);
      ProjTrans(c, Times(c, P, m + n), EdwardsAdd(c, EdwardsAdd(c, M, N), P), EdwardsAdd(c, M, Times(c, P, n)));
    }
  }

  /** n (m P) = (m n) P. */
  lemma {:induction false} TimesTimes(c: Curve, P: ExtPoint, m: nat, n: nat)
    requires Complete(c) && Point(c, P)
    ensures m * n >= 0
    ensures ProjEq(c, Times(c, Times(c, P, m), n), Times(c, P, m * n))
  {
    var M := Times(c, P, m);
    TimesPoint(c, P, m);
    if n == 0 {
      ProjRefl(c, Identity(c));
    } else {
      TimesTimes(c, P, m, n - 1);
      ProductStep(m, n);
      var k := m * (n - 1);
      TimesPoint(c, M, n - 1);
      TimesPoint(c, P, k);
      ReplaceLeft(c, Times(c, M, n - 1), Times(c, P, k), M);
      TimesAdd(c, P, k, m);
      ProjSym(c, Times(c, P, k + m), EdwardsAdd(c, Times(c, P, k), M));
      ProjTrans(c, Times(c, M, n), EdwardsAdd(c, Times(c, P, k), M), Times(c, P, m * n));
    }
  }

  lemma ProductStep(m: nat, n: nat)
    requires n > 0
    ensures m * (n - 1) + m == m * n
  {
  }

  /** k (2 P) = (2 k) P. */
  lemma TimesDouble(c: Curve, P: ExtPoint, k: nat)
    requires Complete(c) && Point(c, P)
    ensures Point(c, EdwardsAdd(c, P, P)) && ProjEq(c, Times(c, EdwardsAdd(c, P, P), k), Times(c, P, 2 * k))
  {
    var O, D := Identity(c), EdwardsAdd(c, P, P);
    AddComplete(c, P, P);
    IdentityPoint(c);
    AddIdentity(c, P);
    TimesPoint(c, P, 1);
    TimesPoint(c, P, 2);
    assert Times(c, P, 1) == EdwardsAdd(c, Times(c, P, 0), P) == EdwardsAdd(c, O, P);
    ReplaceLeft(c, EdwardsAdd(c, O, P), P, P);
    ProjSym(c, Times(c, P, 2), D);
    TimesRespects(c, D, Times(c, P, 2), k);
    TimesTimes(c, P, 2, k);
    TimesPoint(c, Times(c, P, 2), k);
    ProjTrans(c, Times(c, D, k), Times(c, Times(c, P, 2), k), Times(c, P, 2 * k));
  }

  /** The loop adds k copies of cur to acc. */
  lemma {:induction false} ScaleFromSpec(c: Curve, acc: ExtPoint, cur: ExtPoint, k: nat)
    requires Complete(c) && Point(c, acc) && Point(c, cur)
    ensures Point(c, ScaleFrom(c, acc, cur, k))
    ensures ProjEq(c, ScaleFrom(c, acc, cur, k), EdwardsAdd(c, acc, Times(c, cur, k)))
    decreases k
  {
    if k == 0 {
      AddIdentity(c, acc);
      ProjSym(c, EdwardsAdd(c, acc, Identity(c)), acc);
    } else {
      var D := EdwardsAdd(c, cur, cur);
      TimesDouble(c, cur, k / 2);
      TimesPoint(c, D, k / 2);
      TimesPoint(c, cur, 2 * (k / 2));
      if k % 2 == 0 {
        ScaleFromSpec(c, acc, D, k / 2);
        ReplaceRight(c, acc, Times(c, D, k / 2), Times(c, cur, k));
        ProjTrans(c, ScaleFrom(c, acc, cur, k), EdwardsAdd(c, acc, Times(c, D, k / 2)), EdwardsAdd(c, acc, Times(c, cur, k)));
      } else {
        AddComplete(c, acc, cur);
        ScaleFromSpec(c, EdwardsAdd(c, acc, cur), D, k / 2);
        OddStep(c, acc, cur, D, k);
      }
    }
  }

  lemma OddStep(c: Curve, acc: ExtPoint, cur: ExtPoint, D: ExtPoint, k: nat)
    requires Complete(c) && Point(c, acc) && Point(c, cur) && Point(c, D) && k % 2 == 1
    requires ProjEq(c, Times(c, D, k / 2), Times(c, cur, k - 1))
    requires var A := EdwardsAdd(c, acc, cur);
             Point(c, A) && ProjEq(c, ScaleFrom(c, A, D, k / 2), EdwardsAdd(c, A, Times(c, D, k / 2)))
    ensures ProjEq(c, ScaleFrom(c, EdwardsAdd(c, acc, cur), D, k / 2), EdwardsAdd(c, acc, Times(c, cur, k)))
  {
    var A, K, H := EdwardsAdd(c, acc, cur), Times(c, cur, k - 1), Times(c, D, k / 2);
    var S := ScaleFrom(c, A, D, k / 2);
    TimesPoint(c, D, k / 2);
    TimesPoint(c, cur, k - 1);
    ReplaceRight(c, A, H, K);
    ProjTrans(c, S, EdwardsAdd(c, A, H), EdwardsAdd(c, A, K));
    AddAssociates(c, acc, cur, K);
    AddCommutes(c, cur, K);
    ProjTrans(c, S, EdwardsAdd(c, A, K), EdwardsAdd(c, acc, EdwardsAdd(c, K, cur)));
  }

  /** edwardsScale computes the scalar multiple. */
  lemma ScaleIsTimes(c: Curve, P: ExtPoint, s: int)
    requires Complete(c) && Point(c, P)
    ensures Point(c, Scale(c, P, s)) && ProjEq(c, Scale(c, P, s), Times(c, P, Copies(s)))
  {
    var k := Copies(s);
    var O, K := Identity(c), Times(c, P, k);
    IdentityPoint(c);
    ScaleFromSpec(c, O, P, k);
    TimesPoint(c, P, k);
    AddComplete(c, O, K);
    AddIdentity(c, K);
    ProjTrans(c, Scale(c, P, s), EdwardsAdd(c, O, K), K);
  }

  /** edwardsScale maps projectively equal points to projectively equal multiples. */
  lemma ScaleRespects(c: Curve, P: ExtPoint, Q: ExtPoint, s: int)
    requires Complete(c) && Point(c, P) && Point(c, Q) && ProjEq(c, P, Q)
    ensures ProjEq(c, Scale(c, P, s), Scale(c, Q, s))
  {
    var k := Copies(s);
    ScaleIsTimes(c, P, s);
    ScaleIsTimes(c, Q, s);
    TimesRespects(c, P, Q, k);
    TimesPoint(c, P, k);
    TimesPoint(c, Q, k);
    ProjSym(c, Scale(c, Q, s), Times(c, Q, k));
    ProjTrans(c, Scale(c, P, s), Times(c, P, k), Times(c, Q, k));
    ProjTrans(c, Scale(c, P, s), Times(c, Q, k), Scale(c, Q, s));
  }

  /** Scaling twice multiplies the scalars. */
  lemma ScaleTwice(c: Curve, P: ExtPoint, a: nat, b: nat)
    requires Complete(c) && Point(c, P)
    ensures Point(c, Scale(c, P, a)) && Point(c, Scale(c, Scale(c, P, a), b))
    ensures a * b >= 0 && ProjEq(c, Scale(c, Scale(c, P, a), b), Times(c, P, a * b))
  {
    var A := Scale(c, P, a);
    ScaleIsTimes(c, P, a);
    ScaleIsTimes(c, A, b);
    TimesPoint(c, P, a);
    TimesPoint(c, A, b);
    TimesPoint(c, Times(c, P, a), b);
    TimesRespects(c, A, Times(c, P, a), b);
    TimesTimes(c, P, a, b);
    ProjTrans(c, Scale(c, A, b), Times(c, A, b), Times(c, Times(c, P, a), b));
    ProjTrans(c, Scale(c, A, b), Times(c, Times(c, P, a), b), Times(c, P, a * b));
  }

  /** (A + B) + (C + D) = (A + C) + (B + D). */
  lemma Shuffle(c: Curve, A: ExtPoint, B: ExtPoint, C: ExtPoint, D: ExtPoint)
    requires Complete(c) && Point(c, A) && Point(c, B) && Point(c, C) && Point(c, D)
    ensures ProjEq(c, EdwardsAdd(c, EdwardsAdd(c, A, B), EdwardsAdd(c, C, D)),
                      EdwardsAdd(c, EdwardsAdd(c, A, C), EdwardsAdd(c, B, D)))
  {
    var (AB, CD, AC, BD) := (EdwardsAdd(c, A, B), EdwardsAdd(c, C, D), EdwardsAdd(c, A, C), EdwardsAdd(c, B, D));
    AddComplete(c, A, B);
    AddComplete(c, C, D);
    AddComplete(c, A, C);
    AddComplete(c, B, D);
    AddComplete(c, AB, C);
    AddComplete(c, AC, B);
    AddAssociates(c, AB, C, D);
    ProjSym(c, EdwardsAdd(c, EdwardsAdd(c, AB, C), D), EdwardsAdd(c, AB, CD));
    SwapLast(c, A, B, C);
    ReplaceLeft(c, EdwardsAdd(c, AB, C), EdwardsAdd(c, AC, B), D);
    AddAssociates(c, AC, B, D);
    ProjTrans(c, EdwardsAdd(c, AB, CD), EdwardsAdd(c, EdwardsAdd(c, AB, C), D), EdwardsAdd(c, EdwardsAdd(c, AC, B), D));
    ProjTrans(c, EdwardsAdd(c, AB, CD), EdwardsAdd(c, EdwardsAdd(c, AC, B), D), EdwardsAdd(c, AC, BD));
  }

  /** (A + B) + C = (A + C) + B. */
  lemma SwapLast(c: Curve, A: ExtPoint, B: ExtPoint, C: ExtPoint)
    requires Complete(c) && Point(c, A) && Point(c, B) && Point(c, C)
    ensures ProjEq(c, EdwardsAdd(c, EdwardsAdd(c, A, B), C), EdwardsAdd(c, EdwardsAdd(c, A, C), B))
  {
    var (BC, AC) := (EdwardsAdd(c, B, C), EdwardsAdd(c, A, C));
    AddComplete(c, B, C);
    AddComplete(c, A, BC);
    AddAssociates(c, A, B, C);
    AddCommutes(c, B, C);
    AddAssociates(c, A, C, B);
    ProjSym(c, EdwardsAdd(c, AC, B), EdwardsAdd(c, A, BC));
    ProjTrans(c, EdwardsAdd(c, EdwardsAdd(c, A, B), C), EdwardsAdd(c, A, BC), EdwardsAdd(c, AC, B));
  }

  /** k (P + Q) = k P + k Q. */
  lemma {:induction false} TimesSum(c: Curve, P: ExtPoint, Q: ExtPoint, k: nat)
    requires Complete(c) && Point(c, P) && Point(c, Q)
    ensures Point(c, EdwardsAdd(c, P, Q))
    ensures ProjEq(c, Times(c, EdwardsAdd(c, P, Q), k), EdwardsAdd(c, Times(c, P, k), Times(c, Q, k)))
  {
    var S := EdwardsAdd(c, P, Q);
    AddComplete(c, P, Q);
    if k == 0 {
      AddIdentity(c, Identity(c));
      ProjSym(c, EdwardsAdd(c, Identity(c), Identity(c)), Identity(c));
    } else {
      var (p, q) := (Times(c, P, k - 1), Times(c, Q, k - 1));
      TimesPoint(c, P, k - 1);
      TimesPoint(c, Q, k - 1);
      TimesPoint(c, S, k - 1);
      AddComplete(c, p, q);
      TimesSum(c, P, Q, k - 1);
      ReplaceLeft(c, Times(c, S, k - 1), EdwardsAdd(c, p, q), S);
      Shuffle(c, p, q, P, Q);
      ProjTrans(c, Times(c, S, k), EdwardsAdd(c, EdwardsAdd(c, p, q), S), EdwardsAdd(c, Times(c, P, k), Times(c, Q, k)));
    }
  }

  // ----- The exchange, on points

  /** What spake2ee1 encodes. */
  function Share(c: Curve, G: ExtPoint, x: int, B: ExtPoint): ExtPoint
    requires c.p > 0
  {
    EdwardsAdd(c, Scale(c, G, x), B)
  }

  /** What spake2ee2 encodes. */
  function Secret(c: Curve, Y: ExtPoint, B: ExtPoint, x: int): ExtPoint
    requires c.p > 0
  {
    Scale(c, EdwardsAdd(c, Y, NegPoint(c, B)), x)
  }

  /** The share is x G + B. */
  lemma ShareBlinded(c: Curve, G: ExtPoint, x: int, B: ExtPoint)
    requires Complete(c) && Point(c, G) && Point(c, B)
    ensures Point(c, Share(c, G, x, B)) && ProjEq(c, Share(c, G, x, B), EdwardsAdd(c, Times(c, G, Copies(x)), B))
  {
    ScaleIsTimes(c, G, x);
    TimesPoint(c, G, Copies(x));
    ReplaceLeft(c, Scale(c, G, x), Times(c, G, Copies(x)), B);
  }

  /** From Q + B the secret is x Q: exactly this B is taken off. */
  lemma SecretUnblinds(c: Curve, Y: ExtPoint, Q: ExtPoint, B: ExtPoint, x: int)
    requires Complete(c) && Point(c, Y) && Point(c, Q) && Point(c, B) && ProjEq(c, Y, EdwardsAdd(c, Q, B))
    ensures Point(c, Secret(c, Y, B, x)) && ProjEq(c, Secret(c, Y, B, x), Times(c, Q, Copies(x)))
  {
    var N, S := NegPoint(c, B), EdwardsAdd(c, Q, B);
    NegIsPoint(c, B);
    AddComplete(c, Q, B);
    ReplaceLeft(c, Y, S, N);
    Unblind(c, Q, B);
    var U := EdwardsAdd(c, Y, N);
    ProjTrans(c, U, EdwardsAdd(c, S, N), Q);
    ScaleRespects(c, U, Q, x);
    ScaleIsTimes(c, U, x);
    ScaleIsTimes(c, Q, x);
    TimesPoint(c, Q, Copies(x));
    ProjTrans(c, Scale(c, U, x), Scale(c, Q, x), Times(c, Q, Copies(x)));
  }

  /** Blinding after B was taken off gives the point back: (P - B) + B = P. */
  lemma BlindBack(c: Curve, P: ExtPoint, B: ExtPoint)
    requires Complete(c) && Point(c, P) && Point(c, B)
    ensures var D := EdwardsAdd(c, P, NegPoint(c, B)); Point(c, D) && ProjEq(c, EdwardsAdd(c, D, B), P)
  {
    var N := NegPoint(c, B);
    NegIsPoint(c, B);
    AddComplete(c, P, N);
    AddComplete(c, P, B);
    AddComplete(c, EdwardsAdd(c, P, B), N);
    SwapLast(c, P, N, B);
    Unblind(c, P, B);
    ProjTrans(c, EdwardsAdd(c, EdwardsAdd(c, P, N), B), EdwardsAdd(c, EdwardsAdd(c, P, B), N), P);
  }

  /** One end's secret is a multiple of the generator, whatever the blinding point. */
  lemma SecretIsTimes(c: Curve, G: ExtPoint, B: ExtPoint, x: nat, y: nat)
    requires Complete(c) && Point(c, G) && Point(c, B)
    ensures var S := Secret(c, Share(c, G, y, B), B, x); Point(c, S) && y * x >= 0 && ProjEq(c, S, Times(c, G, y * x))
  {
    var Y, K := Share(c, G, y, B), Times(c, G, y);
    ShareBlinded(c, G, y, B);
    TimesPoint(c, G, y);
    SecretUnblinds(c, Y, K, B, x);
    TimesTimes(c, G, y, x);
    TimesPoint(c, K, x);
    ProjTrans(c, Secret(c, Y, B, x), Times(c, K, x), Times(c, G, y * x));
  }

  /**
   The exchange without encodings: client (scalar x, blinding M) and server (scalar y, blinding N) send x G + M and
   y G + N, and both reach x y G.
   */
  lemma SecretsAgree(c: Curve, G: ExtPoint, M: ExtPoint, N: ExtPoint, x: nat, y: nat)
    requires Complete(c) && Point(c, G) && Point(c, M) && Point(c, N)
    ensures ProjEq(c, Share(c, G, x, M), EdwardsAdd(c, Times(c, G, x), M))
    ensures ProjEq(c, Share(c, G, y, N), EdwardsAdd(c, Times(c, G, y), N))
    ensures var k := Product(x, y);
            ProjEq(c, Secret(c, Share(c, G, y, N), N, x), Times(c, G, k)) &&
            ProjEq(c, Secret(c, Share(c, G, x, M), M, y), Times(c, G, k))
  {
    ShareBlinded(c, G, x, M);
    ShareBlinded(c, G, y, N);
    SecretIsTimes(c, G, N, x, y);
    SecretIsTimes(c, G, M, y, x);
  }

  function Product(x: nat, y: nat): (k: nat)
    ensures k == y * x
  {
    x * y
  }
}
