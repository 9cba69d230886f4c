/**
 * The exponent of a prime in a number (its p-adic valuation) and the
 * facts about it that the factorisation sieves rely on.
 */
module Valuation {
  import opened Divisibility

  /** The exponent of p in n: how many times p divides n. */
  function Val(p: nat, n: nat): nat
    requires p >= 2 && n >= 1
    decreases n
  {
    if n % p == 0 then
      MulDivExact(p, n / p);
      1 + Val(p, n / p)
    else 0
  }

  /** p^a divides n exactly when a does not exceed the exponent of p in n. */
  lemma {:induction false} PowDividesIff(p: nat, n: nat, a: nat)
    requires p >= 2 && n >= 1
    ensures n % Pow(p, a) == 0 <==> a <= Val(p, n)
    decreases a
  {
    if a > 0 {
      PowPositive(p, a - 1);
      ModProductIff(n, p, Pow(p, a - 1));
      if n % p == 0 {
        MulDivExact(p, n / p);
        PowDividesIff(p, n / p, a - 1);
      }
    }
  }

  /** The largest power of p dividing n divides n and is at most n. */
  lemma ValPowDivides(p: nat, n: nat)
    requires p >= 2 && n >= 1
    ensures n % Pow(p, Val(p, n)) == 0 && Pow(p, Val(p, n)) <= n
  {
    PowDividesIff(p, n, Val(p, n));
    PowPositive(p, Val(p, n));
    DividesLe(Pow(p, Val(p, n)), n);
  }

  /** p^(Val+1) never divides n: Val is the largest such exponent. */
  lemma ValIsLargest(p: nat, n: nat)
    requires p >= 2 && n >= 1
    ensures n % Pow(p, Val(p, n) + 1) != 0
  {
    PowDividesIff(p, n, Val(p, n) + 1);
  }

  /** A prime divides n exactly when its exponent in n is positive. */
  lemma ValPositiveIff(p: nat, n: nat)
    requires p >= 2 && n >= 1
    ensures Val(p, n) > 0 <==> n % p == 0
  {
  }

  /** Exponents add up under multiplication (this needs p to be prime). */
  lemma {:induction false} ValMul(p: nat, a: nat, b: nat)
    requires IsPrime(p) && a >= 1 && b >= 1
    ensures a * b >= 1 && Val(p, a * b) == Val(p, a) + Val(p, b)
    decreases a + b
  {
    var ab := a * b;
    assert ab >= 1 by { assert a * b >= 1 * b; }
    if a % p == 0 {
      ValUnfold(p, a);
      DivOutOfProduct(p, a, b);
      ValUnfold(p, ab);
      ValMul(p, a / p, b);
    } else if b % p == 0 {
      ValUnfold(p, b);
      DivOutOfProduct(p, b, a);
      assert b * a == ab;
      ValUnfold(p, ab);
      ValMul(p, a, b / p);
      assert (b / p) * a == a * (b / p);
    } else if ab % p == 0 {
      Euclid(p, a, b);
    }
  }

  /** One step of the definition of Val, with the bounds that come with it. */
  lemma ValUnfold(p: nat, n: nat)
    requires p >= 2 && n >= 1 && n % p == 0
    ensures 1 <= n / p < n && Val(p, n) == 1 + Val(p, n / p)
  {
    MulDivExact(p, n / p);
  }

  /** The exponent of p in itself is 1. */
  lemma ValSelf(p: nat)
    requires p >= 2
    ensures Val(p, p) == 1
  {
    MulDivExact(p, 1);
    assert 1 % p == 1;
  }

  /** A prime does not divide a different prime. */
  lemma DistinctPrimes(q: nat, p: nat)
    requires IsPrime(q) && IsPrime(p) && q != p
    ensures p % q != 0
  {
    if q > p {
      assert p % q == p;
    }
  }

  /** Two primes: the exponent of q in p is 1 if they are equal and 0 otherwise. */
  lemma ValOfPrime(q: nat, p: nat)
    requires IsPrime(q) && IsPrime(p)
    ensures Val(q, p) == if q == p then 1 else 0
  {
    if q == p {
      ValSelf(p);
    } else {
      DistinctPrimes(q, p);
    }
  }

  /** The exponent of prime q in the prime power p^v. */
  lemma {:induction false} ValOfPrimePower(q: nat, p: nat, v: nat)
    requires IsPrime(q) && IsPrime(p)
    ensures Pow(p, v) >= 1 && Val(q, Pow(p, v)) == if q == p then v else 0
  {
    PowPositive(p, v);
    if v > 0 {
      PowPositive(p, v - 1);
      ValOfPrimePower(q, p, v - 1);
      ValMul(q, p, Pow(p, v - 1));
      ValOfPrime(q, p);
    }
  }

  /** A prime larger than n does not divide it. */
  lemma ValOfLargerPrime(p: nat, n: nat)
    requires p >= 2 && 1 <= n < p
    ensures Val(p, n) == 0
  {
    assert n % p == n;
  }
}
