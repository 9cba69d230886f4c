/**
 * The prime factorisation of n as a multiset of primes (each prime p
 * repeated Val(p, n) times), and the product of a table of exponents.
 * Both factorisation sieves are specified by these.
 */
module Factorization {
  import opened Divisibility
  import opened Valuation
  import opened Multiplicative

  function Min(a: nat, b: nat): nat
  {
    if a <= b then a else b
  }

  /** c copies of x. */
  function Copies(x: nat, c: nat): (r: multiset<nat>)
    ensures r[x] == c && forall y :: y != x ==> r[y] == 0
  {
    multiset{}[x := c]
  }

  /** The primes below m that divide n, each repeated as often as it divides n. */
  function Factors(n: nat, m: nat): multiset<nat>
    requires n >= 1
  {
    if m <= 2 then multiset{}
    else Factors(n, m - 1) + (if IsPrime(m - 1) then Copies(m - 1, Val(m - 1, n)) else multiset{})
  }

  /** The prime factors of n, with multiplicity. */
  function PrimeFactors(n: nat): multiset<nat>
    requires n >= 1
  {
    Factors(n, n + 1)
  }

  /** A prime below m occurs Val(p, n) times in Factors(n, m); nothing else occurs. */
  lemma {:induction false} FactorsCount(n: nat, m: nat, q: nat)
    requires n >= 1
    ensures Factors(n, m)[q] == if IsPrime(q) && q < m then Val(q, n) else 0
  {
    if m > 2 {
      FactorsCount(n, m - 1, q);
    }
  }

  /** Every element of Factors(n, m) is a prime below m that divides n. */
  lemma FactorsElements(n: nat, m: nat, q: nat)
    requires n >= 1 && q in Factors(n, m)
    ensures IsPrime(q) && q < m && n % q == 0
  {
    FactorsCount(n, m, q);
    ValPositiveIff(q, n);
  }

  /** Primes beyond n do not divide it: Factors stops changing at m = n + 1. */
  lemma FactorsStable(n: nat, m: nat)
    requires 1 <= n < m
    ensures Factors(n, m) == PrimeFactors(n)
  {
    forall q: nat
      ensures Factors(n, m)[q] == PrimeFactors(n)[q]
    {
      FactorsCount(n, m, q);
      FactorsCount(n, n + 1, q);
      if IsPrime(q) && n < q < m {
        ValOfLargerPrime(q, n);
      }
    }
  }

  /** 1 has no prime factors. */
  lemma FactorsOfOne(m: nat)
    ensures Factors(1, m) == multiset{}
  {
    forall q: nat
      ensures Factors(1, m)[q] == 0
    {
      FactorsCount(1, m, q);
      if IsPrime(q) {
        ValOfLargerPrime(q, 1);
      }
    }
  }

  /** No prime below n divides n exactly when n is prime. */
  lemma FactorsBelowSelfEmptyIff(n: nat)
    requires n >= 2
    ensures Factors(n, n) == multiset{} <==> IsPrime(n)
  {
    if IsPrime(n) {
      forall q: nat
        ensures Factors(n, n)[q] == 0
      {
        FactorsCount(n, n, q);
        if IsPrime(q) && q < n {
          ValPositiveIff(q, n);
        }
      }
    } else {
      var q := CompositeHasSmallerPrimeFactor(n);
      FactorsCount(n, n, q);
      ValPositiveIff(q, n);
      assert q in Factors(n, n);
    }
  }

  /**
   * The product over 2 <= v < m of v^count(v): the product of the elements of
   * a multiset (or counter) whose elements lie in [2, m) and are counted by count.
   */
  function ExponentProduct(count: nat -> nat, m: nat): nat
  {
    if m <= 2 then 1 else ExponentProduct(count, m - 1) * Pow(m - 1, count(m - 1))
  }

  /**
   * Counting every prime with its exponent in n, the product over the values
   * below m is the part of n made of primes below m.
   */
  lemma {:induction false} ExponentProductOfValuations(count: nat -> nat, n: nat, m: nat)
    requires n >= 1
    requires forall v :: 2 <= v < m ==> count(v) == if IsPrime(v) then Val(v, n) else 0
    ensures ExponentProduct(count, m) == PrimePart(n, m)
  {
    if m > 2 {
      ExponentProductOfValuations(count, n, m - 1);
    }
  }

  /** The product of the prime factors of n, with multiplicity, is n. */
  lemma PrimeFactorsProduct(n: nat)
    requires n >= 1
    ensures ExponentProduct(v => PrimeFactors(n)[v], n + 1) == n
  {
    forall v | 2 <= v < n + 1
      ensures PrimeFactors(n)[v] == if IsPrime(v) then Val(v, n) else 0
    {
      FactorsCount(n, n + 1, v);
    }
    ExponentProductOfValuations(v => PrimeFactors(n)[v], n, n + 1);
    FactorizationProduct(n, n + 1);
  }
}
