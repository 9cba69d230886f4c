/**
 * funcs.py: init_pfactorize fills pfactorize[j], a Counter (prime -> count),
 * by sweeping, for every i whose counter is still empty when the outer loop
 * reaches it, the multiples of i, i^2, i^3, ... up to N. The power loop
 * stops through the floor-division guard `pow_i > N // i` before pow_i * i
 * could pass N.
 */
module Funcs {
  import opened Divisibility
  import opened Valuation
  import opened Multiplicative
  import opened Factorization
  import opened SieveSteps

  /** A Counter lookup: a missing key counts 0. */
  function Cnt(c: map<nat, nat>, q: nat): nat
  {
    if q in c then c[q] else 0
  }

  /** `c[q] += 1` on a Counter: q gains one, every other count stays. */
  function Increment(c: map<nat, nat>, q: nat): (r: map<nat, nat>)
    ensures Cnt(r, q) == Cnt(c, q) + 1
    ensures forall x :: x != q ==> Cnt(r, x) == Cnt(c, x)
    ensures r.Keys == c.Keys + {q}
  {
    c[q := Cnt(c, q) + 1]
  }

  /** The Counter holding the elements of a multiset, keyed by element. */
  function CounterOf(ms: multiset<nat>): map<nat, nat>
  {
    map q | q in ms :: ms[q]
  }

  /** The keys of CounterOf(ms) are the elements of ms, each with its multiplicity. */
  lemma CounterOfCounts(ms: multiset<nat>, q: nat)
    ensures q in CounterOf(ms) <==> q in ms
    ensures Cnt(CounterOf(ms), q) == ms[q]
  {
  }

  /** Counting one more element is one increment of the Counter. */
  lemma CounterOfInsert(ms: multiset<nat>, x: nat)
    ensures CounterOf(ms + multiset{x}) == Increment(CounterOf(ms), x)
  {
    var a, b := CounterOf(ms + multiset{x}), Increment(CounterOf(ms), x);
    forall q | q in a
      ensures q in b && a[q] == b[q]
    {
      CounterOfCounts(ms + multiset{x}, q);
      CounterOfCounts(ms, q);
    }
    forall q | q in b
      ensures q in a
    {
      CounterOfCounts(ms + multiset{x}, q);
      CounterOfCounts(ms, q);
    }
    assert a.Keys == b.Keys;
  }

  /** A Counter is empty (falsy) exactly when it counts nothing. */
  lemma CounterOfEmptyIff(ms: multiset<nat>)
    ensures CounterOf(ms) == map[] <==> ms == multiset{}
  {
    if ms != multiset{} {
      var x :| x in ms;
      assert x in CounterOf(ms);
    }
  }

  /**
   * The guard `pow_i > N // i` (floor division) holds exactly when
   * pow_i * i > N: the loop leaves before the next power passes N.
   */
  lemma FloorDivGuard(pow: nat, i: nat, N: nat)
    requires i >= 1
    ensures pow > N / i <==> pow * i > N
  {
    var q := N / i;
    assert N == i * q + N % i;
    if pow > q {
      MulMono(q + 1, pow, i, i);
      assert (q + 1) * i == i * q + i;
    } else {
      MulMono(pow, q, i, i);
    }
  }

  /** The Counter of k once the primes below i and c powers of i have been swept. */
  function Swept(k: nat, i: nat, c: nat): map<nat, nat>
    requires k >= 1
  {
    CounterOf(Factors(k, i) + Copies(i, c))
  }

  /** One more count of i moves Swept from c to c + 1. */
  lemma SweptStep(k: nat, i: nat, c: nat)
    requires k >= 1
    ensures Increment(Swept(k, i, c), i) == Swept(k, i, c + 1)
  {
    assert Factors(k, i) + Copies(i, c) + multiset{i} == Factors(k, i) + Copies(i, c + 1);
    CounterOfInsert(Factors(k, i) + Copies(i, c), i);
  }

  /** Once i^e exceeds k, the e - 1 swept powers of i account for all of Val(i, k). */
  lemma SweptAll(k: nat, i: nat, e: nat)
    requires k >= 1 && IsPrime(i) && e >= 1 && Pow(i, e) > k
    ensures Swept(k, i, Min(Val(i, k), e - 1)) == CounterOf(Factors(k, i + 1))
  {
    PowPositive(i, e);
    PowDividesIff(i, k, e);
    if Val(i, k) >= e {
      DividesLe(Pow(i, e), k);
    }
  }

  /** The Counter of k while the stride i^e = pow has been swept up to (not including) j. */
  function SweptBelow(k: nat, i: nat, e: nat, pow: nat, j: nat): map<nat, nat>
    requires k >= 1 && i >= 2 && pow >= 1 && e >= 1
  {
    Swept(k, i, if k % pow == 0 && k < j then e else Min(Val(i, k), e - 1))
  }

  /** Before the first stride, nothing of i has been counted. */
  lemma SweepNothing(k: nat, i: nat)
    requires k >= 1 && i >= 2
    ensures Swept(k, i, Min(Val(i, k), 0)) == CounterOf(Factors(k, i))
  {
    assert Factors(k, i) + Copies(i, 0) == Factors(k, i);
  }

  /** At the start of a stride nothing of it has been swept. */
  lemma SweepStart(k: nat, i: nat, e: nat, pow: nat)
    requires k >= 1 && i >= 2 && pow >= 1 && e >= 1
    ensures SweptBelow(k, i, e, pow, pow) == Swept(k, i, Min(Val(i, k), e - 1))
  {
    if k < pow {
      assert k % pow == k;
    }
  }

  /** Visiting the multiple j of pow changes the Counter of j alone, by one count of i. */
  lemma SweepVisit(i: nat, e: nat, pow: nat, j: nat, N: nat)
    requires i >= 2 && e >= 1 && pow == Pow(i, e) && pow >= 1 && j >= 1 && j % pow == 0
    ensures Increment(SweptBelow(j, i, e, pow, j), i) == SweptBelow(j, i, e, pow, j + pow)
    ensures forall k :: 1 <= k <= N && k != j ==> SweptBelow(k, i, e, pow, j + pow) == SweptBelow(k, i, e, pow, j)
  {
    PowDividesIff(i, j, e);
    SweptStep(j, i, e - 1);
    forall k | 1 <= k <= N && k != j && k % pow == 0 && j < k
      ensures j + pow <= k
    {
      NextMultiple(pow, j, k);
    }
  }

  /** At the end of a stride every multiple of i^e has its e-th count. */
  lemma SweepEnd(k: nat, i: nat, e: nat, pow: nat, j: nat)
    requires i >= 2 && k >= 1 && e >= 1 && pow == Pow(i, e) && pow >= 1 && k < j
    ensures SweptBelow(k, i, e, pow, j) == Swept(k, i, Min(Val(i, k), e))
  {
    PowDividesIff(i, k, e);
  }

  /**
   * `for j in range(pow_i, N + 1, pow_i): pfactorize[j][i] += 1` for
   * pow_i = i^e: every multiple of i^e up to N receives its e-th count of i.
   */
  method SweepPower(pf: array<map<nat, nat>>, i: nat, N: nat, pow: nat, ghost e: nat)
    requires pf.Length == N + 1 && i >= 2 && e >= 1 && pow == Pow(i, e) && pow <= N
    requires pf[0] == map[]
    requires forall k :: 1 <= k <= N ==> pf[k] == Swept(k, i, Min(Val(i, k), e - 1))
    modifies pf
    ensures pf[0] == map[]
    ensures forall k :: 1 <= k <= N ==> pf[k] == Swept(k, i, Min(Val(i, k), e))
  {
    PowPositive(i, e);
    var j := pow;
    MulDivExact(pow, 1);
    forall k | 1 <= k <= N
      ensures pf[k] == SweptBelow(k, i, e, pow, pow)
    {
      SweepStart(k, i, e, pow);
    }
    while j <= N
      invariant j % pow == 0 && pow <= j
      invariant pf[0] == map[]
      invariant forall k :: 1 <= k <= N ==> pf[k] == SweptBelow(k, i, e, pow, j)
    {
      SweepVisit(i, e, pow, j, N);
      pf[j] := Increment(pf[j], i);
      NextMultipleIsMultiple(pow, j);
      j := j + pow;
    }
    forall k | 1 <= k <= N
      ensures pf[k] == Swept(k, i, Min(Val(i, k), e))
    {
      SweepEnd(k, i, e, pow, j);
    }
  }

  /**
   * The power loop for a prime i: `pow_i = i; while pow_i <= N: sweep;
   * if pow_i > N // i: break; pow_i *= i`. Every stride it sweeps is at most
   * N, and afterwards every k <= N counts i exactly Val(i, k) times.
   */
  method SweepPowers(pf: array<map<nat, nat>>, i: nat, N: nat)
    requires pf.Length == N + 1 && IsPrime(i) && i <= N
    requires pf[0] == map[]
    requires forall k :: 1 <= k <= N ==> pf[k] == CounterOf(Factors(k, i))
    modifies pf
    ensures pf[0] == map[]
    ensures forall k :: 1 <= k <= N ==> pf[k] == CounterOf(Factors(k, i + 1))
  {
    var pow := i;
    ghost var e := 1;
    forall k | 1 <= k <= N
      ensures pf[k] == Swept(k, i, Min(Val(i, k), 0))
    {
      SweepNothing(k, i);
    }
    while pow <= N
      invariant e >= 1 && pow == Pow(i, e) && pow <= N
      invariant pf[0] == map[]
      invariant forall k :: 1 <= k <= N ==> pf[k] == Swept(k, i, Min(Val(i, k), e - 1))
      decreases N - pow
    {
      SweepPower(pf, i, N, pow, e);
      FloorDivGuard(pow, i, N);
      PowStep(i, e, pow);
      e := e + 1;
      if pow > N / i {
        break;
      }
      pow := pow * i;
    }
    SweptAllBelow(pf, i, N, e);
  }

  /** The next stride pow * i is i^(e + 1), and it is larger. */
  lemma PowStep(i: nat, e: nat, pow: nat)
    requires i >= 2 && pow == Pow(i, e)
    ensures pow * i == Pow(i, e + 1) && pow * i > pow
  {
    PowPositive(i, e);
    MulMono(pow, pow, 2, i);
  }

  /** Once the stride i^e exceeds N, every k <= N has all of its Val(i, k) counts of i. */
  lemma SweptAllBelow(pf: array<map<nat, nat>>, i: nat, N: nat, e: nat)
    requires pf.Length == N + 1 && IsPrime(i) && e >= 1 && Pow(i, e) > N
    requires forall k :: 1 <= k <= N ==> pf[k] == Swept(k, i, Min(Val(i, k), e - 1))
    ensures forall k :: 1 <= k <= N ==> pf[k] == CounterOf(Factors(k, i + 1))
  {
    forall k | 1 <= k <= N
      ensures pf[k] == CounterOf(Factors(k, i + 1))
    {
      SweptAll(k, i, e);
    }
  }

  /**
   * init_pfactorize on the list of empty Counters: afterwards pfactorize[n]
   * counts every prime factor of n with its exponent, for n in 1..N, and
   * pfactorize[0] is still empty. An outer index i starts sweeps exactly when
   * its Counter is still empty, that is exactly when i is prime.
   */
  method InitPfactorize(N: nat, pf: array<map<nat, nat>>)
    requires pf.Length == N + 1
    requires forall k :: 0 <= k <= N ==> pf[k] == map[]
    modifies pf
    ensures pf[0] == map[] && (N >= 1 ==> pf[1] == map[])
    ensures forall n :: 1 <= n <= N ==> pf[n] == CounterOf(PrimeFactors(n))
  {
    var i := 2;
    while i <= N
      invariant 2 <= i
      invariant pf[0] == map[]
      invariant forall k :: 1 <= k <= N ==> pf[k] == CounterOf(Factors(k, i))
    {
      FactorsBelowSelfEmptyIff(i);
      CounterOfEmptyIff(Factors(i, i));
      if pf[i] == map[] {
        SweepPowers(pf, i, N);
      }
      i := i + 1;
    }
    forall n | 1 <= n <= N
      ensures pf[n] == CounterOf(PrimeFactors(n))
    {
      FactorsStable(n, i);
    }
    FactorsOfOne(2);
  }

  /**
   * What a filled Counter says: its keys are exactly the primes dividing n,
   * each with its exponent in n, which is at least 1 (no key has count 0);
   * the Counter of 1 is empty.
   */
  lemma CounterMeaning(n: nat)
    requires n >= 1
    ensures forall q :: q in CounterOf(PrimeFactors(n)) <==> IsPrime(q) && n % q == 0
    ensures forall q :: q in CounterOf(PrimeFactors(n)) ==>
      IsPrime(q) && CounterOf(PrimeFactors(n))[q] == Val(q, n) && CounterOf(PrimeFactors(n))[q] >= 1
    ensures n == 1 ==> CounterOf(PrimeFactors(n)) == map[]
  {
    var c := CounterOf(PrimeFactors(n));
    forall q: nat
      ensures q in c <==> IsPrime(q) && n % q == 0
      ensures q in c ==> IsPrime(q) && c[q] == Val(q, n) && c[q] >= 1
    {
      CounterOfCounts(PrimeFactors(n), q);
      FactorsCount(n, n + 1, q);
      if IsPrime(q) {
        ValPositiveIff(q, n);
        if n % q == 0 {
          DividesLe(q, n);
        }
      }
    }
    if n == 1 {
      FactorsOfOne(2);
    }
  }

  /** The product of p^e over the items of the Counter of n is n. */
  lemma CounterProduct(n: nat)
    requires n >= 1
    ensures ExponentProduct(v => Cnt(CounterOf(PrimeFactors(n)), v), n + 1) == n
  {
    forall v | 2 <= v < n + 1
      ensures Cnt(CounterOf(PrimeFactors(n)), v) == if IsPrime(v) then Val(v, n) else 0
    {
      CounterOfCounts(PrimeFactors(n), v);
      FactorsCount(n, n + 1, v);
    }
    ExponentProductOfValuations(v => Cnt(CounterOf(PrimeFactors(n)), v), n, n + 1);
    FactorizationProduct(n, n + 1);
  }
}
