/**
 * precompute_g.cpp: the same is_prime sieve as precompute_phigma.cpp, but each
 * n carries a numerator/denominator pair g[n]. For every prime power p^a
 * exactly dividing n the pair is multiplied by (p^(a+1) - 1) / p^(a+1) and
 * immediately divided by the gcd of its two halves. The table ends up holding
 * f(n) = phi(n) sigma(n) / n^2 in lowest terms.
 */
module PrecomputeG {
  import opened Divisibility
  import opened Valuation
  import opened Multiplicative
  import opened Rationals
  import opened SieveSteps

  /** The value g[n] must end with: GNum(n) / GDen(n) in lowest terms. */
  function G(n: nat): (r: Fraction)
    requires n >= 1
    ensures InLowestTerms(r)
  {
    ProductPositive(GDenominator, n, n + 1);
    Reduce(GNum(n), GDen(n))
  }

  /**
   * What g[n] means: it is phi(n) sigma(n) / n^2 reduced, it is 1/1 for n == 1,
   * and for n >= 2 its numerator is below its denominator (g(n) < 1).
   */
  lemma GMeaning(n: nat)
    requires n >= 1
    ensures G(n) == F(n)
    ensures n == 1 ==> G(n) == Fraction(1, 1)
    ensures n >= 2 ==> G(n).num < G(n).den
  {
    GIsF(n);
    if n == 1 {
      GOfOne();
    } else {
      GBelow(n);
    }
  }

  /** The sieve's product of contributions and phi(n) sigma(n) / n^2 reduce alike. */
  lemma GIsF(n: nat)
    requires n >= 1
    ensures G(n) == F(n)
  {
    ProductPositive(GDenominator, n, n + 1);
    MulMono(1, n, 1, n);
    var a, b, c, d := GNum(n), GDen(n), Phi(n) * Sigma(n), n * n;
    assert a * d == c * b by {
      FEqualsG(n);
    }
    CrossSameReduction(a, b, c, d);
  }

  /** g[1] keeps its initial pair 1/1. */
  lemma GOfOne()
    ensures G(1) == Fraction(1, 1)
  {
    ProductOfOne(GNumerator, 2);
    ProductOfOne(GDenominator, 2);
    assert Gcd(1, 1) == 1;
    ReduceCanonical(Fraction(1, 1));
  }

  /** For n >= 2 the reduced g[n] is below 1. */
  lemma GBelow(n: nat)
    requires n >= 2
    ensures G(n).num < G(n).den
  {
    ProductPositive(GDenominator, n, n + 1);
    GBelowOne(n);
    ReduceKeepsBelowOne(GNum(n), GDen(n));
  }

  /** Reducing a fraction below 1 gives a fraction below 1. */
  lemma ReduceKeepsBelowOne(a: nat, b: nat)
    requires a < b
    ensures Reduce(a, b).num < Reduce(a, b).den
  {
    var r := Reduce(a, b);
    CrossBelow(r.num, r.den, a, b);
  }

  lemma CrossBelow(x: int, y: int, a: int, b: int)
    requires y > 0 && 0 <= a < b && x >= 0 && x * b == a * y
    ensures x < y
  {
    if x >= y {
      MulMono(y, x, b, b);
    }
  }

  /**
   * The contribution of p^a (a >= 1) with p_pow = p^a: `num = p_pow * p - 1`
   * and `den = p_pow * p` are the numerator and denominator factors of g.
   */
  lemma Contribution(p: nat, a: nat, pPow: nat)
    requires IsPrime(p) && a >= 1 && pPow == Pow(p, a)
    ensures pPow * p - 1 == Local(GNumerator, p, a)
    ensures pPow * p == Local(GDenominator, p, a)
  {
    assert Pow(p, a + 1) == pPow * p;
  }

  /** The part of g[k] built from the primes below m, reduced. */
  function Partial(k: nat, m: nat): Fraction
    requires k >= 1
  {
    ProductPositive(GDenominator, k, m);
    Reduce(Product(GNumerator, k, m), Product(GDenominator, k, m))
  }

  /**
   * One multiply-and-reduce step `g[j] = g[j] * num/den; d = gcd; g[j] /= d`
   * turns the partial value below p into the partial value below p + 1.
   */
  lemma StepReduces(k: nat, p: nat, num: nat, den: nat)
    requires k >= 1 && IsPrime(p)
    requires num == Local(GNumerator, p, Val(p, k)) && den == Local(GDenominator, p, Val(p, k))
    ensures Partial(k, p).den * den > 0
    ensures Reduce(Partial(k, p).num * num, Partial(k, p).den * den) == Partial(k, p + 1)
  {
    ProductPositive(GDenominator, k, p);
    LocalPositive(GDenominator, p, Val(p, k));
    ProductPassPrime(GNumerator, k, p);
    ProductPassPrime(GDenominator, k, p);
    ReduceMultiply(Product(GNumerator, k, p), Product(GDenominator, k, p), num, den);
  }

  /**
   * `g[j].first *= num; g[j].second *= den; d = gcd(...); g[j] /= d`: the
   * pair becomes the product, reduced to lowest terms.
   */
  method MultiplyReduce(g: array<Fraction>, j: nat, num: nat, den: nat)
    requires j < g.Length && g[j].den * den > 0
    modifies g
    ensures g[j] == Reduce(old(g[j]).num * num, old(g[j]).den * den)
    ensures forall k :: 0 <= k < g.Length && k != j ==> g[k] == old(g[k])
  {
    var first, second := g[j].num * num, g[j].den * den;
    ReduceFacts(first, second);
    var d := Gcd(first, second);
    g[j] := Fraction(first / d, second / d);
  }

  /**
   * The inner sweep `for (j = p; j <= N; j += p)` for a prime p: afterwards
   * g[k] is the partial value over the primes up to and including p.
   */
  method SweepPrime(g: array<Fraction>, p: nat, N: nat)
    requires g.Length == N + 1 && IsPrime(p)
    requires forall k :: 1 <= k <= N ==> g[k] == Partial(k, p)
    modifies g
    ensures forall k :: 1 <= k <= N ==> g[k] == Partial(k, p + 1)
    ensures g[0] == old(g[0])
  {
    var j := p;
    MulDivExact(p, 1);
    forall k | 1 <= k < p
      ensures k % p != 0
    {
      assert k % p == k;
    }
    while j <= N
      invariant j % p == 0 && p <= j
      invariant g[0] == old(g[0])
      invariant forall k :: 1 <= k <= N ==>
        g[k] == (if k % p == 0 && k < j then Partial(k, p + 1) else Partial(k, p))
    {
      var pPow := LargestPowerDividing(j, p);
      ValPositiveIff(p, j);
      Contribution(p, Val(p, j), pPow);
      var num := pPow * p - 1;
      var den := pPow * p;
      StepReduces(j, p, num, den);
      MultiplyReduce(g, j, num, den);
      NextMultiples(p, j);
      j := j + p;
    }
    forall k | 1 <= k <= N && k % p != 0
      ensures Partial(k, p + 1) == Partial(k, p)
    {
      ProductPassNonDivisor(GNumerator, k, p);
      ProductPassNonDivisor(GDenominator, k, p);
    }
  }

  /**
   * The sieve of main: g[n] ends as G(n) for every n in 1..N, and is_prime[n]
   * tells whether n is prime for every n in 0..N. Index 0 keeps the zero pair
   * of a C++ global.
   */
  method Sieve(N: nat) returns (g: array<Fraction>, isPrime: array<bool>)
    ensures fresh(g) && fresh(isPrime)
    ensures g.Length == N + 1 && isPrime.Length == N + 1
    ensures forall n :: 1 <= n <= N ==> g[n] == G(n)
    ensures forall n :: 0 <= n <= N ==> isPrime[n] == IsPrime(n)
    ensures g[0] == Fraction(0, 0)
  {
    g := new Fraction[N + 1](_ => Fraction(0, 0));
    isPrime := new bool[N + 1](_ => false);
    InitTables(N, g, isPrime);
    isPrime[0] := false;
    if N >= 1 {
      isPrime[1] := false;
    }
    SieveStart(g, N);
    var p := 2;
    while p <= N
      invariant 2 <= p
      invariant g[0] == Fraction(0, 0) && !isPrime[0] && (N >= 1 ==> !isPrime[1])
      invariant forall k :: 1 <= k <= N ==> g[k] == Partial(k, p)
      invariant forall k :: 2 <= k <= N ==> isPrime[k] == NoDivisorBelow(k, p)
    {
      Pass(g, isPrime, p, N);
      p := p + 1;
    }
    SieveComplete(g, isPrime, p, N);
  }

  /**
   * One round of the outer loop: a p that is_prime still marks is prime; its
   * multiples are cleared and its contribution multiplied into every g[j].
   * Afterwards g holds the reduced products over the primes up to p.
   */
  method Pass(g: array<Fraction>, isPrime: array<bool>, p: nat, N: nat)
    requires g.Length == N + 1 && isPrime.Length == N + 1
    requires 2 <= p <= N
    requires forall k :: 1 <= k <= N ==> g[k] == Partial(k, p)
    requires forall k :: 2 <= k <= N ==> isPrime[k] == NoDivisorBelow(k, p)
    modifies g, isPrime
    ensures forall k :: 1 <= k <= N ==> g[k] == Partial(k, p + 1)
    ensures forall k :: 2 <= k <= N ==> isPrime[k] == NoDivisorBelow(k, p + 1)
    ensures g[0] == old(g[0]) && isPrime[0] == old(isPrime[0]) && isPrime[1] == old(isPrime[1])
  {
    PrimeIffNoDivisorBelowSelf(p);
    if isPrime[p] {
      ClearMultiples(isPrime, p, N);
      SweepPrime(g, p, N);
    } else {
      SkipComposite(g, isPrime, p, N);
    }
  }

  /** The initialisation loop: g[i] = {1, 1} and is_prime[i] = true for i in 1..N. */
  method InitTables(N: nat, g: array<Fraction>, isPrime: array<bool>)
    requires g.Length == N + 1 && isPrime.Length == N + 1
    modifies g, isPrime
    ensures g[0] == old(g[0]) && isPrime[0] == old(isPrime[0])
    ensures forall k :: 1 <= k <= N ==> g[k] == Fraction(1, 1) && isPrime[k]
  {
    for i := 1 to N + 1
      invariant g[0] == old(g[0]) && isPrime[0] == old(isPrime[0])
      invariant forall k :: 1 <= k < i ==> g[k] == Fraction(1, 1) && isPrime[k]
    {
      g[i] := Fraction(1, 1);
      isPrime[i] := true;
    }
  }

  /** The initial pair 1/1 is the (empty) product over the primes below 2. */
  lemma SieveStart(g: array<Fraction>, N: nat)
    requires g.Length == N + 1
    requires forall k :: 1 <= k <= N ==> g[k] == Fraction(1, 1)
    ensures forall k :: 1 <= k <= N ==> g[k] == Partial(k, 2)
  {
    forall k | 1 <= k <= N
      ensures g[k] == Partial(k, 2)
    {
      assert Gcd(1, 1) == 1;
    }
  }

  /** A composite p is skipped: g and is_prime already hold their values for p + 1. */
  lemma SkipComposite(g: array<Fraction>, isPrime: array<bool>, p: nat, N: nat)
    requires g.Length == N + 1 && isPrime.Length == N + 1
    requires p >= 2 && !IsPrime(p)
    requires forall k :: 1 <= k <= N ==> g[k] == Partial(k, p)
    requires forall k :: 2 <= k <= N ==> isPrime[k] == NoDivisorBelow(k, p)
    ensures forall k :: 1 <= k <= N ==> g[k] == Partial(k, p + 1)
    ensures forall k :: 2 <= k <= N ==> isPrime[k] == NoDivisorBelow(k, p + 1)
  {
    forall k | 2 <= k <= N
      ensures NoDivisorBelow(k, p + 1) == NoDivisorBelow(k, p)
    {
      if NoDivisorBelow(k, p) {
        NoDivisorBelowComposite(k, p);
      }
    }
    forall k | 1 <= k <= N
      ensures Partial(k, p + 1) == Partial(k, p)
    {
      ProductPassComposite(GNumerator, k, p);
      ProductPassComposite(GDenominator, k, p);
    }
  }

  /** Once p passes N, g[n] == G(n) and is_prime is exact. */
  lemma SieveComplete(g: array<Fraction>, isPrime: array<bool>, p: nat, N: nat)
    requires g.Length == N + 1 && isPrime.Length == N + 1
    requires p > N
    requires forall k :: 1 <= k <= N ==> g[k] == Partial(k, p)
    requires forall k :: 2 <= k <= N ==> isPrime[k] == NoDivisorBelow(k, p)
    ensures forall n :: 1 <= n <= N ==> g[n] == G(n)
    ensures forall n :: 2 <= n <= N ==> isPrime[n] == IsPrime(n)
  {
    forall n | 1 <= n <= N
      ensures g[n] == G(n)
      ensures n >= 2 ==> (isPrime[n] <==> IsPrime(n))
    {
      ProductStable(GNumerator, n, p);
      ProductStable(GDenominator, n, p);
      if n >= 2 {
        PrimeIffNoDivisorBelowSelf(n);
      }
    }
  }

  /** f(n) = phi(n) sigma(n) / n^2 in lowest terms. */
  function F(n: nat): (r: Fraction)
    requires n >= 1
    ensures InLowestTerms(r)
  {
    MulMono(1, n, 1, n);
    Reduce(Phi(n) * Sigma(n), n * n)
  }

  /**
   * The program: the lines `i num den` of g.csv, for i = 1..N, each holding
   * phi(i) sigma(i) / i^2 in lowest terms.
   */
  method GTable(N: nat) returns (rows: seq<Row>)
    ensures |rows| == N
    ensures forall k :: 0 <= k < N ==> rows[k] == Row(k + 1, F(k + 1).num, F(k + 1).den)
  {
    var g, isPrime := Sieve(N);
    forall n | 1 <= n <= N
      ensures g[n] == F(n)
    {
      GMeaning(n);
    }
    rows := [];
    for i := 1 to N + 1
      invariant |rows| == i - 1
      invariant forall k :: 0 <= k < i - 1 ==> rows[k] == Row(k + 1, F(k + 1).num, F(k + 1).den)
    {
      rows := rows + [Row(i, g[i].num, g[i].den)];
    }
  }
}
