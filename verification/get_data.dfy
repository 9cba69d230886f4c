/**
 * get_data.cpp: init_pfactorize builds, in one sieve, the multiset of prime
 * factors of every n <= N, Euler's totient by `phi = phi / p * (p - 1)` and
 * the divisor sum by multiplying in 1 + p + ... + p^a; main prints one line
 * `i phi[i] sigma[i]` per i.
 */
module GetData {
  import opened Divisibility
  import opened Valuation
  import opened Multiplicative
  import opened Factorization
  import opened SieveSteps

  /**
   * `p_power = p; sum_p_power = 1 + p; while (j % (p_power * p) == 0) ...`:
   * the loop stops at the largest power p^a dividing j, with the sum of all
   * powers of p up to it, sigma(p^a).
   */
  method PowerSum(j: nat, p: nat) returns (pPower: nat, sum: nat)
    requires p >= 2 && j >= 1 && j % p == 0
    ensures pPower == Pow(p, Val(p, j)) && j % pPower == 0 && j % (pPower * p) != 0
    ensures sum == SigmaPP(p, Val(p, j))
  {
    ghost var a := 1;
    PowDividesIff(p, j, 1);
    pPower, sum := p, 1 + p;
    while j % (pPower * p) == 0
      invariant 1 <= a <= Val(p, j) && pPower == Pow(p, a) && sum == SigmaPP(p, a)
      decreases Val(p, j) - a
    {
      assert pPower * p == Pow(p, a + 1);
      PowDividesIff(p, j, a + 1);
      pPower := pPower * p;
      sum := sum + pPower;
      a := a + 1;
    }
    assert pPower * p == Pow(p, a + 1);
    PowDividesIff(p, j, a + 1);
    PowDividesIff(p, j, a);
  }

  /**
   * The nested sweep `for (pow = p; pow <= N; pow *= p) for (j = pow; ...; j += pow)
   * pfactorize[j].insert(p)` for a prime p: every k <= N receives p once for
   * every power of p dividing it, that is Val(p, k) times.
   */
  method SweepPowers(pf: array<multiset<nat>>, p: nat, N: nat)
    requires pf.Length == N + 1 && IsPrime(p)
    requires pf[0] == multiset{}
    requires forall k :: 1 <= k <= N ==> pf[k] == Factors(k, p)
    modifies pf
    ensures pf[0] == multiset{}
    ensures forall k :: 1 <= k <= N ==> pf[k] == Factors(k, p + 1)
  {
    var pow := p;
    ghost var e := 1;
    while pow <= N
      invariant e >= 1 && pow == Pow(p, e)
      invariant pf[0] == multiset{}
      invariant forall k :: 1 <= k <= N ==> pf[k] == Factors(k, p) + Copies(p, Min(Val(p, k), e - 1))
      decreases N - pow
    {
      SweepPower(pf, p, N, pow, e);
      MulMono(pow, pow, 2, p);
      pow := pow * p;
      e := e + 1;
    }
    forall k | 1 <= k <= N
      ensures Val(p, k) <= e - 1
    {
      PowDividesIff(p, k, e);
      if Val(p, k) >= e {
        DividesLe(pow, k);
      }
    }
  }

  /**
   * The multiset of k while the stride p^e = pow has inserted p into the
   * multiples of pow below j.
   */
  function InsertedBelow(k: nat, p: nat, e: nat, pow: nat, j: nat): multiset<nat>
    requires k >= 1 && p >= 2 && pow >= 1 && e >= 1
  {
    Factors(k, p) + Copies(p, if k % pow == 0 && k < j then e else Min(Val(p, k), e - 1))
  }

  /** At the start of a stride nothing of it has been inserted. */
  lemma InsertStart(k: nat, p: nat, e: nat, pow: nat)
    requires k >= 1 && p >= 2 && pow >= 1 && e >= 1
    ensures InsertedBelow(k, p, e, pow, pow) == Factors(k, p) + Copies(p, Min(Val(p, k), e - 1))
  {
    if k < pow {
      assert k % pow == k;
    }
  }

  /** Inserting p at the multiple j of pow changes the multiset of j alone. */
  lemma InsertVisit(p: nat, e: nat, pow: nat, j: nat, N: nat)
    requires p >= 2 && e >= 1 && pow == Pow(p, e) && pow >= 1 && j >= 1 && j % pow == 0
    ensures InsertedBelow(j, p, e, pow, j) + multiset{p} == InsertedBelow(j, p, e, pow, j + pow)
    ensures forall k :: 1 <= k <= N && k != j ==> InsertedBelow(k, p, e, pow, j + pow) == InsertedBelow(k, p, e, pow, j)
  {
    PowDividesIff(p, j, e);
    forall k | 1 <= k <= N && k != j && k % pow == 0 && j < k
      ensures j + pow <= k
    {
      NextMultiple(pow, j, k);
    }
  }

  /** At the end of a stride every multiple of p^e holds its e-th copy of p. */
  lemma InsertEnd(k: nat, p: nat, e: nat, pow: nat, j: nat)
    requires p >= 2 && k >= 1 && e >= 1 && pow == Pow(p, e) && pow >= 1 && k < j
    ensures InsertedBelow(k, p, e, pow, j) == Factors(k, p) + Copies(p, Min(Val(p, k), e))
  {
    PowDividesIff(p, k, e);
  }

  /** One stride p^e of SweepPowers: the multiples of p^e receive their e-th copy of p. */
  method SweepPower(pf: array<multiset<nat>>, p: nat, N: nat, pow: nat, ghost e: nat)
    requires pf.Length == N + 1 && IsPrime(p) && e >= 1 && pow == Pow(p, e)
    requires pf[0] == multiset{}
    requires forall k :: 1 <= k <= N ==> pf[k] == Factors(k, p) + Copies(p, Min(Val(p, k), e - 1))
    modifies pf
    ensures pf[0] == multiset{}
    ensures forall k :: 1 <= k <= N ==> pf[k] == Factors(k, p) + Copies(p, Min(Val(p, k), e))
  {
    PowPositive(p, e);
    var j := pow;
    MulDivExact(pow, 1);
    forall k | 1 <= k <= N
      ensures pf[k] == InsertedBelow(k, p, e, pow, pow)
    {
      InsertStart(k, p, e, pow);
    }
    while j <= N
      invariant j % pow == 0 && pow <= j
      invariant pf[0] == multiset{}
      invariant forall k :: 1 <= k <= N ==> pf[k] == InsertedBelow(k, p, e, pow, j)
    {
      InsertVisit(p, e, pow, j, N);
      pf[j] := pf[j] + multiset{p};
      NextMultipleIsMultiple(pow, j);
      j := j + pow;
    }
    forall k | 1 <= k <= N
      ensures pf[k] == Factors(k, p) + Copies(p, Min(Val(p, k), e))
    {
      InsertEnd(k, p, e, pow, j);
    }
  }

  /**
   * `phi[j] = phi[j] / p * (p - 1)` for a prime p dividing k: the division is
   * exact, and the step moves the rough part's factor p^a into the totient.
   */
  lemma TotientStep(k: nat, p: nat)
    requires k >= 1 && IsPrime(p) && k % p == 0
    ensures (RoughPart(k, p) * Product(Totient, k, p)) % p == 0
    ensures (RoughPart(k, p) * Product(Totient, k, p)) / p * (p - 1)
         == RoughPart(k, p + 1) * Product(Totient, k, p + 1)
  {
    var a := Val(p, k);
    ValPositiveIff(p, k);
    var x, r', P := Pow(p, a - 1), RoughPart(k, p + 1), Product(Totient, k, p);
    RoughPartStep(k, p);
    assert Pow(p, a) == p * x;
    MulAssoc(p, x, r');
    MulDivExact(p, x * r');
    DivOutOfProduct(p, RoughPart(k, p), P);
    ProductPassPrime(Totient, k, p);
    TotientRegroup(x, r', P, p - 1);
  }

  /** `sigma[j] *= sum_p_power` multiplies in sigma(p^Val(p, j)). */
  lemma SigmaStep(k: nat, p: nat, s: nat, sum: nat)
    requires k >= 1 && IsPrime(p) && s == Product(DivisorSum, k, p) && sum == SigmaPP(p, Val(p, k))
    ensures s * sum == Product(DivisorSum, k, p + 1)
  {
    ProductPassPrime(DivisorSum, k, p);
  }

  lemma TotientRegroup(x: int, r: int, P: int, c: int)
    ensures (x * r) * P * c == r * (P * (x * c))
  {
  }

  /**
   * The sweep `for (j = p; j <= N; j += p)` of phi and sigma for a prime p:
   * afterwards the totient has absorbed p and sigma has been multiplied by
   * sigma(p^Val(p, k)).
   */
  method SweepTotientSigma(phi: array<nat>, sigma: array<nat>, p: nat, N: nat)
    requires phi.Length == N + 1 && sigma.Length == N + 1 && phi != sigma && IsPrime(p)
    requires forall k :: 1 <= k <= N ==>
      phi[k] == RoughPart(k, p) * Product(Totient, k, p) && sigma[k] == Product(DivisorSum, k, p)
    modifies phi, sigma
    ensures forall k :: 1 <= k <= N ==>
      phi[k] == RoughPart(k, p + 1) * Product(Totient, k, p + 1) && sigma[k] == Product(DivisorSum, k, p + 1)
    ensures phi[0] == old(phi[0]) && sigma[0] == old(sigma[0])
  {
    var j := p;
    MulDivExact(p, 1);
    forall k | 1 <= k < p
      ensures k % p != 0
    {
      assert k % p == k;
    }
    while j <= N
      invariant j % p == 0 && p <= j
      invariant phi[0] == old(phi[0]) && sigma[0] == old(sigma[0])
      invariant forall k :: 1 <= k <= N ==>
        phi[k] == (if k % p == 0 && k < j then RoughPart(k, p + 1) * Product(Totient, k, p + 1)
                   else RoughPart(k, p) * Product(Totient, k, p))
      invariant forall k :: 1 <= k <= N ==>
        sigma[k] == (if k % p == 0 && k < j then Product(DivisorSum, k, p + 1) else Product(DivisorSum, k, p))
    {
      TotientStep(j, p);
      phi[j] := phi[j] / p * (p - 1);
      var pPower, sum := PowerSum(j, p);
      SigmaStep(j, p, sigma[j], sum);
      sigma[j] := sigma[j] * sum;
      NextMultiples(p, j);
      j := j + p;
    }
    SweepTotientSigmaEnd(phi, sigma, p, N, j);
  }

  /** When the sweep of p has passed N, non-multiples of p already hold their values for p + 1. */
  lemma SweepTotientSigmaEnd(phi: array<nat>, sigma: array<nat>, p: nat, N: nat, j: nat)
    requires phi.Length == N + 1 && sigma.Length == N + 1 && IsPrime(p) && j > N
    requires forall k :: 1 <= k <= N ==>
      phi[k] == (if k % p == 0 && k < j then RoughPart(k, p + 1) * Product(Totient, k, p + 1)
                 else RoughPart(k, p) * Product(Totient, k, p))
    requires forall k :: 1 <= k <= N ==>
      sigma[k] == (if k % p == 0 && k < j then Product(DivisorSum, k, p + 1) else Product(DivisorSum, k, p))
    ensures forall k :: 1 <= k <= N ==>
      phi[k] == RoughPart(k, p + 1) * Product(Totient, k, p + 1) && sigma[k] == Product(DivisorSum, k, p + 1)
  {
    forall k | 1 <= k <= N && k % p != 0
      ensures RoughPart(k, p + 1) == RoughPart(k, p)
      ensures Product(Totient, k, p + 1) == Product(Totient, k, p)
      ensures Product(DivisorSum, k, p + 1) == Product(DivisorSum, k, p)
    {
      ProductPassNonDivisor(Identity, k, p);
      ProductPassNonDivisor(Totient, k, p);
      ProductPassNonDivisor(DivisorSum, k, p);
    }
  }

  /**
   * init_pfactorize, on the zero-initialised global tables: pfactorize[n]
   * ends as the multiset of prime factors of n, phi[n] as Euler's totient and
   * sigma[n] as the divisor sum, for every n in 1..N. An outer index i is
   * skipped exactly when pfactorize[i] is already non-empty, which happens
   * exactly when i is not prime (FactorsBelowSelfEmptyIff).
   */
  method InitPfactorize(N: nat, pf: array<multiset<nat>>, phi: array<nat>, sigma: array<nat>)
    requires pf.Length == N + 1 && phi.Length == N + 1 && sigma.Length == N + 1 && phi != sigma
    requires forall k :: 0 <= k <= N ==> pf[k] == multiset{}
    modifies pf, phi, sigma
    ensures pf[0] == multiset{} && phi[0] == old(phi[0]) && sigma[0] == old(sigma[0])
    ensures forall n :: 1 <= n <= N ==> pf[n] == PrimeFactors(n) && phi[n] == Phi(n) && sigma[n] == Sigma(n)
  {
    InitTables(N, phi, sigma);
    SieveStart(pf, phi, sigma, N);
    var i := 2;
    while i <= N
      invariant 2 <= i
      invariant pf[0] == multiset{} && phi[0] == old(phi[0]) && sigma[0] == old(sigma[0])
      invariant forall k :: 1 <= k <= N ==> pf[k] == Factors(k, i)
      invariant forall k :: 1 <= k <= N ==>
        phi[k] == RoughPart(k, i) * Product(Totient, k, i) && sigma[k] == Product(DivisorSum, k, i)
    {
      Pass(pf, phi, sigma, i, N);
      i := i + 1;
    }
    SieveComplete(pf, phi, sigma, i, N);
  }

  /**
   * One round of the outer loop: pfactorize[i] is empty exactly when i is
   * prime, and only then are its powers and its totient and divisor-sum
   * factors swept in. Afterwards the tables hold the values over the primes
   * up to i.
   */
  method Pass(pf: array<multiset<nat>>, phi: array<nat>, sigma: array<nat>, i: nat, N: nat)
    requires pf.Length == N + 1 && phi.Length == N + 1 && sigma.Length == N + 1 && phi != sigma
    requires 2 <= i <= N
    requires pf[0] == multiset{}
    requires forall k :: 1 <= k <= N ==> pf[k] == Factors(k, i)
    requires forall k :: 1 <= k <= N ==>
      phi[k] == RoughPart(k, i) * Product(Totient, k, i) && sigma[k] == Product(DivisorSum, k, i)
    modifies pf, phi, sigma
    ensures pf[0] == multiset{} && phi[0] == old(phi[0]) && sigma[0] == old(sigma[0])
    ensures forall k :: 1 <= k <= N ==> pf[k] == Factors(k, i + 1)
    ensures forall k :: 1 <= k <= N ==>
      phi[k] == RoughPart(k, i + 1) * Product(Totient, k, i + 1) && sigma[k] == Product(DivisorSum, k, i + 1)
  {
    FactorsBelowSelfEmptyIff(i);
    if pf[i] == multiset{} {
      SweepPowers(pf, i, N);
      SweepTotientSigma(phi, sigma, i, N);
    } else {
      SkipComposite(pf, phi, sigma, i, N);
    }
  }

  /** The first loop of init_pfactorize: phi[i] = i and sigma[i] = 1 for i in 1..N. */
  method InitTables(N: nat, phi: array<nat>, sigma: array<nat>)
    requires phi.Length == N + 1 && sigma.Length == N + 1 && phi != sigma
    modifies phi, sigma
    ensures phi[0] == old(phi[0]) && sigma[0] == old(sigma[0])
    ensures forall k :: 1 <= k <= N ==> phi[k] == k && sigma[k] == 1
  {
    for i := 1 to N + 1
      invariant phi[0] == old(phi[0]) && sigma[0] == old(sigma[0])
      invariant forall k :: 1 <= k < i ==> phi[k] == k && sigma[k] == 1
    {
      phi[i] := i;
      sigma[i] := 1;
    }
  }

  /**
   * Before the outer loop (i == 2) the initial tables already hold the
   * products over the primes below 2: no factor, phi[k] == k, sigma[k] == 1.
   */
  lemma SieveStart(pf: array<multiset<nat>>, phi: array<nat>, sigma: array<nat>, N: nat)
    requires pf.Length == N + 1 && phi.Length == N + 1 && sigma.Length == N + 1
    requires forall k :: 0 <= k <= N ==> pf[k] == multiset{}
    requires forall k :: 1 <= k <= N ==> phi[k] == k && sigma[k] == 1
    ensures forall k :: 1 <= k <= N ==> pf[k] == Factors(k, 2)
    ensures forall k :: 1 <= k <= N ==>
      phi[k] == RoughPart(k, 2) * Product(Totient, k, 2) && sigma[k] == Product(DivisorSum, k, 2)
  {
    forall k | 1 <= k <= N
      ensures RoughPart(k, 2) == k
    {
      assert PrimePart(k, 2) == 1;
    }
  }

  /**
   * A composite outer index c changes no entry of init_pfactorize's tables,
   * and the state before c is already the state before c + 1.
   */
  lemma SkipComposite(pf: array<multiset<nat>>, phi: array<nat>, sigma: array<nat>, c: nat, N: nat)
    requires pf.Length == N + 1 && phi.Length == N + 1 && sigma.Length == N + 1
    requires c >= 2 && !IsPrime(c)
    requires forall k :: 1 <= k <= N ==> pf[k] == Factors(k, c)
    requires forall k :: 1 <= k <= N ==>
      phi[k] == RoughPart(k, c) * Product(Totient, k, c) && sigma[k] == Product(DivisorSum, k, c)
    ensures forall k :: 1 <= k <= N ==> pf[k] == Factors(k, c + 1)
    ensures forall k :: 1 <= k <= N ==>
      phi[k] == RoughPart(k, c + 1) * Product(Totient, k, c + 1) && sigma[k] == Product(DivisorSum, k, c + 1)
  {
    forall k | 1 <= k <= N
      ensures RoughPart(k, c + 1) == RoughPart(k, c)
      ensures Product(Totient, k, c + 1) == Product(Totient, k, c)
      ensures Product(DivisorSum, k, c + 1) == Product(DivisorSum, k, c)
    {
      ProductPassComposite(Identity, k, c);
      ProductPassComposite(Totient, k, c);
      ProductPassComposite(DivisorSum, k, c);
    }
  }

  /** Past N, every entry of init_pfactorize's tables is complete: all of k's primes are below m. */
  lemma SieveComplete(pf: array<multiset<nat>>, phi: array<nat>, sigma: array<nat>, m: nat, N: nat)
    requires pf.Length == N + 1 && phi.Length == N + 1 && sigma.Length == N + 1
    requires m > N
    requires forall k :: 1 <= k <= N ==> pf[k] == Factors(k, m)
    requires forall k :: 1 <= k <= N ==>
      phi[k] == RoughPart(k, m) * Product(Totient, k, m) && sigma[k] == Product(DivisorSum, k, m)
    ensures forall n :: 1 <= n <= N ==> pf[n] == PrimeFactors(n) && phi[n] == Phi(n) && sigma[n] == Sigma(n)
  {
    forall n | 1 <= n <= N
      ensures pf[n] == PrimeFactors(n) && phi[n] == Phi(n) && sigma[n] == Sigma(n)
    {
      FactorsStable(n, m);
      RoughPartEnd(n, m);
      ProductStable(Totient, n, m);
      ProductStable(DivisorSum, n, m);
    }
  }

  /**
   * Index 1 is never touched by a prime's sweep: its multiset stays empty and
   * its totient and divisor sum stay at their initial value 1.
   */
  lemma IndexOne()
    ensures PrimeFactors(1) == multiset{} && Phi(1) == 1 && Sigma(1) == 1
  {
    FactorsOfOne(2);
  }

  /** main: the lines `i phi[i] sigma[i]`, for i = 1..N. */
  method GetDataTable(N: nat) returns (rows: seq<Row>)
    ensures |rows| == N
    ensures forall k :: 0 <= k < N ==> rows[k] == Row(k + 1, Phi(k + 1), Sigma(k + 1))
  {
    var pf := new multiset<nat>[N + 1](_ => multiset{});
    var phi := new nat[N + 1](_ => 0);
    var sigma := new nat[N + 1](_ => 0);
    InitPfactorize(N, pf, phi, sigma);
    rows := OutputRows(N, phi, sigma);
  }
}
