/**
 * precompute_phigma.cpp: an is_prime sieve that, for every prime p and every
 * multiple j of p, finds the largest power p^a dividing j and multiplies
 * phi(p^a) = p^a - p^(a-1) into phi[j] and sigma(p^a) = (p^(a+1) - 1) / (p - 1)
 * into sigma[j]. The tables end up holding Euler's totient and the divisor sum.
 */
module PrecomputePhigma {
  import opened Divisibility
  import opened Valuation
  import opened Multiplicative
  import opened SieveSteps

  /**
   * The two contributions `dphi = p_pow - p_pow / p` and
   * `dsig = (p_pow * p - 1) / (p - 1)` are phi and sigma of p^a, where
   * p_pow = p^a with a >= 1; the division in dsig is exact.
   */
  lemma Contributions(p: nat, a: nat, pPow: nat)
    requires IsPrime(p) && a >= 1 && pPow == Pow(p, a)
    ensures pPow - pPow / p == Local(Totient, p, a)
    ensures (pPow * p - 1) % (p - 1) == 0
    ensures (pPow * p - 1) / (p - 1) == Local(DivisorSum, p, a)
  {
    PhiPPAsDifference(p, a);
    SigmaPPAsQuotient(p, a);
    assert Pow(p, a + 1) == pPow * p;
  }

  /**
   * The inner sweep `for (j = p; j <= N; j += p)` for a prime p: afterwards
   * phi and sigma hold the products over the primes up to and including p.
   */
  method SweepPrime(phi: array<nat>, sigma: array<nat>, p: nat, N: nat)
    requires phi.Length == N + 1 && sigma.Length == N + 1 && phi != sigma
    requires IsPrime(p)
    requires forall k :: 1 <= k <= N ==> phi[k] == Product(Totient, k, p) && sigma[k] == Product(DivisorSum, k, p)
    modifies phi, sigma
    ensures forall k :: 1 <= k <= N ==> phi[k] == Product(Totient, k, p + 1) && sigma[k] == Product(DivisorSum, k, p + 1)
    ensures phi[0] == old(phi[0]) && sigma[0] == old(sigma[0])
  {
    var j := p;
    MulDivExact(p, 1);
    forall k | 1 <= k < p
      ensures k % p != 0
    {
      assert k % p == k;
    }
    while j <= N
      invariant j % p == 0 && p <= j
      invariant phi[0] == old(phi[0]) && sigma[0] == old(sigma[0])
      invariant forall k :: 1 <= k <= N ==>
        phi[k] == (if k % p == 0 && k < j then Product(Totient, k, p + 1) else Product(Totient, k, p))
      invariant forall k :: 1 <= k <= N ==>
        sigma[k] == (if k % p == 0 && k < j then Product(DivisorSum, k, p + 1) else Product(DivisorSum, k, p))
    {
      var pPow := LargestPowerDividing(j, p);
      ghost var a := Val(p, j);
      ValPositiveIff(p, j);
      Contributions(p, a, pPow);
      var dphi := pPow - pPow / p;
      var dsig := (pPow * p - 1) / (p - 1);
      ProductPassPrime(Totient, j, p);
      ProductPassPrime(DivisorSum, j, p);
      assert phi[j] * dphi == Product(Totient, j, p + 1);
      assert sigma[j] * dsig == Product(DivisorSum, j, p + 1);
      phi[j] := phi[j] * dphi;
      sigma[j] := sigma[j] * dsig;
      NextMultiples(p, j);
      j := j + p;
    }
    forall k | 1 <= k <= N && k % p != 0
      ensures Product(Totient, k, p + 1) == Product(Totient, k, p)
      ensures Product(DivisorSum, k, p + 1) == Product(DivisorSum, k, p)
    {
      ProductPassNonDivisor(Totient, k, p);
      ProductPassNonDivisor(DivisorSum, k, p);
    }
  }

  /**
   * The sieve of main: phi[n] and sigma[n] end up as Euler's totient and the
   * divisor sum of n, and is_prime[n] tells whether n is prime. Index 0 keeps
   * the zero of a C++ global; is_prime[1] stays true, as nothing clears it.
   */
  method Sieve(N: nat) returns (phi: array<nat>, sigma: array<nat>, isPrime: array<bool>)
    ensures fresh(phi) && fresh(sigma) && fresh(isPrime)
    ensures phi.Length == N + 1 && sigma.Length == N + 1 && isPrime.Length == N + 1
    ensures forall n :: 1 <= n <= N ==> phi[n] == Phi(n) && sigma[n] == Sigma(n)
    ensures forall n :: 2 <= n <= N ==> isPrime[n] == IsPrime(n)
    ensures phi[0] == 0 && sigma[0] == 0 && !isPrime[0] && (N >= 1 ==> isPrime[1])
  {
    phi := new nat[N + 1](_ => 0);
    sigma := new nat[N + 1](_ => 0);
    isPrime := new bool[N + 1](_ => false);
    InitTables(N, phi, sigma, isPrime);
    var p := 2;
    while p <= N
      invariant 2 <= p
      invariant phi[0] == 0 && sigma[0] == 0 && !isPrime[0] && (N >= 1 ==> isPrime[1])
      invariant forall k :: 1 <= k <= N ==> phi[k] == Product(Totient, k, p) && sigma[k] == Product(DivisorSum, k, p)
      invariant forall k :: 2 <= k <= N ==> isPrime[k] == NoDivisorBelow(k, p)
    {
      Pass(phi, sigma, isPrime, p, N);
      p := p + 1;
    }
    SieveComplete(phi, sigma, isPrime, p, N);
  }

  /**
   * One round of the outer loop: a p that is_prime still marks is prime; its
   * multiples are cleared and its contributions multiplied in. Afterwards the
   * tables are the products over the primes up to p.
   */
  method Pass(phi: array<nat>, sigma: array<nat>, isPrime: array<bool>, p: nat, N: nat)
    requires phi.Length == N + 1 && sigma.Length == N + 1 && isPrime.Length == N + 1 && phi != sigma
    requires 2 <= p <= N
    requires forall k :: 1 <= k <= N ==> phi[k] == Product(Totient, k, p) && sigma[k] == Product(DivisorSum, k, p)
    requires forall k :: 2 <= k <= N ==> isPrime[k] == NoDivisorBelow(k, p)
    modifies phi, sigma, isPrime
    ensures forall k :: 1 <= k <= N ==>
      phi[k] == Product(Totient, k, p + 1) && sigma[k] == Product(DivisorSum, k, p + 1)
    ensures forall k :: 2 <= k <= N ==> isPrime[k] == NoDivisorBelow(k, p + 1)
    ensures phi[0] == old(phi[0]) && sigma[0] == old(sigma[0])
    ensures isPrime[0] == old(isPrime[0]) && isPrime[1] == old(isPrime[1])
  {
    PrimeIffNoDivisorBelowSelf(p);
    if isPrime[p] {
      ClearMultiples(isPrime, p, N);
      SweepPrime(phi, sigma, p, N);
    } else {
      SkipComposite(phi, sigma, isPrime, p, N);
    }
  }

  /** The initialisation loop: phi[i] = sigma[i] = 1 and is_prime[i] = true for i in 1..N. */
  method InitTables(N: nat, phi: array<nat>, sigma: array<nat>, isPrime: array<bool>)
    requires phi.Length == N + 1 && sigma.Length == N + 1 && isPrime.Length == N + 1 && phi != sigma
    modifies phi, sigma, isPrime
    ensures phi[0] == old(phi[0]) && sigma[0] == old(sigma[0]) && isPrime[0] == old(isPrime[0])
    ensures forall k :: 1 <= k <= N ==> phi[k] == 1 && sigma[k] == 1 && isPrime[k]
  {
    for i := 1 to N + 1
      invariant phi[0] == old(phi[0]) && sigma[0] == old(sigma[0]) && isPrime[0] == old(isPrime[0])
      invariant forall k :: 1 <= k < i ==> phi[k] == 1 && sigma[k] == 1 && isPrime[k]
    {
      phi[i], sigma[i] := 1, 1;
      isPrime[i] := true;
    }
  }

  /**
   * A composite p is skipped: the tables, already the products over the
   * primes below p, are the products over the primes up to p, and no entry
   * of is_prime changes its meaning.
   */
  lemma SkipComposite(phi: array<nat>, sigma: array<nat>, isPrime: array<bool>, p: nat, N: nat)
    requires phi.Length == N + 1 && sigma.Length == N + 1 && isPrime.Length == N + 1
    requires p >= 2 && !IsPrime(p)
    requires forall k :: 1 <= k <= N ==> phi[k] == Product(Totient, k, p) && sigma[k] == Product(DivisorSum, k, p)
    requires forall k :: 2 <= k <= N ==> isPrime[k] == NoDivisorBelow(k, p)
    ensures forall k :: 1 <= k <= N ==>
      phi[k] == Product(Totient, k, p + 1) && sigma[k] == Product(DivisorSum, k, p + 1)
    ensures forall k :: 2 <= k <= N ==> isPrime[k] == NoDivisorBelow(k, p + 1)
  {
    forall k | 2 <= k <= N
      ensures NoDivisorBelow(k, p + 1) == NoDivisorBelow(k, p)
    {
      if NoDivisorBelow(k, p) {
        NoDivisorBelowComposite(k, p);
      }
    }
    forall k | 1 <= k <= N
      ensures Product(Totient, k, p + 1) == Product(Totient, k, p)
      ensures Product(DivisorSum, k, p + 1) == Product(DivisorSum, k, p)
    {
      ProductPassComposite(Totient, k, p);
      ProductPassComposite(DivisorSum, k, p);
    }
  }

  /** Once p passes N, every entry holds its final value. */
  lemma SieveComplete(phi: array<nat>, sigma: array<nat>, isPrime: array<bool>, p: nat, N: nat)
    requires phi.Length == N + 1 && sigma.Length == N + 1 && isPrime.Length == N + 1
    requires p > N
    requires forall k :: 1 <= k <= N ==> phi[k] == Product(Totient, k, p) && sigma[k] == Product(DivisorSum, k, p)
    requires forall k :: 2 <= k <= N ==> isPrime[k] == NoDivisorBelow(k, p)
    ensures forall n :: 1 <= n <= N ==> phi[n] == Phi(n) && sigma[n] == Sigma(n)
    ensures forall n :: 2 <= n <= N ==> isPrime[n] == IsPrime(n)
  {
    forall n | 1 <= n <= N
      ensures phi[n] == Phi(n) && sigma[n] == Sigma(n)
      ensures n >= 2 ==> (isPrime[n] <==> IsPrime(n))
    {
      ProductStable(Totient, n, p);
      ProductStable(DivisorSum, n, p);
      if n >= 2 {
        PrimeIffNoDivisorBelowSelf(n);
      }
    }
  }

  /** The program: the lines `i phi[i] sigma[i]` of phigma.csv, for i = 1..N. */
  method PhigmaTable(N: nat) returns (rows: seq<Row>)
    ensures |rows| == N
    ensures forall k :: 0 <= k < N ==> rows[k] == Row(k + 1, Phi(k + 1), Sigma(k + 1))
  {
    var phi, sigma, isPrime := Sieve(N);
    rows := OutputRows(N, phi, sigma);
  }
}
