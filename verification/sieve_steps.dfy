/**
 * The two inner steps that precompute_phigma.cpp and precompute_g.cpp share:
 * clearing the multiples of a prime in the is_prime table, and finding the
 * largest power of a prime that divides a number.
 */
module SieveSteps {
  import opened Divisibility
  import opened Valuation

  /** Between two consecutive multiples of p there is no other multiple of p. */
  lemma NextMultiple(p: int, k: int, i: int)
    requires p > 0 && k >= 0 && k % p == 0 && i % p == 0 && k < i
    ensures k + p <= i
  {
    DivExact(k, p);
    DivExact(i, p);
    var a, b := k / p, i / p;
    assert a < b by {
      if a >= b {
        MulMono(p, p, b, a);
      }
    }
    MulMono(p, p, a + 1, b);
    assert p * (a + 1) == k + p;
  }

  /** Adding p to a multiple of p gives a multiple of p. */
  lemma NextMultipleIsMultiple(p: int, k: int)
    requires p > 0 && k % p == 0
    ensures (k + p) % p == 0
  {
    DivExact(k, p);
    assert k + p == p * (k / p + 1);
    MulDivExact(p, k / p + 1);
  }

  /** Stepping from a multiple j of p to j + p skips no multiple of p and lands on one. */
  lemma NextMultiples(p: int, j: int)
    requires p > 0 && j >= 0 && j % p == 0
    ensures (j + p) % p == 0
    ensures forall k :: k % p == 0 && j < k ==> j + p <= k
  {
    forall k | k % p == 0 && j < k
      ensures j + p <= k
    {
      NextMultiple(p, j, k);
    }
    NextMultipleIsMultiple(p, j);
  }

  /** 2*p is a multiple of p. */
  lemma DoubleIsMultiple(p: int)
    requires p > 0
    ensures (2 * p) % p == 0
  {
    MulDivExact(p, 2);
  }

  /**
   * `for (k = 2*p; k <= N; k += p) is_prime[k] = false;`: exactly the proper
   * multiples of p are cleared; nothing else changes.
   */
  method ClearMultiples(isPrime: array<bool>, p: nat, N: nat)
    requires isPrime.Length == N + 1 && p >= 1
    modifies isPrime
    ensures forall k :: 0 <= k <= N ==> isPrime[k] == (old(isPrime[k]) && !(k % p == 0 && k > p))
  {
    var k := 2 * p;
    DoubleIsMultiple(p);
    while k <= N
      invariant k % p == 0 && 2 * p <= k
      invariant forall i :: 0 <= i <= N ==> isPrime[i] == (old(isPrime[i]) && !(i % p == 0 && p < i < k))
    {
      isPrime[k] := false;
      NextMultiples(p, k);
      k := k + p;
    }
  }

  /**
   * `p_pow = p; while (j % (p_pow * p) == 0) p_pow *= p;`: starting from p,
   * which divides j, the loop stops at p^Val(p, j), the largest power of p
   * dividing j.
   */
  method LargestPowerDividing(j: nat, p: nat) returns (pPow: nat)
    requires p >= 2 && j >= 1 && j % p == 0
    ensures pPow == Pow(p, Val(p, j))
    ensures j % pPow == 0 && j % (pPow * p) != 0
  {
    ghost var a := 1;
    pPow := p;
    PowDividesIff(p, j, 1);
    while j % (pPow * p) == 0
      invariant 1 <= a <= Val(p, j) && pPow == Pow(p, a)
      decreases Val(p, j) - a
    {
      assert pPow * p == Pow(p, a + 1);
      PowDividesIff(p, j, a + 1);
      pPow := pPow * p;
      a := a + 1;
    }
    assert pPow * p == Pow(p, a + 1);
    PowDividesIff(p, j, a + 1);
    PowDividesIff(p, j, a);
  }

  /** One output line `i a b` of a precomputed table. */
  datatype Row = Row(i: nat, a: nat, b: nat)

  /**
   * The output loop `for i in 1..N: write i, a[i], b[i]`: one row per i, in
   * ascending order of i.
   */
  method OutputRows(N: nat, a: array<nat>, b: array<nat>) returns (rows: seq<Row>)
    requires a.Length == N + 1 && b.Length == N + 1
    ensures |rows| == N
    ensures forall k :: 0 <= k < N ==> rows[k] == Row(k + 1, a[k + 1], b[k + 1])
  {
    rows := [];
    for i := 1 to N + 1
      invariant |rows| == i - 1
      invariant forall k :: 0 <= k < i - 1 ==> rows[k] == Row(k + 1, a[k + 1], b[k + 1])
    {
      rows := rows + [Row(i, a[i], b[i])];
    }
  }
}
