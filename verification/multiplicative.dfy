/**
 * Multiplicative quantities as products over primes of their values on
 * prime powers: n itself, Euler's totient, the divisor sum and the two
 * halves of g(n) = prod (p^(a+1) - 1) / p^(a+1).
 */
module Multiplicative {
  import opened Divisibility
  import opened Valuation

  /** phi(p^a) = p^(a-1) * (p - 1), and phi(1) = 1. */
  function PhiPP(p: nat, a: nat): nat
    requires p >= 1
  {
    if a == 0 then 1 else Pow(p, a - 1) * (p - 1)
  }

  /** sigma(p^a) = 1 + p + ... + p^a, the sum of the divisors of p^a. */
  function SigmaPP(p: nat, a: nat): nat
  {
    if a == 0 then 1 else SigmaPP(p, a - 1) + Pow(p, a)
  }

  /** The quantities the sieves build, each fixed by its value on prime powers. */
  datatype Quantity = Identity | Totient | DivisorSum | GNumerator | GDenominator

  /** The value of a quantity on p^a (a == 0 gives 1 for every quantity). */
  function Local(q: Quantity, p: nat, a: nat): nat
    requires p >= 2
  {
    match q
    case Identity => Pow(p, a)
    case Totient => PhiPP(p, a)
    case DivisorSum => SigmaPP(p, a)
    case GNumerator => if a == 0 then 1 else Pow(p, a + 1) - 1
    case GDenominator => if a == 0 then 1 else Pow(p, a + 1)
  }

  /** The product, over the primes p < m, of the value of q on p^Val(p, n). */
  function Product(q: Quantity, n: nat, m: nat): nat
    requires n >= 1
  {
    if m <= 2 then 1
    else Product(q, n, m - 1) * (if IsPrime(m - 1) then Local(q, m - 1, Val(m - 1, n)) else 1)
  }

  /** The part of n made of primes below m, and what is left of n once it is removed. */
  function PrimePart(n: nat, m: nat): nat
    requires n >= 1
  {
    Product(Identity, n, m)
  }

  function RoughPart(n: nat, m: nat): nat
    requires n >= 1
  {
    var pp := PrimePart(n, m);
    if pp == 0 then 0 else n / pp
  }

  /** Euler's totient by the product formula over the prime powers exactly dividing n. */
  function Phi(n: nat): nat
    requires n >= 1
  {
    Product(Totient, n, n + 1)
  }

  /** The divisor sum by the product formula over the prime powers exactly dividing n. */
  function Sigma(n: nat): nat
    requires n >= 1
  {
    Product(DivisorSum, n, n + 1)
  }

  /** Numerator and denominator of g(n) = prod over p^a || n of (p^(a+1) - 1) / p^(a+1). */
  function GNum(n: nat): nat
    requires n >= 1
  {
    Product(GNumerator, n, n + 1)
  }

  function GDen(n: nat): nat
    requires n >= 1
  {
    Product(GDenominator, n, n + 1)
  }

  // ---------------------------------------------------------------------
  // Local facts
  // ---------------------------------------------------------------------

  /** The geometric sum: (p - 1)(1 + p + ... + p^a) == p^(a+1) - 1. */
  lemma {:induction false} GeometricSum(p: nat, a: nat)
    requires p >= 1
    ensures (p - 1) * SigmaPP(p, a) == Pow(p, a + 1) - 1
  {
    if a > 0 {
      GeometricSum(p, a - 1);
      calc {
        (p - 1) * SigmaPP(p, a);
        (p - 1) * SigmaPP(p, a - 1) + (p - 1) * Pow(p, a);
        Pow(p, a) - 1 + p * Pow(p, a) - Pow(p, a);
        Pow(p, a + 1) - 1;
      }
    }
  }

  /** phi(p^a) is also p^a - p^(a-1), with p^(a-1) == p^a / p. */
  lemma PhiPPAsDifference(p: nat, a: nat)
    requires p >= 2 && a >= 1
    ensures Pow(p, a) / p == Pow(p, a - 1)
    ensures PhiPP(p, a) == Pow(p, a) - Pow(p, a) / p
  {
    MulDivExact(p, Pow(p, a - 1));
  }

  /** sigma(p^a) is also (p^(a+1) - 1) / (p - 1), and the division is exact. */
  lemma SigmaPPAsQuotient(p: nat, a: nat)
    requires p >= 2
    ensures (Pow(p, a + 1) - 1) % (p - 1) == 0
    ensures SigmaPP(p, a) == (Pow(p, a + 1) - 1) / (p - 1)
  {
    GeometricSum(p, a);
    DivModUnique(Pow(p, a + 1) - 1, p - 1, SigmaPP(p, a), 0);
  }

  /** Every quantity is 1 on p^0. */
  lemma LocalOfZero(q: Quantity, p: nat)
    requires p >= 2
    ensures Local(q, p, 0) == 1
  {
  }

  lemma LocalPositive(q: Quantity, p: nat, a: nat)
    requires p >= 2
    ensures Local(q, p, a) >= 1
  {
    match q
    case Totient =>
      if a > 0 {
        MulMono(1, Pow(p, a - 1), 1, p - 1);
      }
    case DivisorSum =>
      GeometricSum(p, a);
      PowStrictlyIncreasing(p, 0, a + 1);
    case GNumerator =>
      PowStrictlyIncreasing(p, 0, a + 1);
    case _ =>
  }

  /**
   * On a prime power, phi * sigma * p^(a+1) == (p^(a+1) - 1) * p^(2a): the local
   * form of f(n) = phi(n) sigma(n) / n^2 = g(n).
   */
  lemma LocalGIdentity(p: nat, a: nat)
    requires p >= 2
    ensures Local(Totient, p, a) * Local(DivisorSum, p, a) * Local(GDenominator, p, a)
         == Local(GNumerator, p, a) * Pow(p, a) * Pow(p, a)
  {
    if a > 0 {
      var x := Pow(p, a - 1);
      GeometricSum(p, a);
      assert Pow(p, a) == p * x;
      assert Pow(p, a + 1) == p * Pow(p, a);
      MulAssoc(p, p, x);
      GAlgebra(p, x, SigmaPP(p, a));
    }
  }

  /** The algebra behind LocalGIdentity, with x = p^(a-1) and s = sigma(p^a). */
  lemma GAlgebra(p: int, x: int, s: int)
    requires (p - 1) * s == p * p * x - 1
    ensures x * (p - 1) * s * (p * p * x) == (p * p * x - 1) * (p * x) * (p * x)
  {
    calc {
      x * (p - 1) * s * (p * p * x);
      ((p - 1) * s) * (x * (p * p * x));
      (p * p * x - 1) * (x * (p * p * x));
      (p * p * x - 1) * ((p * x) * (p * x));
    }
  }

  // ---------------------------------------------------------------------
  // Products over primes
  // ---------------------------------------------------------------------

  lemma {:induction false} ProductPositive(q: Quantity, n: nat, m: nat)
    requires n >= 1
    ensures Product(q, n, m) >= 1
  {
    if m > 2 {
      ProductPositive(q, n, m - 1);
      if IsPrime(m - 1) {
        LocalPositive(q, m - 1, Val(m - 1, n));
        var x, y := Product(q, n, m - 1), Local(q, m - 1, Val(m - 1, n));
        MulMono(1, x, 1, y);
      }
    }
  }

  /** Primes beyond n contribute nothing: the product stops changing at m = n + 1. */
  lemma {:induction false} ProductStable(q: Quantity, n: nat, m: nat)
    requires 1 <= n < m
    ensures Product(q, n, m) == Product(q, n, n + 1)
  {
    if m > n + 1 {
      ProductStable(q, n, m - 1);
      if IsPrime(m - 1) {
        ValOfLargerPrime(m - 1, n);
        LocalOfZero(q, m - 1);
      }
    }
  }

  /** Every quantity is 1 at n == 1. */
  lemma {:induction false} ProductOfOne(q: Quantity, m: nat)
    ensures Product(q, 1, m) == 1
  {
    if m > 2 {
      ProductOfOne(q, m - 1);
      if IsPrime(m - 1) {
        ValOfLargerPrime(m - 1, 1);
        LocalOfZero(q, m - 1);
      }
    }
  }

  /** Passing a prime p that does not divide n leaves every product unchanged. */
  lemma ProductPassNonDivisor(q: Quantity, n: nat, p: nat)
    requires n >= 1 && p >= 2 && n % p != 0
    ensures Product(q, n, p + 1) == Product(q, n, p)
  {
    if IsPrime(p) {
      LocalOfZero(q, p);
    }
  }

  /** Passing a number that is not prime leaves every product unchanged. */
  lemma ProductPassComposite(q: Quantity, n: nat, c: nat)
    requires n >= 1 && c >= 2 && !IsPrime(c)
    ensures Product(q, n, c + 1) == Product(q, n, c)
  {
  }

  /** Passing a prime p multiplies the product by the value of q on p^Val(p, n). */
  lemma ProductPassPrime(q: Quantity, n: nat, p: nat)
    requires n >= 1 && IsPrime(p)
    ensures Product(q, n, p + 1) == Product(q, n, p) * Local(q, p, Val(p, n))
  {
  }

  /** The facts RoughPartValuations states for the bound m. */
  ghost predicate RoughPartFacts(n: nat, m: nat)
    requires n >= 1
  {
    && PrimePart(n, m) >= 1 && n % PrimePart(n, m) == 0
    && RoughPart(n, m) >= 1 && PrimePart(n, m) * RoughPart(n, m) == n
    && forall q :: IsPrime(q) ==> Val(q, RoughPart(n, m)) == if q < m then 0 else Val(q, n)
  }

  /**
   * The primes below m account for exactly their own exponents in n: PrimePart(n, m)
   * divides n, and the quotient keeps the exponents of the primes from m on.
   */
  lemma {:induction false} RoughPartValuations(n: nat, m: nat)
    requires n >= 1
    ensures PrimePart(n, m) >= 1 && n % PrimePart(n, m) == 0
    ensures RoughPart(n, m) >= 1 && PrimePart(n, m) * RoughPart(n, m) == n
    ensures forall q :: IsPrime(q) ==> Val(q, RoughPart(n, m)) == if q < m then 0 else Val(q, n)
  {
    if m <= 2 {
      assert n / 1 == n;
    } else {
      RoughPartValuations(n, m - 1);
      if IsPrime(m - 1) {
        RoughPartPassPrime(n, m - 1);
      } else {
        RoughPartPassComposite(n, m - 1);
      }
    }
  }

  lemma RoughPartPassComposite(n: nat, c: nat)
    requires n >= 1 && c >= 2 && !IsPrime(c) && RoughPartFacts(n, c)
    ensures RoughPartFacts(n, c + 1)
  {
    assert PrimePart(n, c + 1) == PrimePart(n, c);
    forall q | IsPrime(q)
      ensures Val(q, RoughPart(n, c + 1)) == if q < c + 1 then 0 else Val(q, n)
    {
      assert q != c;
    }
  }

  lemma RoughPartPassPrime(n: nat, p: nat)
    requires n >= 1 && IsPrime(p) && RoughPartFacts(n, p)
    ensures RoughPartFacts(n, p + 1)
  {
    var pp, r := PrimePart(n, p), RoughPart(n, p);
    var v := Val(p, n);
    var pv := Pow(p, v);
    assert Val(p, r) == v;
    PowDividesIff(p, r, v);
    PowPositive(p, v);
    var r' := r / pv;
    DivExact(r, pv);
    assert r' >= 1;
    assert PrimePart(n, p + 1) == pp * pv;
    MulAssoc(pp, pv, r');
    MulDivExact(pp * pv, r');
    assert RoughPart(n, p + 1) == r';
    forall q | IsPrime(q)
      ensures Val(q, r') == if q < p + 1 then 0 else Val(q, n)
    {
      ValMul(q, pv, r');
      ValOfPrimePower(q, p, v);
    }
  }

  /** Once every prime up to n is accounted for, nothing of n is left. */
  lemma RoughPartEnd(n: nat, m: nat)
    requires 1 <= n < m
    ensures RoughPart(n, m) == 1
  {
    RoughPartValuations(n, m);
    var r := RoughPart(n, m);
    MulMono(1, PrimePart(n, m), r, r);
    if r >= 2 {
      var q := SmallestFactor(r);
      SmallestFactorIsPrime(r);
      ValPositiveIff(q, r);
      assert false;
    }
  }

  /**
   * Existence of the prime factorisation: n is the product of p^Val(p, n)
   * over the primes p <= n (and over the primes below any bound beyond n).
   */
  lemma FactorizationProduct(n: nat, m: nat)
    requires 1 <= n < m
    ensures PrimePart(n, m) == n
  {
    RoughPartValuations(n, m);
    RoughPartEnd(n, m);
  }

  /** The rough part loses exactly p^Val(p, n) when the prime p is passed. */
  lemma RoughPartStep(n: nat, p: nat)
    requires n >= 1 && IsPrime(p)
    ensures RoughPart(n, p) == Pow(p, Val(p, n)) * RoughPart(n, p + 1)
  {
    RoughPartValuations(n, p);
    RoughPartValuations(n, p + 1);
    var pp, pv := PrimePart(n, p), Pow(p, Val(p, n));
    assert PrimePart(n, p + 1) == pp * pv;
    MulAssoc(pp, pv, RoughPart(n, p + 1));
    MulCancel(pp, RoughPart(n, p), pv * RoughPart(n, p + 1));
  }

  /** phi(n) sigma(n) GDen(n) == GNum(n) n^2 over the primes below m. */
  lemma {:induction false} GProductIdentity(n: nat, m: nat)
    requires n >= 1
    ensures Product(Totient, n, m) * Product(DivisorSum, n, m) * Product(GDenominator, n, m)
         == Product(GNumerator, n, m) * PrimePart(n, m) * PrimePart(n, m)
  {
    if m > 2 {
      GProductIdentity(n, m - 1);
      if IsPrime(m - 1) {
        var p, a := m - 1, Val(m - 1, n);
        LocalGIdentity(p, a);
        var A, B, C := Product(Totient, n, m - 1), Product(DivisorSum, n, m - 1), Product(GDenominator, n, m - 1);
        var D, E := Product(GNumerator, n, m - 1), PrimePart(n, m - 1);
        var x, y, z := Local(Totient, p, a), Local(DivisorSum, p, a), Local(GDenominator, p, a);
        var u, w := Local(GNumerator, p, a), Pow(p, a);
        Regroup3(A, B, C, x, y, z);
        Regroup3(D, E, E, u, w, w);
      }
    }
  }

  /** f(n) = phi(n) sigma(n) / n^2 equals g(n) = GNum(n) / GDen(n) as a rational. */
  lemma FEqualsG(n: nat)
    requires n >= 1
    ensures Phi(n) * Sigma(n) * GDen(n) == GNum(n) * (n * n)
  {
    GProductIdentity(n, n + 1);
    FactorizationProduct(n, n + 1);
    MulAssoc(GNum(n), n, n);
  }

  /** GNum never exceeds GDen, and falls strictly below it once a prime factor of n is passed. */
  lemma {:induction false} GNumBelowGDen(n: nat, m: nat)
    requires n >= 1
    ensures 1 <= Product(GNumerator, n, m) <= Product(GDenominator, n, m)
    ensures n >= 2 && m > SmallestFactor(n) ==> Product(GNumerator, n, m) < Product(GDenominator, n, m)
  {
    ProductPositive(GNumerator, n, m);
    if m > 2 {
      GNumBelowGDen(n, m - 1);
      var A, B := Product(GNumerator, n, m - 1), Product(GDenominator, n, m - 1);
      if IsPrime(m - 1) {
        var p, a := m - 1, Val(m - 1, n);
        var x, y := Local(GNumerator, p, a), Local(GDenominator, p, a);
        LocalPositive(GNumerator, p, a);
        assert x <= y;
        MulMono(A, B, x, y);
        if n >= 2 && m > SmallestFactor(n) {
          if m - 1 == SmallestFactor(n) {
            ValPositiveIff(p, n);
            MulStrictMono(A, B, x, y);
          } else {
            MulStrictMono(A, B, x, y);
          }
        }
      } else if n >= 2 && m > SmallestFactor(n) {
        SmallestFactorIsPrime(n);
        assert m - 1 != SmallestFactor(n);
      }
    }
  }

  /** For n >= 2, g(n) < 1. */
  lemma GBelowOne(n: nat)
    requires n >= 2
    ensures GNum(n) < GDen(n)
  {
    GNumBelowGDen(n, n + 1);
  }
}
