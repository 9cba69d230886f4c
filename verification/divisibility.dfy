/**
 * Integer division, powers, primality and the greatest common divisor:
 * the arithmetic every sieve in this model rests on.
 */
module Divisibility {

  // ---------------------------------------------------------------------
  // Division with remainder
  // ---------------------------------------------------------------------

  /** Quotient and remainder of Euclidean division are unique. */
  lemma DivModUnique(n: int, d: int, q: int, r: int)
    requires d > 0 && n == d * q + r && 0 <= r < d
    ensures n / d == q && n % d == r
  {
    var q0, r0 := n / d, n % d;
    var k := q - q0;
    assert d * q == d * q0 + d * k;
    assert d * k == r0 - r;
  }

  /** A multiple of `d` leaves no remainder and divides back exactly. */
  lemma MulDivExact(d: int, k: int)
    requires d > 0
    ensures (d * k) % d == 0 && (d * k) / d == k
  {
    DivModUnique(d * k, d, k, 0);
  }

  /** An exact quotient multiplies back to the dividend. */
  lemma DivExact(n: int, d: int)
    requires d > 0 && n % d == 0
    ensures n == d * (n / d)
  {
  }

  /** An integer combination of two multiples of `d` is a multiple of `d`. */
  lemma DividesLinear(d: int, u: int, v: int, x: int, y: int)
    requires d > 0 && u % d == 0 && v % d == 0
    ensures (u * x + v * y) % d == 0
  {
    var a, b := u / d, v / d;
    assert u == d * a && v == d * b;
    assert u * x + v * y == d * (a * x + b * y);
    MulDivExact(d, a * x + b * y);
  }

  /** Divisibility is transitive. */
  lemma DividesTrans(a: int, b: int, c: int)
    requires a > 0 && b > 0 && b % a == 0 && c % b == 0
    ensures c % a == 0
  {
    DividesLinear(a, b, 0, c / b, 0);
    assert c == b * (c / b);
  }

  /** A positive multiple is at least as large as the divisor. */
  lemma DividesLe(d: int, n: int)
    requires d > 0 && n > 0 && n % d == 0
    ensures d <= n
  {
    var k := n / d;
    assert n == d * k;
    assert k >= 1;
    assert d * k >= d * 1;
  }

  /** Dividing a factor of a product out of the product. */
  lemma DivOutOfProduct(p: int, a: int, b: int)
    requires p > 0 && a % p == 0
    ensures (a * b) % p == 0 && (a * b) / p == (a / p) * b
  {
    assert a == p * (a / p);
    assert a * b == p * ((a / p) * b);
    MulDivExact(p, (a / p) * b);
  }

  /** n % (a*b) == 0 exactly when a divides n and b divides n / a. */
  lemma ModProductIff(n: int, a: int, b: int)
    requires a > 0 && b > 0
    ensures n % (a * b) == 0 <==> n % a == 0 && (n / a) % b == 0
  {
    if n % (a * b) == 0 {
      var k := n / (a * b);
      assert n == a * (b * k);
      MulDivExact(a, b * k);
      MulDivExact(b, k);
    }
    if n % a == 0 && (n / a) % b == 0 {
      var k := (n / a) / b;
      assert n == a * (n / a);
      assert n / a == b * k;
      assert n == (a * b) * k;
      MulDivExact(a * b, k);
    }
  }

  // ---------------------------------------------------------------------
  // Products (stated apart, so that each is proved in a small context)
  // ---------------------------------------------------------------------

  lemma MulAssoc(a: int, b: int, c: int)
    ensures a * (b * c) == (a * b) * c
  {
  }

  lemma MulMono(a: int, b: int, c: int, d: int)
    requires 0 <= a <= b && 0 <= c <= d
    ensures a * c <= b * d
  {
    assert a * c <= b * c;
    assert b * c <= b * d;
  }

  lemma MulStrictMono(a: int, b: int, c: int, d: int)
    requires 1 <= a <= b && 1 <= c <= d && (a < b || c < d)
    ensures a * c < b * d
  {
    if a < b {
      assert a * c < b * c;
      assert b * c <= b * d;
    } else {
      assert a * c < a * d;
    }
  }

  /** Regrouping a product of three pairs. */
  lemma Regroup3(a: int, b: int, c: int, x: int, y: int, z: int)
    ensures (a * x) * (b * y) * (c * z) == (a * b * c) * (x * y * z)
  {
  }

  /** Cancelling a positive common factor. */
  lemma MulCancel(k: int, a: int, b: int)
    requires k > 0 && k * a == k * b
    ensures a == b
  {
  }

  // ---------------------------------------------------------------------
  // Powers
  // ---------------------------------------------------------------------

  /** b raised to the power e. */
  function Pow(b: nat, e: nat): (r: nat)
    ensures b >= 1 ==> r >= 1
  {
    if e == 0 then 1 else b * Pow(b, e - 1)
  }

  lemma {:induction false} PowPositive(b: nat, e: nat)
    requires b >= 1
    ensures Pow(b, e) >= 1
  {
    if e > 0 {
      PowPositive(b, e - 1);
      assert b * Pow(b, e - 1) >= 1 * Pow(b, e - 1);
    }
  }

  /** Powers of a base of at least 2 grow strictly. */
  lemma {:induction false} PowStrictlyIncreasing(b: nat, e1: nat, e2: nat)
    requires b >= 2 && e1 < e2
    ensures Pow(b, e1) < Pow(b, e2)
  {
    var x := Pow(b, e2 - 1);
    if e1 < e2 - 1 {
      PowStrictlyIncreasing(b, e1, e2 - 1);
    }
    assert Pow(b, e2) == b * x == x + (b - 1) * x;
    assert (b - 1) * x >= 1;
  }

  lemma {:induction false} PowAdd(b: nat, e1: nat, e2: nat)
    ensures Pow(b, e1 + e2) == Pow(b, e1) * Pow(b, e2)
  {
    if e1 > 0 {
      PowAdd(b, e1 - 1, e2);
      assert Pow(b, e1 + e2) == b * Pow(b, e1 - 1 + e2);
      MulAssoc(b, Pow(b, e1 - 1), Pow(b, e2));
    }
  }

  // ---------------------------------------------------------------------
  // Primes
  // ---------------------------------------------------------------------

  /** n is prime: at least 2 and without a divisor strictly between 1 and n. */
  predicate IsPrime(n: int)
  {
    n >= 2 && forall d :: 2 <= d < n ==> n % d != 0
  }

  /** The least divisor of n that is at least `from`, given none below it. */
  function LeastDivisorFrom(n: nat, from: nat): (r: nat)
    requires 2 <= from <= n
    ensures from <= r <= n && n % r == 0
    ensures forall d :: from <= d < r ==> n % d != 0
    decreases n - from
  {
    if n % from == 0 then from else LeastDivisorFrom(n, from + 1)
  }

  /** The least divisor of n that is at least 2; it is prime (SmallestFactorIsPrime). */
  function SmallestFactor(n: nat): (r: nat)
    requires n >= 2
    ensures 2 <= r <= n && n % r == 0
    ensures forall d :: 2 <= d < r ==> n % d != 0
  {
    LeastDivisorFrom(n, 2)
  }

  lemma SmallestFactorIsPrime(n: nat)
    requires n >= 2
    ensures IsPrime(SmallestFactor(n))
  {
    var r := SmallestFactor(n);
    forall d | 2 <= d < r
      ensures r % d != 0
    {
      if r % d == 0 {
        DividesTrans(d, r, n);
      }
    }
  }

  /** A number of at least 2 that is not prime has a prime factor below it. */
  lemma CompositeHasSmallerPrimeFactor(n: nat) returns (q: nat)
    requires n >= 2 && !IsPrime(n)
    ensures IsPrime(q) && q < n && n % q == 0
  {
    q := SmallestFactor(n);
    SmallestFactorIsPrime(n);
  }

  /**
   * n has no divisor in [2, min(m, n)) exactly when no prime below m
   * (other than n itself) divides it.
   */
  ghost predicate NoDivisorBelow(n: int, m: int)
  {
    forall d :: 2 <= d < m && d < n ==> n % d != 0
  }

  /** Extending the range of `NoDivisorBelow` by a composite number changes nothing. */
  lemma NoDivisorBelowComposite(n: int, c: int)
    requires n >= 1 && c >= 2 && !IsPrime(c) && NoDivisorBelow(n, c)
    ensures NoDivisorBelow(n, c + 1)
  {
    if c < n && n % c == 0 {
      var q := CompositeHasSmallerPrimeFactor(c);
      DividesTrans(q, c, n);
    }
  }

  lemma PrimeIffNoDivisorBelowSelf(n: int)
    requires n >= 2
    ensures IsPrime(n) <==> NoDivisorBelow(n, n)
  {
  }

  /**
   * What the is_prime sieve relies on: p is prime exactly when it is at least
   * 2 and no smaller prime divides it, so p keeps its mark through the
   * clearing of the multiples of every smaller prime exactly when it is prime.
   */
  lemma PrimeIffNoSmallerPrimeDivides(p: int)
    ensures IsPrime(p) <==> p >= 2 && forall q :: 2 <= q < p && IsPrime(q) ==> p % q != 0
  {
    if p >= 2 && !IsPrime(p) {
      var q := CompositeHasSmallerPrimeFactor(p);
    }
  }

  // ---------------------------------------------------------------------
  // Greatest common divisor
  // ---------------------------------------------------------------------

  /** Euclid's algorithm; Gcd(a, 0) == a, as std::gcd and Python's math.gcd. */
  function Gcd(a: nat, b: nat): nat
    decreases b
  {
    if b == 0 then a else Gcd(b, a % b)
  }

  predicate Coprime(a: nat, b: nat)
  {
    Gcd(a, b) == 1
  }

  /** The gcd divides both arguments, and is positive unless both are 0. */
  lemma {:induction false} GcdDivides(a: nat, b: nat)
    requires a > 0 || b > 0
    ensures Gcd(a, b) > 0 && a % Gcd(a, b) == 0 && b % Gcd(a, b) == 0
    decreases b
  {
    if b > 0 {
      if a % b == 0 {
        assert Gcd(b, a % b) == Gcd(b, 0) == b;
        assert a % b == 0;
      } else {
        GcdDivides(b, a % b);
        var g := Gcd(a, b);
        assert a == b * (a / b) + a % b;
        DividesLinear(g, b, a % b, a / b, 1);
      }
    }
  }

  /** Bezout's identity: the gcd is an integer combination of the arguments. */
  lemma {:induction false} Bezout(a: nat, b: nat) returns (x: int, y: int)
    ensures a * x + b * y == Gcd(a, b)
    decreases b
  {
    if b == 0 {
      x, y := 1, 0;
    } else {
      var x1, y1 := Bezout(b, a % b);
      var q := a / b;
      assert a % b == a - b * q;
      x, y := y1, x1 - q * y1;
      calc {
        a * x + b * y;
        a * y1 + b * x1 - b * q * y1;
        b * x1 + (a - b * q) * y1;
        b * x1 + (a % b) * y1;
      }
    }
  }

  /** Every common divisor divides the gcd. */
  lemma GcdGreatest(a: nat, b: nat, d: int)
    requires d > 0 && a % d == 0 && b % d == 0
    ensures Gcd(a, b) % d == 0
  {
    var x, y := Bezout(a, b);
    DividesLinear(d, a, b, x, y);
  }

  /** If b divides a*c and shares no factor with a, it divides c. */
  lemma CoprimeDivides(a: nat, b: nat, c: int)
    requires b > 0 && Coprime(a, b) && (a * c) % b == 0
    ensures c % b == 0
  {
    var x, y := Bezout(a, b);
    assert (b * c) % b == 0 by { MulDivExact(b, c); }
    DividesLinear(b, a * c, b * c, x, y);
    assert a * c * x + b * c * y == c * (a * x + b * y) == c;
  }

  /** A prime shares no factor with a number it does not divide. */
  lemma PrimeCoprime(p: nat, a: nat)
    requires IsPrime(p) && a % p != 0
    ensures Coprime(a, p)
  {
    GcdDivides(a, p);
    DividesLe(Gcd(a, p), p);
  }

  /** Euclid's lemma: a prime dividing a product divides one of the factors. */
  lemma Euclid(p: nat, a: nat, b: nat)
    requires IsPrime(p) && (a * b) % p == 0
    ensures a % p == 0 || b % p == 0
  {
    if a % p != 0 {
      PrimeCoprime(p, a);
      CoprimeDivides(a, p, b);
    }
  }
}
