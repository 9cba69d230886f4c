/**
 * Exact non-negative fractions kept in lowest terms, as Python's
 * fractions.Fraction keeps them and as the g sieve keeps its pairs.
 */
module Rationals {
  import opened Divisibility

  /** A fraction num / den. */
  datatype Fraction = Fraction(num: nat, den: nat)

  /** The canonical form: positive denominator, no common factor. */
  predicate InLowestTerms(f: Fraction)
  {
    f.den > 0 && Coprime(f.num, f.den)
  }

  /** a / b, reduced by the gcd of a and b (what Fraction(a, b) stores). */
  function Reduce(a: nat, b: nat): (r: Fraction)
    requires b > 0
    ensures InLowestTerms(r)
    ensures r.num * b == a * r.den
  {
    ReduceFacts(a, b);
    Fraction(a / Gcd(a, b), b / Gcd(a, b))
  }

  lemma ReduceFacts(a: nat, b: nat)
    requires b > 0
    ensures Gcd(a, b) > 0 && b / Gcd(a, b) > 0
    ensures Coprime(a / Gcd(a, b), b / Gcd(a, b))
    ensures (a / Gcd(a, b)) * b == a * (b / Gcd(a, b))
  {
    GcdDivides(a, b);
    var g := Gcd(a, b);
    var a', b' := a / g, b / g;
    DivExact(a, g);
    DivExact(b, g);
    QuotientsByGcdCoprime(a, b);
    QuotientCross(a, b, g, a', b');
  }

  lemma QuotientCross(a: int, b: int, g: int, a': int, b': int)
    requires a == g * a' && b == g * b'
    ensures a' * b == a * b'
  {
  }

  /** Dividing both numbers by their gcd leaves no common factor. */
  lemma QuotientsByGcdCoprime(a: nat, b: nat)
    requires b > 0
    ensures Gcd(a, b) > 0 && b / Gcd(a, b) > 0
    ensures Coprime(a / Gcd(a, b), b / Gcd(a, b))
  {
    GcdDivides(a, b);
    var g := Gcd(a, b);
    DivExact(a, g);
    DivExact(b, g);
    var x, y := Bezout(a, b);
    DividesLe(g, b);
    CancelCombination(g, a, b, a / g, b / g, x, y);
    CombinationOneCoprime(a / g, b / g, x, y);
  }

  lemma CancelCombination(g: int, a: int, b: int, a': int, b': int, x: int, y: int)
    requires g > 0 && a == g * a' && b == g * b' && a * x + b * y == g
    ensures a' * x + b' * y == 1 && (b > 0 ==> b' > 0)
  {
    assert g * (a' * x + b' * y) == g * 1;
    MulCancel(g, a' * x + b' * y, 1);
  }

  /** Numbers with an integer combination equal to 1 share no factor. */
  lemma CombinationOneCoprime(a: nat, b: nat, x: int, y: int)
    requires b > 0 && a * x + b * y == 1
    ensures Coprime(a, b)
  {
    GcdDivides(a, b);
    DividesLinear(Gcd(a, b), a, b, x, y);
    DividesLe(Gcd(a, b), 1);
  }

  /** Two fractions in lowest terms that denote the same rational are identical. */
  lemma CanonicalUnique(x: Fraction, y: Fraction)
    requires InLowestTerms(x) && InLowestTerms(y)
    requires x.num * y.den == y.num * x.den
    ensures x == y
  {
    var a, b, c, d := x.num, x.den, y.num, y.den;
    assert (a * d) % b == 0 by {
      assert a * d == b * c;
      MulDivExact(b, c);
    }
    CoprimeDivides(a, b, d);
    assert (c * b) % d == 0 by {
      assert c * b == d * a;
      MulDivExact(d, a);
    }
    CoprimeDivides(c, d, b);
    DividesLe(b, d);
    DividesLe(d, b);
    MulCancel(d, a, c);
  }

  /** A fraction already in lowest terms is its own reduction. */
  lemma ReduceCanonical(f: Fraction)
    requires InLowestTerms(f)
    ensures Reduce(f.num, f.den) == f
  {
    CanonicalUnique(Reduce(f.num, f.den), f);
  }

  /** Reduced fractions are equal exactly when the cross products agree. */
  lemma ReduceEqualIff(a: nat, b: nat, c: nat, d: nat)
    requires b > 0 && d > 0
    ensures Reduce(a, b) == Reduce(c, d) <==> a * d == c * b
  {
    if Reduce(a, b) == Reduce(c, d) {
      SameReductionCross(a, b, c, d);
    }
    if a * d == c * b {
      CrossSameReduction(a, b, c, d);
    }
  }

  lemma SameReductionCross(a: nat, b: nat, c: nat, d: nat)
    requires b > 0 && d > 0 && Reduce(a, b) == Reduce(c, d)
    ensures a * d == c * b
  {
    var r := Reduce(a, b);
    CrossCancel(r.num, r.den, a, b, c, d);
  }

  lemma CrossSameReduction(a: nat, b: nat, c: nat, d: nat)
    requires b > 0 && d > 0 && a * d == c * b
    ensures Reduce(a, b) == Reduce(c, d)
  {
    var r, s := Reduce(a, b), Reduce(c, d);
    CrossCancel(c, d, s.num, s.den, a, b);
    CrossCancel(a, b, r.num, r.den, s.num, s.den);
    CanonicalUnique(r, s);
  }

  /**
   * If u/v == x/y and u/v == z/w (all denominators positive) then x/y == z/w,
   * stated by cross products.
   */
  lemma CrossCancel(u: nat, v: nat, x: nat, y: nat, z: nat, w: nat)
    requires v > 0 && y > 0 && w > 0
    requires x * v == u * y && z * v == u * w
    ensures x * w == z * y
  {
    calc {
      (x * w) * v;
      (x * v) * w;
      (u * y) * w;
      (u * w) * y;
      (z * v) * y;
      (z * y) * v;
    }
    MulCancel(v, x * w, z * y);
  }

  /**
   * Multiplying a reduced fraction by x / y and reducing again gives the same
   * result as reducing the unreduced product: reducing after every step is safe.
   */
  lemma ReduceMultiply(a: nat, b: nat, x: nat, y: nat)
    requires b > 0 && y > 0
    ensures Reduce(a, b).den * y > 0
    ensures Reduce(Reduce(a, b).num * x, Reduce(a, b).den * y) == Reduce(a * x, b * y)
  {
    var r := Reduce(a, b);
    assert r.den * y > 0 && b * y > 0;
    calc {
      (r.num * x) * (b * y);
      (r.num * b) * (x * y);
      (a * r.den) * (x * y);
      (a * x) * (r.den * y);
    }
    ReduceEqualIff(r.num * x, r.den * y, a * x, b * y);
  }
}
