/**
 * eq_2.py: with the totient and sigma tables loaded, f(x) is the exact
 * rational totient[x] * sigma[x] / x^2, and a linear scan over
 * i = t + 1 .. n_max (n_max = min(N, 1000000), t = 3) reports every i with
 * f(i) = f(t), followed by "No solutions found." when there was none.
 */
module Eq2 {
  import opened Divisibility
  import opened Multiplicative
  import opened Rationals
  import opened Factorization
  import opened PrecomputeG

  /** The largest index the scan visits: `n_max = min(N, 1000000)`. */
  const ScanLimit: nat := 1000000

  /** The value t whose f-value is searched for (`t=3`). */
  const Target: nat := 3

  /** A line the scan prints: a match, or the closing no-match report. */
  datatype Line = FoundSolution(i: nat, t: nat) | NoSolutionsFound

  /**
   * `f(x) = Fraction(totient[x]*sigma[x], x**2)`: a Python Fraction is kept
   * in lowest terms with a positive denominator, and stands for exactly the
   * rational totient[x] * sigma[x] / x^2.
   */
  function FOf(totient: seq<nat>, sigma: seq<nat>, x: nat): (r: Fraction)
    requires x < |totient| && x < |sigma| && x >= 1
    ensures InLowestTerms(r)
    ensures r.num * (x * x) == totient[x] * sigma[x] * r.den
  {
    MulMono(1, x, 1, x);
    Reduce(totient[x] * sigma[x], x * x)
  }

  /**
   * Comparing two Fractions is comparing the rationals they stand for:
   * f(i) == f(t) exactly when totient[i] sigma[i] t^2 == totient[t] sigma[t] i^2.
   */
  lemma SameValueIff(totient: seq<nat>, sigma: seq<nat>, i: nat, t: nat)
    requires 1 <= i < |totient| && i < |sigma| && 1 <= t < |totient| && t < |sigma|
    ensures FOf(totient, sigma, i) == FOf(totient, sigma, t)
        <==> totient[i] * sigma[i] * (t * t) == totient[t] * sigma[t] * (i * i)
  {
    MulMono(1, i, 1, i);
    MulMono(1, t, 1, t);
    ReduceEqualIff(totient[i] * sigma[i], i * i, totient[t] * sigma[t], t * t);
  }

  /**
   * On tables holding Euler's totient and the divisor sum (as get_data.cpp
   * writes them), f(x) is the reduced pair g[x] that precompute_g.cpp builds.
   */
  lemma FOfMatchesG(totient: seq<nat>, sigma: seq<nat>, x: nat)
    requires 1 <= x < |totient| && x < |sigma|
    requires totient[x] == Phi(x) && sigma[x] == Sigma(x)
    ensures FOf(totient, sigma, x) == G(x)
  {
    GMeaning(x);
  }

  /** The indices i with lo <= i < hi and f(i) == f(t), in the order the scan meets them. */
  function Solutions(totient: seq<nat>, sigma: seq<nat>, t: nat, lo: nat, hi: nat): seq<nat>
    requires 1 <= t < |totient| && t < |sigma| && 1 <= lo && hi <= |totient| && hi <= |sigma|
    decreases hi
  {
    if hi <= lo then []
    else
      var earlier := Solutions(totient, sigma, t, lo, hi - 1);
      if FOf(totient, sigma, hi - 1) == FOf(totient, sigma, t) then earlier + [hi - 1] else earlier
  }

  /** An index is reported exactly when it lies in [lo, hi) and f(i) == f(t). */
  lemma {:induction false} SolutionsMembers(totient: seq<nat>, sigma: seq<nat>, t: nat, lo: nat, hi: nat, i: nat)
    requires 1 <= t < |totient| && t < |sigma| && 1 <= lo && hi <= |totient| && hi <= |sigma|
    ensures i in Solutions(totient, sigma, t, lo, hi)
        <==> lo <= i < hi && FOf(totient, sigma, i) == FOf(totient, sigma, t)
  {
    if hi > lo {
      SolutionsMembers(totient, sigma, t, lo, hi - 1, i);
    }
  }

  /** The reported indices are strictly ascending and lie in [lo, hi). */
  lemma {:induction false} SolutionsAscending(totient: seq<nat>, sigma: seq<nat>, t: nat, lo: nat, hi: nat)
    requires 1 <= t < |totient| && t < |sigma| && 1 <= lo && hi <= |totient| && hi <= |sigma|
    ensures forall a, b :: 0 <= a < b < |Solutions(totient, sigma, t, lo, hi)| ==>
      Solutions(totient, sigma, t, lo, hi)[a] < Solutions(totient, sigma, t, lo, hi)[b]
    ensures forall a :: 0 <= a < |Solutions(totient, sigma, t, lo, hi)| ==>
      lo <= Solutions(totient, sigma, t, lo, hi)[a] < hi
  {
    if hi > lo {
      SolutionsAscending(totient, sigma, t, lo, hi - 1);
    }
  }

  /** No index is reported exactly when no i in [lo, hi) has f(i) == f(t). */
  lemma SolutionsEmptyIff(totient: seq<nat>, sigma: seq<nat>, t: nat, lo: nat, hi: nat)
    requires 1 <= t < |totient| && t < |sigma| && 1 <= lo && hi <= |totient| && hi <= |sigma|
    ensures Solutions(totient, sigma, t, lo, hi) == []
        <==> forall i :: lo <= i < hi ==> FOf(totient, sigma, i) != FOf(totient, sigma, t)
  {
    var sols := Solutions(totient, sigma, t, lo, hi);
    if sols != [] {
      SolutionsMembers(totient, sigma, t, lo, hi, sols[0]);
    } else {
      forall i | lo <= i < hi
        ensures FOf(totient, sigma, i) != FOf(totient, sigma, t)
      {
        SolutionsMembers(totient, sigma, t, lo, hi, i);
      }
    }
  }

  /** The printed report: one line per match, then the no-match line when there was none. */
  function Report(solutions: seq<nat>, t: nat): (r: seq<Line>)
    ensures |r| == if solutions == [] then 1 else |solutions|
    ensures NoSolutionsFound in r <==> solutions == []
  {
    if solutions == [] then [NoSolutionsFound]
    else seq(|solutions|, k requires 0 <= k < |solutions| => FoundSolution(solutions[k], t))
  }

  /** A match line for i is printed exactly when i is among the solutions. */
  lemma ReportMembers(solutions: seq<nat>, t: nat, i: nat)
    ensures FoundSolution(i, t) in Report(solutions, t) <==> i in solutions
  {
    if i in solutions {
      var k :| 0 <= k < |solutions| && solutions[k] == i;
      assert Report(solutions, t)[k] == FoundSolution(i, t);
    }
  }

  /**
   * The scan of eq_2.py for a general t: `found` ends true exactly when some
   * i in t + 1 .. min(N, 1000000) has f(i) == f(t), and the lines printed are
   * the matches in ascending order, or the no-match line.
   */
  method Scan(N: nat, totient: seq<nat>, sigma: seq<nat>, t: nat) returns (found: bool, lines: seq<Line>)
    requires |totient| == N + 1 && |sigma| == N + 1 && 1 <= t <= N
    ensures found <==> exists i :: t < i <= Min(N, ScanLimit) && FOf(totient, sigma, i) == FOf(totient, sigma, t)
    ensures lines == Report(Solutions(totient, sigma, t, t + 1, Min(N, ScanLimit) + 1), t)
  {
    var nMax := Min(N, ScanLimit);
    ghost var matches: seq<nat> := [];
    found := false;
    lines := [];
    var i := t + 1;
    while i <= nMax
      invariant t + 1 <= i && (i <= nMax + 1 || i == t + 1)
      invariant matches == Solutions(totient, sigma, t, t + 1, i)
      invariant found <==> matches != []
      invariant lines == seq(|matches|, k requires 0 <= k < |matches| => FoundSolution(matches[k], t))
    {
      if FOf(totient, sigma, i) == FOf(totient, sigma, t) {
        lines := lines + [FoundSolution(i, t)];
        matches := matches + [i];
        found := true;
      }
      i := i + 1;
    }
    if !found {
      lines := lines + [NoSolutionsFound];
    }
    SolutionsEmptyIff(totient, sigma, t, t + 1, i);
  }

  /** The program with t = 3: it reports the i in 4 .. min(N, 1000000) with f(i) == f(3). */
  method Eq2Program(N: nat, totient: seq<nat>, sigma: seq<nat>) returns (lines: seq<Line>)
    requires |totient| == N + 1 && |sigma| == N + 1 && N >= Target
    ensures forall i: nat :: FoundSolution(i, Target) in lines <==>
      Target < i <= Min(N, ScanLimit) && FOf(totient, sigma, i) == FOf(totient, sigma, Target)
    ensures NoSolutionsFound in lines <==>
      forall i :: Target < i <= Min(N, ScanLimit) ==> FOf(totient, sigma, i) != FOf(totient, sigma, Target)
  {
    var found;
    found, lines := Scan(N, totient, sigma, Target);
    ghost var sols := Solutions(totient, sigma, Target, Target + 1, Min(N, ScanLimit) + 1);
    SolutionsEmptyIff(totient, sigma, Target, Target + 1, Min(N, ScanLimit) + 1);
    forall i: nat
      ensures FoundSolution(i, Target) in lines <==>
        Target < i <= Min(N, ScanLimit) && FOf(totient, sigma, i) == FOf(totient, sigma, Target)
    {
      SolutionsMembers(totient, sigma, Target, Target + 1, Min(N, ScanLimit) + 1, i);
      ReportMembers(sols, Target, i);
    }
  }
}
