# Prime-power sieves, f(n) = φ(n)σ(n)/n², and a brace remover, in Dafny

This project models the computational core of an extended-essay toolkit about
the arithmetic function f(n) = φ(n)·σ(n)/n², and proves what each part computes.

- **funcs.py `init_pfactorize`**: a list of Python `Counter`s. Each prime i sweeps
  the multiples of i, i², i³, … ≤ N, and the floor-division guard
  `pow_i > N // i` stops the power loop before a stride passes N.
- **get_data.cpp `init_pfactorize`**: one sieve that builds three tables at once.
  - `pfactorize[n]`, the multiset of n's prime factors.
  - φ, by the in-place update `phi = phi / p * (p - 1)`.
  - σ, by multiplying in 1 + p + … + p^α.
  - `main` then prints `i phi[i] sigma[i]` for i = 1..N.
- **precompute_phigma.cpp**: an `is_prime` sieve that multiplies φ and σ
  together from prime-power contributions p^α − p^(α−1) and (p^(α+1) − 1)/(p − 1).
- **precompute_g.cpp**: the same sieve on numerator/denominator pairs g[n].
  - Each pair is multiplied by (p^(α+1) − 1)/p^(α+1) and immediately divided by
    the gcd of its two halves.
  - The pair ends as f(n) in lowest terms.
- **eq_2.py**: f(x) as an exact `Fraction`.
  - A scan over i = t + 1 … min(N, 1000000), with t = 3, reports every i with
    f(i) = f(t).
  - It ends with "No solutions found." when there is none.
- **wordcount.py**:
  - `remove_commands_with_braces` finds `\cmd{`, walks a depth counter to the
    matching `}` and splices the span out. When the group is never closed, it
    cuts up to the end of the line instead.
  - The brace step of `strip_other_commands` turns every remaining brace into a
    space.

## How it is organised

Shared mathematics:

- `divisibility.dfy`: division facts, `Pow`, `IsPrime`, `Gcd`, Bézout and Euclid.
- `valuation.dfy`: the p-adic valuation `Val`.
- `multiplicative.dfy`: the prime-power contributions `Local` and their
  products over the primes below m.
  - φ and σ are defined as the product of the prime-power contributions over
    the prime factorisation, and the sieves are proved to compute exactly these.
  - The g numerator and denominator are defined the same way.
- `rationals.dfy`: `Fraction` and `Reduce` (division by the gcd). It proves that
  the reduced form is the unique lowest-terms form of a rational.
- `factorization.dfy`: the multiset of prime factors with multiplicity, and
  products of exponent tables.
- `sieve_steps.dfy`: the loops shared by the C++ sieves.
  - Clearing the multiples 2p, 3p, ….
  - The `while (j % (p_pow * p) == 0)` power search.
  - The output rows.

One file per source program: `funcs.dfy`, `get_data.dfy`, `precompute_phigma.dfy`,
`precompute_g.dfy`, `eq2.dfy` and `wordcount.dfy`.

The C++ and Python state is modelled in imperative form:

- The global tables are `array`s, and each source loop is a `while`/`for` loop
  with invariants.
- Each inner sweep over multiples is its own method.
- A Python `Counter` is a `map<nat, nat>`, and `c[q] += 1` becomes `Increment`.
- A C++ `multiset<int>` is a Dafny `multiset<nat>`.
- Integers are unbounded and the bound N is a parameter.
- Index 0 of every C++ global keeps its zero value, and the model states this.

Notes on the code as written:

- eq_2.py raises no error for an entry that was never loaded: the tables are
  zero-filled lists, so such an entry gives f(x) = 0. `Eq2.FOf` takes the tables
  as given.
- In precompute_phigma.cpp, `is_prime[1]` is left `true` (only index 0 is
  false), unlike precompute_g.cpp, which clears both. `PrecomputePhigma.Sieve`
  states `isPrime[1]` as the code leaves it. The outer loop starts at 2, so the
  entry is never read.

## Model

| member | source | states |
|---|---|---|
| Funcs.InitPfactorize | extended_essay/testing/funcs.py:14-27 | from empty Counters, pfactorize[n] ends as the Counter of n's prime factors with multiplicity for every n in 1..N; entries 0 and 1 stay empty |
| Funcs.SweepPowers | extended_essay/testing/funcs.py:21-27 | for a prime i ≤ N, the power loop leaves every k ≤ N counting i exactly Val(i, k) times, and every stride pow_i it uses stays ≤ N (loop invariant) |
| Funcs.SweepPower | extended_essay/testing/funcs.py:23-24 | the sweep of stride i^e ≤ N gives each multiple of i^e its e-th count of i and changes nothing else |
| Funcs.FloorDivGuard | extended_essay/testing/funcs.py:25-26 | the guard `pow_i > N // i` with floor division holds exactly when pow_i · i > N |
| Funcs.Increment | extended_essay/testing/funcs.py:24 | `c[q] += 1` raises q's count by one (a missing key counts 0), adds q to the keys and leaves every other count alone |
| Funcs.CounterOfInsert | extended_essay/testing/funcs.py:24 | incrementing the Counter of a multiset is the Counter of the multiset with one more element |
| Funcs.CounterOfEmptyIff | extended_essay/testing/funcs.py:18-19 | a Counter is falsy (empty) exactly when it counts nothing, so `if pfactorize[i]: continue` skips exactly the i with some smaller prime factor |
| Funcs.CounterMeaning | extended_essay/testing/funcs.py:16-27 | the keys of the final Counter of n are exactly the primes dividing n, each mapped to Val(p, n) ≥ 1 (no zero counts); the Counter of 1 is empty |
| Funcs.CounterProduct | extended_essay/testing/funcs.py:16-27 | the product of p^count over the final Counter of n is n |
| Factorization.FactorsBelowSelfEmptyIff | extended_essay/testing/get_data.cpp:15-16 | when the outer loop reaches i ≥ 2, no prime below i has been recorded for i exactly when i is prime |
| Factorization.FactorsCount | extended_essay/testing/get_data.cpp:18-22 | a prime p below m occurs Val(p, n) times in the multiset of n's prime factors below m, and nothing else occurs |
| Factorization.PrimeFactorsProduct | extended_essay/testing/get_data.cpp:18-22 | the product of n's prime factors taken with multiplicity is n |
| Factorization.FactorsOfOne | extended_essay/testing/get_data.cpp:15-22 | the multiset of prime factors of 1 below any bound m is empty |
| GetData.InitPfactorize | extended_essay/testing/get_data.cpp:9-35 | on zero-initialised tables with empty multisets, for every n in 1..N: pfactorize[n] is n's prime factors with multiplicity, phi[n] = φ(n) and sigma[n] = σ(n); index 0 is untouched |
| GetData.InitTables | extended_essay/testing/get_data.cpp:10-13 | the first loop sets phi[i] = i and sigma[i] = 1 for i in 1..N and leaves index 0 alone |
| GetData.SieveStart | extended_essay/testing/get_data.cpp:10-15 | before the outer loop the tables already hold the values over the primes below 2: no factors, phi[k] = k (all of k still unprocessed), sigma[k] = 1 |
| GetData.Pass | extended_essay/testing/get_data.cpp:15-33 | one round of the outer loop turns the tables over the primes below i into those over the primes up to i, whether i is skipped or swept |
| GetData.SweepPowers | extended_essay/testing/get_data.cpp:18-22 | for a prime p, the nested power and multiple loops insert p into the multiset of every k ≤ N exactly Val(p, k) times |
| GetData.SweepPower | extended_essay/testing/get_data.cpp:19-21 | the sweep of stride p^e inserts the e-th copy of p into every multiple of p^e and nothing else |
| GetData.PowerSum | extended_essay/testing/get_data.cpp:27-31 | the while loop stops at p_power = p^Val(p, j), the largest power dividing j, with sum_p_power = 1 + p + … + p^Val(p, j) |
| GetData.TotientStep | extended_essay/testing/get_data.cpp:25 | for a prime p dividing k, `phi / p` is exact, and `phi / p * (p - 1)` moves the factor p^Val(p,k) of k's not-yet-processed part into φ(p^Val(p,k)) |
| GetData.SigmaStep | extended_essay/testing/get_data.cpp:32 | `sigma[j] *= sum_p_power` multiplies σ(p^Val(p, j)) into the divisor sum over the primes below p |
| GetData.SweepTotientSigma | extended_essay/testing/get_data.cpp:24-33 | the sweep over multiples of a prime p updates phi by `phi / p * (p - 1)` and multiplies sigma by σ(p^α), leaving non-multiples unchanged |
| GetData.SkipComposite | extended_essay/testing/get_data.cpp:15-16 | a skipped composite outer index changes no table entry, and the sieve state before it is already the state after it |
| GetData.SieveComplete | extended_essay/testing/get_data.cpp:15-34 | once the outer loop passes N, every entry holds its final value: prime factors, φ(n) and σ(n) |
| GetData.IndexOne | extended_essay/testing/get_data.cpp:10-13 | index 1 keeps an empty multiset and phi[1] = sigma[1] = 1, which are φ(1) and σ(1) |
| GetData.GetDataTable | extended_essay/testing/get_data.cpp:38-46 | main prints exactly N lines, the k-th being `k φ(k) σ(k)`, in ascending k |
| SieveSteps.OutputRows | extended_essay/testing/get_data.cpp:41-43 | the output loop produces one row `i a[i] b[i]` per i = 1..N, in order |
| SieveSteps.ClearMultiples | extended_essay/testing/cpp_scripts/precompute_phigma.cpp:20-21 | `for (k = 2*p; k <= N; k += p) is_prime[k] = false` clears exactly the multiples of p above p and keeps every other entry |
| SieveSteps.LargestPowerDividing | extended_essay/testing/cpp_scripts/precompute_phigma.cpp:26-28 | the while loop ends with p_pow = p^Val(p, j): p_pow divides j and p_pow · p does not |
| Divisibility.PrimeIffNoSmallerPrimeDivides | extended_essay/testing/cpp_scripts/precompute_phigma.cpp:17-21 | p is prime exactly when p ≥ 2 and no smaller prime divides it, both directions: is_prime[p] survives the clearing of the multiples of all smaller primes exactly when p is prime |
| Multiplicative.PhiPPAsDifference | extended_essay/testing/cpp_scripts/precompute_phigma.cpp:32 | φ(p^α) = p^α − p^α / p, the division being exact |
| Multiplicative.SigmaPPAsQuotient | extended_essay/testing/cpp_scripts/precompute_phigma.cpp:33 | (p^(α+1) − 1) is divisible by p − 1 and the quotient is 1 + p + … + p^α |
| Multiplicative.GeometricSum | extended_essay/testing/get_data.cpp:27-31 | (p − 1)(1 + p + … + p^α) = p^(α+1) − 1 |
| PrecomputePhigma.Contributions | extended_essay/testing/cpp_scripts/precompute_phigma.cpp:29-33 | dphi = p_pow − p_pow / p is φ(p^α) and dsig = (p_pow·p − 1)/(p − 1) is an exact division equal to σ(p^α) |
| PrecomputePhigma.SweepPrime | extended_essay/testing/cpp_scripts/precompute_phigma.cpp:24-36 | the sweep over multiples of a prime p multiplies each phi[j], sigma[j] by p's contribution, turning the products over primes below p into those over primes up to p |
| PrecomputePhigma.InitTables | extended_essay/testing/cpp_scripts/precompute_phigma.cpp:11-14 | the initialisation loop sets phi[i] = sigma[i] = 1 and is_prime[i] = true for i in 1..N and leaves index 0 alone |
| PrecomputePhigma.Pass | extended_essay/testing/cpp_scripts/precompute_phigma.cpp:17-36 | one round of the outer loop: afterwards phi and sigma are the products over the primes up to p and is_prime[k] says that k has no divisor in 2..p (other than itself); indices 0 and 1 keep their entries |
| PrecomputePhigma.SkipComposite | extended_essay/testing/cpp_scripts/precompute_phigma.cpp:18 | skipping a composite p loses nothing: the tables are already the products over the primes up to p |
| PrecomputePhigma.SieveComplete | extended_essay/testing/cpp_scripts/precompute_phigma.cpp:17-37 | once p passes N, phi[n] = φ(n), sigma[n] = σ(n) and is_prime[n] is exactly primality for n ≥ 2 |
| PrecomputePhigma.Sieve | extended_essay/testing/cpp_scripts/precompute_phigma.cpp:9-37 | afterwards phi[n] = φ(n) and sigma[n] = σ(n) for n in 1..N, is_prime[n] tells primality for n in 2..N, index 0 keeps its zeros and is_prime[1] is left true |
| PrecomputePhigma.PhigmaTable | extended_essay/testing/cpp_scripts/precompute_phigma.cpp:47-52 | the rows written are `i φ(i) σ(i)` for i = 1..N in order |
| Multiplicative.LocalGIdentity | extended_essay/testing/cpp_scripts/precompute_g.cpp:27-34 | φ(p^α)·σ(p^α)·p^(α+1) = (p^(α+1) − 1)·p^(2α): the g contribution is φ(p^α)σ(p^α)/p^(2α) |
| Multiplicative.FEqualsG | extended_essay/testing/cpp_scripts/precompute_g.cpp:18-43 | the product of the g contributions over n's prime powers equals φ(n)σ(n)/n² as a rational |
| Multiplicative.GBelowOne | extended_essay/testing/cpp_scripts/precompute_g.cpp:25-42 | for n ≥ 2 the unreduced g numerator is strictly below its denominator |
| Rationals.Reduce | extended_essay/testing/cpp_scripts/precompute_g.cpp:39-41 | dividing both halves by their gcd gives coprime halves with a positive denominator and the same rational value |
| Rationals.ReduceMultiply | extended_essay/testing/cpp_scripts/precompute_g.cpp:37-41 | multiplying a reduced pair and reducing again gives the reduction of the unreduced product: reducing after every step loses nothing |
| Rationals.CanonicalUnique | extended_essay/testing/cpp_scripts/precompute_g.cpp:39-41 | two lowest-terms pairs with positive denominators that stand for the same rational are equal |
| Rationals.ReduceEqualIff | extended_essay/testing/eq_2.py:21 | two reduced fractions are equal exactly when the cross products of the unreduced ones agree, in both directions |
| PrecomputeG.Contribution | extended_essay/testing/cpp_scripts/precompute_g.cpp:27-34 | num = p_pow·p − 1 and den = p_pow·p are the numerator and denominator factors of p^α's contribution |
| PrecomputeG.StepReduces | extended_essay/testing/cpp_scripts/precompute_g.cpp:37-41 | one multiply-and-reduce step turns the reduced value over primes below p into the reduced value over primes up to p |
| PrecomputeG.MultiplyReduce | extended_essay/testing/cpp_scripts/precompute_g.cpp:37-41 | g[j] becomes the reduction of (first·num, second·den) and no other entry changes |
| PrecomputeG.SweepPrime | extended_essay/testing/cpp_scripts/precompute_g.cpp:25-42 | the sweep over multiples of a prime p moves every g[k] from the reduced product over primes below p to the one over primes up to p |
| PrecomputeG.InitTables | extended_essay/testing/cpp_scripts/precompute_g.cpp:11-14 | the initialisation loop sets g[i] = {1, 1} and is_prime[i] = true for i in 1..N and leaves index 0 alone |
| PrecomputeG.SieveStart | extended_essay/testing/cpp_scripts/precompute_g.cpp:11-12 | the pair {1, 1} is the reduced empty product, the value over the primes below 2 |
| PrecomputeG.Pass | extended_essay/testing/cpp_scripts/precompute_g.cpp:18-42 | one round of the outer loop: afterwards g[k] is the reduced product over the primes up to p and is_prime[k] says that k has no divisor in 2..p (other than itself); indices 0 and 1 keep their entries |
| PrecomputeG.SkipComposite | extended_essay/testing/cpp_scripts/precompute_g.cpp:19 | skipping a composite p loses nothing: g is already the reduced product over the primes up to p |
| PrecomputeG.SieveComplete | extended_essay/testing/cpp_scripts/precompute_g.cpp:18-43 | once p passes N, g[n] = G(n) and is_prime[n] is exactly primality for n ≥ 2 |
| PrecomputeG.Sieve | extended_essay/testing/cpp_scripts/precompute_g.cpp:9-43 | g[n] ends as G(n) in lowest terms for n in 1..N, is_prime[n] tells primality for n in 0..N, and g[0] keeps the zero pair |
| PrecomputeG.GMeaning | extended_essay/testing/cpp_scripts/precompute_g.cpp:11-43 | g[n] is φ(n)σ(n)/n² in lowest terms; g[1] = 1/1; for n ≥ 2 the numerator is below the denominator |
| PrecomputeG.G | extended_essay/testing/cpp_scripts/precompute_g.cpp:37-41 | the final pair is in lowest terms with a positive denominator |
| PrecomputeG.GTable | extended_essay/testing/cpp_scripts/precompute_g.cpp:52-57 | the rows written are `i num den` with num/den = φ(i)σ(i)/i² in lowest terms, for i = 1..N in order |
| Eq2.FOf | extended_essay/testing/eq_2.py:12-13 | f(x) is a lowest-terms fraction with positive denominator standing for exactly totient[x]·sigma[x]/x² |
| Eq2.SameValueIff | extended_essay/testing/eq_2.py:21 | f(i) == f(t) exactly when totient[i]·sigma[i]·t² = totient[t]·sigma[t]·i² |
| Eq2.FOfMatchesG | extended_essay/testing/eq_2.py:12-13 | on tables holding φ and σ, f(x) is the pair precompute_g builds for x |
| Eq2.SolutionsMembers | extended_essay/testing/eq_2.py:20-22 | an index is reported exactly when it lies in the scanned range and f(i) == f(t) |
| Eq2.SolutionsAscending | extended_essay/testing/eq_2.py:20-23 | the reported indices are strictly ascending and inside the scanned range |
| Eq2.SolutionsEmptyIff | extended_essay/testing/eq_2.py:25-26 | nothing is reported exactly when no i in the range has f(i) == f(t) |
| Eq2.Report | extended_essay/testing/eq_2.py:20-26 | the printed lines: one per match, or the single no-match line exactly when there is no match |
| Eq2.ReportMembers | extended_essay/testing/eq_2.py:21-23 | a match line for i is printed exactly when i is among the solutions |
| Eq2.Scan | extended_essay/testing/eq_2.py:11-26 | `found` ends true exactly when some i in t+1..min(N, 1000000) has f(i) == f(t), and the printed lines are the matches in ascending order, or the no-match line |
| Eq2.Eq2Program | extended_essay/testing/eq_2.py:11-26 | with t = 3, `Found solution f(i) = f(3)` is printed exactly for the i in 4..min(N, 1000000) with f(i) == f(3), and "No solutions found." exactly when there is none in that range |
| WordCount.MatchAt | phys_IA/src/wordcount.py:59 | the pattern `\\cmd\s*\{` matches at s exactly when s holds a backslash, then the command name ignoring case, whitespace and `{`; the brace position is returned |
| WordCount.SkipSpace | phys_IA/src/wordcount.py:59 | `\s*` consumes the longest run of whitespace: everything before the result is whitespace and the result is not |
| WordCount.SearchFromLeftmost | phys_IA/src/wordcount.py:61-63 | `pat.search` returns the leftmost match, and nothing exactly when the pattern matches nowhere |
| WordCount.ClosingFromFirst | phys_IA/src/wordcount.py:66-76 | the brace found is a `}` where the depth first returns to 0, with the depth positive before it; with none, the depth stays positive to the end of the text |
| WordCount.MatchingBrace | phys_IA/src/wordcount.py:66-76 | the depth-counting loop returns exactly the matching closing brace of the `{`, or nothing |
| WordCount.NextNewline | phys_IA/src/wordcount.py:79-81 | `text.find('\n', p)` with -1 read as len(text) is the first newline at or after p, or the end |
| WordCount.Replace | phys_IA/src/wordcount.py:82-84 | `text[:start] + ' ' + text[stop:]` keeps the prefix, puts one space, then the suffix from stop |
| WordCount.SpliceShape | phys_IA/src/wordcount.py:77-84 | one round shortens the text; with a match it cuts a brace group of depth 0 through its `}`, otherwise up to the next newline |
| WordCount.RoundKeeps | phys_IA/src/wordcount.py:60-84 | one round of the while loop keeps the text the loop ends with and strictly shortens it, so `while True` terminates |
| WordCount.RemoveAllClears | phys_IA/src/wordcount.py:60-63 | on leaving the loop for a command no `\cmd`, whitespace, `{` remains, the text is no longer, and it is unchanged exactly when there was no occurrence |
| WordCount.RemoveCommand | phys_IA/src/wordcount.py:60-84 | the while loop for one command yields the text with its occurrences spliced out leftmost first; on exit the pattern matches nowhere and the text is no longer than before |
| WordCount.RemoveEachShorter | phys_IA/src/wordcount.py:57-85 | removing a list of commands never lengthens the text |
| WordCount.RemoveCommandsWithBraces | phys_IA/src/wordcount.py:52-85 | the commands are processed in list order, the result is no longer than the input, and the last command matches nowhere in it |
| WordCount.ReplaceChar | phys_IA/src/wordcount.py:98 | `str.replace(c, ' ')` keeps the length, keeps every other character and leaves no c |
| WordCount.StripBraces | phys_IA/src/wordcount.py:98 | after the two replacements no `{` or `}` is left, the length is unchanged, braces became spaces and every other character is in place |

## Left out

- File loading in funcs.py (extended_essay/testing/funcs.py:5-10) is not modelled. Each line `a b c` there sets totient[a] = b and sigma[a] = c. eq_2.py's tables are parameters of `Eq2.Scan` instead.
- Console progress messages of eq_2.py (lines 6, 14, 17) are not modelled. The model keeps only the reported lines.
- C++ file output is not modelled: directory creation, the CSV writers and `cout`. The printed rows are returned as a sequence of `Row` values.
- `unsigned long long` wrap-around and the fixed sizes N = 1000000 and N = 10000000 are not modelled. All integers are unbounded and N is a parameter.
  - The only overflow guard in the source, `pow_i > N // i` in funcs.py, is modelled exactly (`Funcs.FloorDivGuard`).
  - get_data.cpp's `pow *= i` loop has no such guard. It is modelled with unbounded integers.
- Multiplicative.Phi: φ(n) is defined by the prime-power product formula, not as the count of k ≤ n coprime to n; that equivalence is not proved.
- Multiplicative.Sigma: σ(n) is defined by the same product formula, not as the sum of n's divisors; that equivalence is not proved.
- The sieve methods are proved on every N. Which entries the outer loop reads in the C++ sieves (index 1 of precompute_phigma's is_prime is never read) is stated, not used.
- WordCount.MatchAt: command letters are compared with ASCII case folding only. Python's IGNORECASE on str patterns also lets a few non-ASCII letters match (U+017F for s, U+212A for k, U+0130 and U+0131 for i). Those matches are not modelled.
- The regex-only passes of wordcount.py are not modelled because they are thin wrappers over Python's `re`:
  - `remove_regex_patterns` (lines 27-49).
  - The substitutions of `strip_other_commands` other than the brace step (lines 90-95 and 101).
  - Whitespace collapsing and token counting (lines 119-125).
- File reading, encodings and globbing (`read_file`, `main`) are not modelled.
- The scraper in gather_stats/gather_stats.py is not part of this model. It is HTTP and HTML parsing only.
