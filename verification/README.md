# Miller–Rabin pseudoprimes in Dafny

This project models `generate_pseudoprime` from the crypto-attacks repository
(attacks/pseudoprimes/miller_rabin.py), together with its two helpers
`_generate_s` and `_backtrack`. The construction follows Albrecht et al.,
"Prime and Prejudice". Given bases `A`, it looks for a composite
`n = p1*p2*p3` with `p2 = k2*(p1 - 1) + 1` and `p3 = k3*(p1 - 1) + 1`. The
first factor `p1` is fixed modulo `m` so that two things hold:

- every base `a` is a quadratic non-residue of every factor (the factor's
  residue modulo `4a` lies in the *catalog* of `a`);
- `k2` divides `k3*p1 + 1` and `k3` divides `k2*p1 + 1`.

Taken together, these make `n` pass the Miller–Rabin test for every base in `A`.

Modules, in the order the program uses them:

- `Arith`, `Gcds`: modular arithmetic facts, Euclid's `gcd`, extended Euclid.
  Also `pow(x, -1, n)` (`ModInverse`) and `math.lcm` (`Lcm`), each with its
  defining property proved.
- `Primes`: trial-division primality and Sage's `next_prime`. The search for
  the next prime terminates by Euclid's bound `n! + 1`.
- `Kronecker`: Sage's `kronecker(a, p)` for odd positive `p`, computed by
  quadratic reciprocity (`Jacobi`).
- `ChineseRemainder`: Sage's `crt` for moduli that need not be coprime. It
  returns the unique solution below the `lcm`, or `None` where Sage raises
  `ValueError`.
- `Residues`: `_generate_s`, covering the catalog, the transformed copies and
  the admissible residues.
- `Lists`: Python lists updated in place (`append`, `pop`, `sort`).
- `Backtracking`: `_backtrack`, a method over two shared lists with a frame.
- `Pseudoprime`: `generate_pseudoprime`, covering the seeds, the rounds over
  `k3`, the scan for `p1` from line 73's index as written, and the guarantees
  on the triple it returns. `FinishCorrected` is the scan with that index
  rounded up, which also guarantees the size of `n`.
- `Findings`: a concrete input on which the search, with line 73 as written,
  returns a number that is too short.

Sage's `is_prime` (line 78) is a parameter `isPrime: int -> bool` of the
search. The model never assumes it agrees with `IsPrime`, so the guarantees
on a returned triple hold whatever primality test is plugged in. The two
`while True` loops (lines 65 and 74) are bounded by the parameters
`maxTries` and `maxScan`. When a bound is reached, the search ends with the
outcome `GaveUp`.

## Model

| member | source | states |
|---|---|---|
| `Gcds.GcdDivides` | attacks/pseudoprimes/miller_rabin.py:23 | `gcd(a, b)` is a positive common divisor of `a` and `b` |
| `Gcds.GcdGreatest` | attacks/pseudoprimes/miller_rabin.py:23 | every common divisor of `a` and `b` divides `gcd(a, b)` |
| `Gcds.ModInverse` | attacks/pseudoprimes/miller_rabin.py:24 | `pow(k, -1, n)` lies in `[0, n)` and `k` times it is 1 modulo `n` |
| `Gcds.ModInverseUnique` | attacks/pseudoprimes/miller_rabin.py:67 | an inverse modulo `n` in `[0, n)` is unique, so the value is the one Python returns |
| `Gcds.Lcm` | attacks/pseudoprimes/miller_rabin.py:36 | `lcm(*mods)` is a positive common multiple of every modulus |
| `Gcds.LcmLeast` | attacks/pseudoprimes/miller_rabin.py:36 | every common multiple of the moduli is a multiple of `lcm(*mods)` |
| `Gcds.NegCoprime` | attacks/pseudoprimes/miller_rabin.py:67 | `-v` is invertible modulo `p` whenever `v` is, so `pow(-k3, -1, k2)` exists |
| `Primes.NextPrime` | attacks/pseudoprimes/miller_rabin.py:63-64 | `next_prime(n)` is a prime above `n`, and no prime lies strictly between them |
| `Primes.NextPrimeIter` | attacks/pseudoprimes/miller_rabin.py:83 | `NextPrimeIter(k2, t)` with `t >= 1` is the value of `k3` after line 64 and `t - 1` steps of line 83: a prime above `k2` |
| `Primes.EuclidPrime` | attacks/pseudoprimes/miller_rabin.py:8 | some prime lies in `(n, n! + 1]`, so `next_prime` always returns |
| `Primes.DistinctPrimesCoprime` | attacks/pseudoprimes/miller_rabin.py:67 | two distinct primes are coprime, so both inverses of line 67 exist |
| `Primes.OddPrimeCoprimeToFourA` | attacks/pseudoprimes/miller_rabin.py:23 | an odd prime above `a >= 1` is coprime to `4a` |
| `Kronecker.Jacobi` | attacks/pseudoprimes/miller_rabin.py:17 | `kronecker(a, p)` for odd `p` is -1, 0 or 1 |
| `Kronecker.JacobiZeroIffNotCoprime` | attacks/pseudoprimes/miller_rabin.py:17 | `kronecker(a, p)` is 0 exactly when `a` and `p` share a factor |
| `Kronecker.JacobiPeriodic` | attacks/pseudoprimes/miller_rabin.py:17 | `kronecker(a, p)` depends only on `a` modulo `p` |
| `ChineseRemainder.CrtFrom` | attacks/pseudoprimes/miller_rabin.py:42 | the search returns a solution in a range, or `None` exactly when no number in the range is a solution |
| `ChineseRemainder.CrtFromLeast` | attacks/pseudoprimes/miller_rabin.py:42 | the solution the search returns is the least one in the range |
| `ChineseRemainder.Crt` | attacks/pseudoprimes/miller_rabin.py:42 | `crt(rems, mods)` is a solution in `[0, lcm)`, and it is missing (Sage raises `ValueError`) exactly when the system has no solution |
| `ChineseRemainder.CrtUnique` | attacks/pseudoprimes/miller_rabin.py:36 | any solution in `[0, lcm)` is the one `crt` returns |
| `ChineseRemainder.SolutionsCongruent` | attacks/pseudoprimes/miller_rabin.py:36 | two solutions of a system differ by a multiple of the `lcm` |
| `ChineseRemainder.SolvablePrefix` | attacks/pseudoprimes/miller_rabin.py:41-47 | a system stays unsolvable when congruences are appended, so the `except ValueError` branch may prune |
| `ChineseRemainder.SolvesResidueClass` | attacks/pseudoprimes/miller_rabin.py:75 | every `p1` congruent to the `crt` value modulo the `lcm` solves the system |
| `Residues.CatalogBounds` | attacks/pseudoprimes/miller_rabin.py:16 | catalog members are odd and lie in `[1, 4a)` |
| `Residues.BuildCatalog` | attacks/pseudoprimes/miller_rabin.py:15-18 | the loop collects exactly the odd `p < 4a` with `kronecker(a, p) == -1` |
| `Residues.TransformedIff` | attacks/pseudoprimes/miller_rabin.py:24 | `r` is in the transformed set exactly when `k*(r - 1) + 1 mod 4a` is in the catalog: the map of line 24 is inverted by `r ↦ k*(r - 1) + 1` |
| `Residues.IntersectAllIff` | attacks/pseudoprimes/miller_rabin.py:26 | `Sa.intersection(*Sk)` holds exactly the elements of `Sa` that lie in every set of `Sk` |
| `Residues.TransformCatalog` | attacks/pseudoprimes/miller_rabin.py:21-24 | the assertion of line 23 fails exactly when some multiplier shares a factor with `4a`; otherwise the list is one transformed copy per multiplier |
| `Residues.AdmissibleIff` | attacks/pseudoprimes/miller_rabin.py:20-26 | `r` is admissible exactly when `r` and every image `k*(r - 1) + 1 mod 4a` lie in the catalog |
| `Residues.GenerateS` | attacks/pseudoprimes/miller_rabin.py:11-28 | `_generate_s` raises exactly when some base and multiplier are not coprime; otherwise it returns the admissible set of each base, in order |
| `Lists.IntList.Append` | attacks/pseudoprimes/miller_rabin.py:38 | `list.append` adds the element at the end and changes nothing else |
| `Lists.IntList.Pop` | attacks/pseudoprimes/miller_rabin.py:48 | `list.pop` removes and returns the last element |
| `Lists.IntList.Sort` | attacks/pseudoprimes/miller_rabin.py:62 | `A.sort()` leaves the same elements, as a multiset, in ascending order |
| `Lists.Insert` | attacks/pseudoprimes/miller_rabin.py:62 | inserting into a sorted list keeps it sorted and adds exactly one element |
| `Lists.PermutationKeepsPositive` | attacks/pseudoprimes/miller_rabin.py:62 | sorting keeps every base positive |
| `Backtracking.Moduli` | attacks/pseudoprimes/miller_rabin.py:38 | the moduli appended from level `i` on are `4*A[i]`, `4*A[i+1]`, ... |
| `Backtracking.Backtrack` | attacks/pseudoprimes/miller_rabin.py:34-51 | on success the lists are extended by one admissible residue per remaining base, and the result is the `crt` of the whole system with its `lcm`; on failure both lists are as before and no choice of residues makes the system solvable |
| `Backtracking.NoCompletionBelow` | attacks/pseudoprimes/miller_rabin.py:43-45 | when the recursive call fails, no solution starts with `za` |
| `Backtracking.NoCompletionUnsolvable` | attacks/pseudoprimes/miller_rabin.py:41-47 | when `crt` raises after appending `za`, no solution starts with `za` |
| `Backtracking.NoCompletionAtAll` | attacks/pseudoprimes/miller_rabin.py:39-51 | when every member of `S[i]` is ruled out, the level has no solution |
| `Backtracking.CompletionExtends` | attacks/pseudoprimes/miller_rabin.py:43-45 | a solution found one level down, prefixed with `za`, is a solution at this level |
| `Pseudoprime.Seeds` | attacks/pseudoprimes/miller_rabin.py:67 | the seeds lie in `[0, k2)` and `[0, k3)`, with `k2 | k3*s0 + 1` and `k3 | k2*s1 + 1` |
| `Pseudoprime.SeedCongruences` | attacks/pseudoprimes/miller_rabin.py:67-68 | any `p1` meeting the seed congruences has `k2 | k3*p1 + 1` and `k3 | k2*p1 + 1` |
| `Pseudoprime.StartIndexFloor` | attacks/pseudoprimes/miller_rabin.py:73 | as written: `i*m <= 2^(b//3) < (i+1)*m`, so `i*m` can fall below the bound |
| `Pseudoprime.StartIndex` | attacks/pseudoprimes/miller_rabin.py:73 | corrected: the least `i >= 0` with `i*m >= 2^(b//3)` |
| `Pseudoprime.FactorsInCatalog` | attacks/pseudoprimes/miller_rabin.py:69-79 | for every base `a`, each of `p1`, `p2`, `p3` is, modulo `4a`, in the catalog of `a` |
| `Pseudoprime.FactorsInCatalogAt` | attacks/pseudoprimes/miller_rabin.py:76-77 | the catalog condition for one base, from `p1 ≡ r (mod 4a)` with `r` admissible |
| `Pseudoprime.FirstFactorAtLeastTwo` | attacks/pseudoprimes/miller_rabin.py:75 | `p1 = 1` is impossible, since `k3` cannot divide `k2 + 1` |
| `Pseudoprime.SizeBound` | attacks/pseudoprimes/miller_rabin.py:73-79 | with `p1 >= 2^(b//3)` and multipliers at least 3, `n = p1*p2*p3 >= 2^b`, so `n` has more than `b` bits |
| `Pseudoprime.ChoiceSolves` | attacks/pseudoprimes/miller_rabin.py:70-75 | every `p1 = z + i*m` satisfies the seed congruences and the base congruences |
| `Pseudoprime.ConstructionProperties` | attacks/pseudoprimes/miller_rabin.py:75-79 | any `p1 >= 1` in the class `z` modulo `m`, with `p2`, `p3` and `n` computed as lines 76-79 do, meets both divisibility conditions and the catalog condition, and `2 <= p1 < p2 < p3` |
| `Pseudoprime.FactorsIncreasing` | attacks/pseudoprimes/miller_rabin.py:76-77 | with `3 <= k2 < k3` and `p1 >= 2`, `p1 < p2 < p3`: the three factors are distinct |
| `Pseudoprime.CandidateInClass` | attacks/pseudoprimes/miller_rabin.py:75 | every candidate `z + i*m` with `i >= start` is in the class `z` modulo `m` and at or above the candidate of index `start` |
| `Pseudoprime.MultipliersCoprimeToBases` | attacks/pseudoprimes/miller_rabin.py:23 | when the largest base is at least 2, the assertion of line 23 holds for every base |
| `Pseudoprime.BaseOneFails` | attacks/pseudoprimes/miller_rabin.py:63 | when the largest base is 1, `k2 = next_prime(1) = 2` and the assertion of line 23 fails |
| `Pseudoprime.NoCompletionNoChoice` | attacks/pseudoprimes/miller_rabin.py:70-71 | when `_backtrack` fails, no choice of admissible residues is solvable with the seeds |
| `Pseudoprime.RunRound` | attacks/pseudoprimes/miller_rabin.py:67-71 | one round raises exactly when some base and multiplier are not coprime; a usable `z`, `m` is a solvable residue choice; otherwise no choice exists or the one found has `z = 0` |
| `Pseudoprime.Scan` | attacks/pseudoprimes/miller_rabin.py:74-81 | the result is the first candidate `z + i*m`, from `i = start` on, that `is_prime` accepts together with the `p2` and `p3` it determines; giving up means none of the `maxScan` candidates was accepted |
| `Pseudoprime.Finish` | attacks/pseudoprimes/miller_rabin.py:74-81 | a returned triple is the first accepted candidate from `start` on, and meets every guarantee of the construction: the class of `p1`, distinct factors, both divisibility conditions and the catalog condition |
| `Pseudoprime.FloorStartBound` | attacks/pseudoprimes/miller_rabin.py:73 | as written, a `p1` at or above the candidate of the floor index is only guaranteed to be within `m` of `2^(b//3)` |
| `Pseudoprime.FinishCorrected` | attacks/pseudoprimes/miller_rabin.py:73-81 | with line 73 rounded up, a returned triple is the first accepted candidate from the corrected index on, is certified as by `Finish`, and has `p1 >= 2^(b//3)` and `n >= 2^b`; giving up means no candidate in the `maxScan` from that index was accepted |
| `Pseudoprime.CorrectedStartSize` | attacks/pseudoprimes/miller_rabin.py:73 | a `p1` at or above the candidate of the rounded-up index is at least `2^(b//3)`, so `n >= 2^b` |
| `Pseudoprime.EarlierRoundsFailStep` | attacks/pseudoprimes/miller_rabin.py:82-83 | a failed round `t` extends the run of failed rounds before it |
| `Pseudoprime.FindResidues` | attacks/pseudoprimes/miller_rabin.py:63-83 | the rounds raise exactly when the largest base is 1; otherwise every round before round `t` fails (no solvable residue choice, or one giving `z = 0`), a residue found belongs to `k3`, the `t`-th prime after `k2`, with `t <= maxTries`, and running out means all `maxTries` rounds failed |
| `Pseudoprime.Search` | attacks/pseudoprimes/miller_rabin.py:63-83 | `IndexError` exactly for no bases and `AssertionError` exactly when the largest base is 1. Otherwise `k2 = next_prime(max(A))`, `k3` is the `t`-th following prime and every round before `t` failed. A returned triple is the first candidate from line 73's floor index on that `is_prime` accepts, meets every guarantee of the construction, and has `p1 + m > 2^(min_bitsize//3)`. Giving up means either that all `maxTries` rounds failed, or that round `t` gave a residue and none of the `maxScan` candidates from the floor index was accepted |
| `Pseudoprime.GeneratePseudoprime` | attacks/pseudoprimes/miller_rabin.py:54-83 | the caller's list ends up sorted and is a permutation of the original; the outcome is as for `Search` on the sorted list, with the same first round, first candidate and giving-up guarantees |
| `Findings.CatalogOfThree` | attacks/pseudoprimes/miller_rabin.py:15-18 | the catalog of the base 3 is `{5, 7}` |
| `Findings.AdmissibleForThree` | attacks/pseudoprimes/miller_rabin.py:20-26 | for the base 3 and the multipliers 5, 7, only the residue 7 is admissible |
| `Findings.SeedsForThree` | attacks/pseudoprimes/miller_rabin.py:67 | `pow(-7, -1, 5) == 2` and `pow(-5, -1, 7) == 4` |
| `Findings.CrtForThree` | attacks/pseudoprimes/miller_rabin.py:70 | `crt([2, 4, 7], [5, 7, 12]) == 67` |
| `Findings.ChoiceForcedForThree` | attacks/pseudoprimes/miller_rabin.py:67-71 | for the bases `[3]` every residue choice gives `z = 67` and `m = 420` |
| `Findings.ThreeFactorsPrime` | attacks/pseudoprimes/miller_rabin.py:78 | 67, 331 and 463 are prime |
| `Findings.FloorStartTooShort` | attacks/pseudoprimes/miller_rabin.py:73 | with bases `[3]` and `min_bitsize = 26`, the floor start index is 0, its candidate gives the primes 67, 331 and 463 with `n = 10267951 < 2^24`; the corrected index is 1 |
| `Findings.RoundSucceedsForThree` | attacks/pseudoprimes/miller_rabin.py:67-71 | the round for the bases `[3]` with `k2 = 5`, `k3 = 7` does not fail |
| `Findings.FirstRoundForThree` | attacks/pseudoprimes/miller_rabin.py:63-71 | for the bases `[3]` the search stops at its first round, with `k2 = 5` and `k3 = 7` |
| `Findings.ResidueOfSearchForThree` | attacks/pseudoprimes/miller_rabin.py:67-71 | once that round is the one used, the residue is `z = 67` modulo `m = 420` |
| `Findings.SearchOutcomeForThree` | attacks/pseudoprimes/miller_rabin.py:73-81 | with that residue and the floor start index 0, the scan cannot give up and returns its first candidate, `(10267951, 67, 331, 463)` |
| `Findings.FloorSearchForThree` | attacks/pseudoprimes/miller_rabin.py:62-83 | the search as written on the bases `[3]` with `min_bitsize = 26`, for any `maxTries, maxScan >= 1` and any `is_prime` that accepts 67, 331 and 463, returns `(10267951, 67, 331, 463)`, and `n` has 24 bits |

## Left out

- Logging (lines 66 and 72) is not modelled.
- Sage's `is_prime` (line 78) is an oracle parameter; its internals are not part of this model.
- The Miller–Rabin theorem itself is left out. The model proves the number-theoretic conditions the construction is built on (the catalog condition for every base and factor, and the two divisibility conditions); the step from these to "every base is a strong liar for `n`" is not stated.
- Search: line 73 is modelled as written, so `Search` does not promise that `n` has more than `min_bitsize` bits; `FinishCorrected` does, for the corrected index (see Findings).
- Search: the two `while True` loops run at most `maxTries` rounds of `k3` and `maxScan` candidates of `p1`. Running out is the outcome `GaveUp`, which the source never returns.
- Search: `min_bitsize` is a natural number. A negative value makes `2 ** (min_bitsize // 3)` a float in Python, so `i` and `p1` would be computed in floating point; that path is not modelled.
- Search: bases must be positive integers. Non-positive bases make `range(1, 4*a, 2)` empty in the source; that path is not modelled.
- Search: the source does not reject even bases, so neither does the model, although the construction is meant for odd bases.
- Residues.GenerateS: Python sets are unordered, and the model iterates `S[i]` in an unspecified order. The contracts of `Backtrack` therefore say which residues can be returned, not which one the source returns first.
- Backtracking.Backtrack: the `crt` of line 36 is reached only through the recursive call on line 43, inside the caller's `try` (lines 41-47), and only just after a successful `crt` on the same lists. The model requires that the system at the last level be solvable, which that call guarantees, so the `ValueError` it would catch cannot arise there.
- Kronecker.Jacobi: only the Jacobi case of Sage's `kronecker` (odd positive second argument) is defined, since line 17 never calls it otherwise.
- Gcds.ModInverse: `pow(x, -1, n)` raises `ValueError` for a non-invertible `x`. The model requires invertibility. Line 23 asserts it before the call of line 24. At line 67 it holds because `k2` and `k3` are distinct primes (lines 63-64 and 83), so each is invertible modulo the other (`Primes.DistinctPrimesCoprime`, `Gcds.NegCoprime`).
- Primes.NextPrime: Sage's implementation is replaced by a trial-division search. Both give the least prime above `n`.

## Findings

| source | as written | input that shows it | evidently intended | confidence | as-written member | corrected member |
|---|---|---|---|---|---|---|
| attacks/pseudoprimes/miller_rabin.py:73 | `i = (2 ** (min_bitsize // 3)) // m` rounds down, so the first candidate `p1 = z + i*m` can lie below `2^(min_bitsize // 3)` | `A = [3]`, `min_bitsize = 26`: `k2 = 5`, `k3 = 7`, `z = 67`, `m = 420`, `i = 0`; `67`, `331`, `463` are prime and `n = 10267951` has 24 bits | round up instead, `i = ceil(2^(min_bitsize // 3) / m)`, so that `p1 >= 2^(min_bitsize // 3)` and `n` has more than `min_bitsize` bits; `FinishCorrected` scans from this index, while `Search` keeps line 73 as written | high, proved; not executed | `Findings.FloorSearchForThree` | `Pseudoprime.FinishCorrected` |
