/** `generate_pseudoprime` (attacks/pseudoprimes/miller_rabin.py, lines 54-83):
    the construction of a composite `n = p1*p2*p3` with `p2 = k2*(p1 - 1) + 1`
    and `p3 = k3*(p1 - 1) + 1`, where `p1` is chosen modulo `m` so that every
    base is a non-residue of every factor (the residue catalog) and so that
    `k2 | k3*p1 + 1` and `k3 | k2*p1 + 1`. */
module Pseudoprime {
  import opened Arith
  import opened Gcds
  import opened Primes
  import opened ChineseRemainder
  import opened Residues
  import opened Backtracking
  import opened Lists

  /** What `generate_pseudoprime` returns or raises. `GaveUp` stands for the
      two unbounded `while True` loops running past the given number of rounds. */
  datatype Outcome =
    | Found(n: int, p1: int, p2: int, p3: int)
    | IndexError
    | AssertionError
    | GaveUp

  /** Line 67: `[pow(-k3, -1, k2), pow(-k2, -1, k3)]`. The first seed times `k3`
      is `-1` modulo `k2`, the second times `k2` is `-1` modulo `k3`. */
  function Seeds(k2: int, k3: int): (r: seq<int>)
    requires IsPrime(k2) && IsPrime(k3) && k2 != k3
    ensures |r| == 2 && 0 <= r[0] < k2 && 0 <= r[1] < k3
    ensures (k3 * r[0] + 1) % k2 == 0 && (k2 * r[1] + 1) % k3 == 0
  {
    DistinctPrimesCoprime(k2, k3);
    DistinctPrimesCoprime(k3, k2);
    NegCoprime(k3, k2);
    NegCoprime(k2, k3);
    var r0 := ModInverse(-k3, k2);
    var r1 := ModInverse(-k2, k3);
    NegInverse(k3, k2, r0);
    NegInverse(k2, k3, r1);
    [r0, r1]
  }

  /** An inverse of `-q` modulo `p` makes `q*r + 1` a multiple of `p`. */
  lemma NegInverse(q: int, p: int, r: int)
    requires p >= 2 && ((-q) * r) % p == 1 % p
    ensures (q * r + 1) % p == 0
  {
    DivModUnique(1, p, 0, 1);
    CongruentIffDividesDifference((-q) * r, 1, p);
    NegMultiple((-q) * r - 1, p);
    assert -((-q) * r - 1) == q * r + 1;
  }

  lemma NegMultiple(x: int, p: int)
    requires p > 0 && x % p == 0
    ensures (-x) % p == 0
  {
    var w := ExactQuotient(x, p);
    assert -x == (-w) * p;
    MultipleMod(-w, p);
  }

  /** Line 73 as corrected: the least `i` with `i*m >= 2^(min_bitsize // 3)`. */
  function StartIndex(b: nat, m: int): (r: int)
    requires m > 0
    ensures r >= 0 && r * m >= Pow2(b / 3)
    ensures r == 0 || (r - 1) * m < Pow2(b / 3)
  {
    var P := Pow2(b / 3);
    var q := (P + m - 1) / m;
    assert P + m - 1 == q * m + (P + m - 1) % m;
    assert (q - 1) * m == q * m - m;
    q
  }

  /** Line 73 as written: `(2 ** (min_bitsize // 3)) // m`, the greatest `i`
      with `i*m <= 2^(min_bitsize // 3)`. It starts the scan below the bound
      whenever `m` does not divide the power of two. */
  function StartIndexFloor(b: nat, m: int): (r: int)
    requires m > 0
    ensures r >= 0 && r * m <= Pow2(b / 3) < (r + 1) * m
  {
    var P := Pow2(b / 3);
    var q := P / m;
    assert P == q * m + P % m;
    assert (q + 1) * m == q * m + m;
    q
  }

  /** The residues `c` and the solution `z` modulo `m` that the search settles on:
      one admissible residue per base, solved together with the seeds by `crt`,
      and `m` the `lcm` of all the moduli. */
  predicate ResidueChoice(A: seq<int>, k2: int, k3: int, c: seq<int>, z: int, m: int)
    requires AllPositive(A) && IsPrime(k2) && IsPrime(k3) && k2 != k3
  {
    var mods := [k2, k3] + Moduli(A, 0);
    |c| == |A| &&
    (forall j :: 0 <= j < |A| ==> MultipliersCoprime(A[j], [k2, k3]) && c[j] in Admissible(A[j], [k2, k3])) &&
    AllPositive(mods) && Crt(Seeds(k2, k3) + c, mods) == Some(z) && m == Lcm(mods)
  }

  /** Lines 76-79: the second and third factors are determined by the first. */
  predicate FactorShape(k2: int, k3: int, p1: int, p2: int, p3: int, n: int)
  {
    p2 == k2 * (p1 - 1) + 1 && p3 == k3 * (p1 - 1) + 1 && n == p1 * p2 * p3
  }

  /** `k2` divides `k3*p1 + 1` and `k3` divides `k2*p1 + 1`. */
  predicate SeedConditions(k2: int, k3: int, p1: int)
    requires k2 > 0 && k3 > 0
  {
    (k3 * p1 + 1) % k2 == 0 && (k2 * p1 + 1) % k3 == 0
  }

  /** Every base is, through its catalog, a non-residue of each factor. */
  predicate FactorsInCatalogs(A: seq<int>, p1: int, p2: int, p3: int)
    requires AllPositive(A)
  {
    forall j :: 0 <= j < |A| ==>
      p1 % (4 * A[j]) in Catalog(A[j]) && p2 % (4 * A[j]) in Catalog(A[j]) && p3 % (4 * A[j]) in Catalog(A[j])
  }

  /** `k*(p - 1) + 1` modulo `n` depends only on `p` modulo `n`. */
  lemma AffineMod(k: int, p: int, n: int)
    requires n > 0
    ensures (k * (p - 1) + 1) % n == (k * (p % n - 1) + 1) % n
  {
    var q := p / n;
    assert k * (p - 1) + 1 == (k * (p % n - 1) + 1) + (k * q) * n by {
      assert p == q * n + p % n;
    }
    ModAddMultiple(k * (p % n - 1) + 1, k * q, n);
  }

  /** `k*x + 1` modulo `n` depends only on `x` modulo `n`. */
  lemma LinearCongruent(k: int, x: int, y: int, n: int)
    requires n > 0 && x % n == y % n
    ensures (k * x + 1) % n == (k * y + 1) % n
  {
    ModMulRight(k, x, n);
    ModMulRight(k, y, n);
    ModAddLeft(k * x, 1, n);
    ModAddLeft(k * y, 1, n);
  }

  /** Any `p1` congruent to the seeds satisfies `k2 | k3*p1 + 1` and `k3 | k2*p1 + 1`. */
  lemma SeedCongruences(k2: int, k3: int, p1: int)
    requires IsPrime(k2) && IsPrime(k3) && k2 != k3
    requires Solves(p1, Seeds(k2, k3), [k2, k3])
    ensures (k3 * p1 + 1) % k2 == 0 && (k2 * p1 + 1) % k3 == 0
  {
    var s := Seeds(k2, k3);
    DivModUnique(s[0], k2, 0, s[0]);
    DivModUnique(s[1], k3, 0, s[1]);
    LinearCongruent(k3, p1, s[0], k2);
    LinearCongruent(k2, p1, s[1], k3);
  }

  /** For every base `a`, each of the three factors is congruent modulo `4a` to a
      member of the catalog of `a`: a residue modulo `4a` of the primes for
      which `a` is a quadratic non-residue. */
  lemma FactorsInCatalog(A: seq<int>, k2: int, k3: int, c: seq<int>, p1: int, p2: int, p3: int)
    requires AllPositive(A) && |c| == |A|
    requires forall j :: 0 <= j < |A| ==> MultipliersCoprime(A[j], [k2, k3]) && c[j] in Admissible(A[j], [k2, k3])
    requires Solves(p1, c, Moduli(A, 0))
    requires p2 == k2 * (p1 - 1) + 1 && p3 == k3 * (p1 - 1) + 1
    ensures FactorsInCatalogs(A, p1, p2, p3)
  {
    forall j | 0 <= j < |A|
      ensures p1 % (4 * A[j]) in Catalog(A[j])
      ensures p2 % (4 * A[j]) in Catalog(A[j])
      ensures p3 % (4 * A[j]) in Catalog(A[j])
    {
      assert Moduli(A, 0)[j] == 4 * A[j];
      FactorsInCatalogAt(A[j], k2, k3, c[j], p1);
    }
  }

  /** The catalog condition for one base `a`, with `p1 ≡ r (mod 4a)` for an admissible `r`. */
  lemma FactorsInCatalogAt(a: int, k2: int, k3: int, r: int, p1: int)
    requires MultipliersCoprime(a, [k2, k3]) && r in Admissible(a, [k2, k3])
    requires p1 % (4 * a) == r % (4 * a)
    ensures p1 % (4 * a) in Catalog(a)
    ensures (k2 * (p1 - 1) + 1) % (4 * a) in Catalog(a)
    ensures (k3 * (p1 - 1) + 1) % (4 * a) in Catalog(a)
  {
    var n := 4 * a;
    CatalogBounds(a, r);
    DivModUnique(r, n, 0, r);
    AdmissibleIff(a, [k2, k3], r);
    assert [k2, k3][0] == k2 && [k2, k3][1] == k3;
    AffineMod(k2, p1, n);
    AffineMod(k3, p1, n);
  }

  /** `p1 = 1` would need `k3 | k2 + 1`, impossible for odd primes `k2 < k3`. */
  lemma FirstFactorAtLeastTwo(k2: int, k3: int, p1: int)
    requires IsPrime(k2) && IsPrime(k3) && 2 < k2 < k3
    requires p1 >= 1 && (k2 * p1 + 1) % k3 == 0
    ensures p1 >= 2
  {
    assert k2 % 2 == 1 && k3 % 2 == 1;
    if p1 == 1 {
      DivisorAtMost(k3, k2 + 1);
    }
  }

  lemma MulMonotone(a: int, b: int, c: int, d: int)
    requires 0 <= a <= b && 0 <= c <= d
    ensures a * c <= b * d
  {
    assert a * c <= b * c;
    assert b * c <= b * d;
  }

  /** A factor `k*(p1 - 1) + 1` with `k >= 3` is at least `2*p1`. */
  lemma FactorAtLeastDouble(k: int, p1: int)
    requires k >= 3 && p1 >= 2
    ensures k * (p1 - 1) + 1 >= 2 * p1
  {
    MulMonotone(3, k, p1 - 1, p1 - 1);
  }

  /** With `p1 >= 2^(b // 3)` and multipliers at least 3, `n = p1*p2*p3` is at
      least `2^b`, so it has more than `b` bits. */
  lemma SizeBound(k2: int, k3: int, p1: int, b: nat)
    requires k2 >= 3 && k3 >= 3 && p1 >= 2 && p1 >= Pow2(b / 3)
    ensures p1 * (k2 * (p1 - 1) + 1) * (k3 * (p1 - 1) + 1) >= Pow2(b)
  {
    var t := b / 3;
    FactorAtLeastDouble(k2, p1);
    FactorAtLeastDouble(k3, p1);
    ProductAtLeast(p1, k2 * (p1 - 1) + 1, k3 * (p1 - 1) + 1);
    CubeAtLeast(p1, t);
    Pow2Monotone(b, 3 * t + 2);
  }

  /** `p1*p2*p3 >= 4*p1^3` when `p2` and `p3` are at least `2*p1`. */
  lemma ProductAtLeast(p1: int, p2: int, p3: int)
    requires p1 >= 0 && p2 >= 2 * p1 && p3 >= 2 * p1
    ensures p1 * p2 * p3 >= 4 * (p1 * p1 * p1)
  {
    MulMonotone(p1, p1, 2 * p1, p2);
    MulMonotone(p1 * (2 * p1), p1 * p2, 2 * p1, p3);
    assert p1 * (2 * p1) * (2 * p1) == 4 * (p1 * p1 * p1);
  }

  /** `p1 >= 2^t` gives `4*p1^3 >= 2^(3t + 2)`. */
  lemma CubeAtLeast(p1: int, t: nat)
    requires p1 >= Pow2(t)
    ensures 4 * (p1 * p1 * p1) >= Pow2(3 * t + 2)
  {
    var P := Pow2(t);
    MulMonotone(P, p1, P, p1);
    MulMonotone(P * P, p1 * p1, P, p1);
    Pow2Add(t, t);
    Pow2Add(t + t, t);
    Pow2Add(2, 3 * t);
    assert Pow2(2) == 4;
    assert 3 * t + 2 == 2 + 3 * t;
  }

  /** What the construction guarantees for any positive `p1` in the residue
      class `z` modulo `m`, with `p2`, `p3` and `n` as lines 76-79 compute them: the
      two divisibility conditions, the catalog condition for every base and
      factor, and three distinct factors. */
  lemma ConstructionProperties(A: seq<int>, k2: int, k3: int, c: seq<int>, z: int, m: int,
                               p1: int, p2: int, p3: int, n: int)
    requires AllPositive(A) && IsPrime(k2) && IsPrime(k3) && 2 < k2 < k3
    requires ResidueChoice(A, k2, k3, c, z, m)
    requires p1 % m == z && p1 >= 1 && FactorShape(k2, k3, p1, p2, p3, n)
    ensures SeedConditions(k2, k3, p1)
    ensures FactorsInCatalogs(A, p1, p2, p3)
    ensures 2 <= p1 < p2 < p3
  {
    var seeds := Seeds(k2, k3);
    ChoiceSolves(A, k2, k3, c, z, m, p1);
    SolvesAppend(p1, seeds, c, [k2, k3], Moduli(A, 0));
    SeedCongruences(k2, k3, p1);
    FactorsInCatalog(A, k2, k3, c, p1, p2, p3);
    FirstFactorAtLeastTwo(k2, k3, p1);
    FactorsIncreasing(k2, k3, p1, p2, p3);
  }

  /** With `3 <= k2 < k3` and `p1 >= 2`, the factors `p1`, `p2 = k2*(p1 - 1) + 1`
      and `p3 = k3*(p1 - 1) + 1` strictly increase. */
  lemma FactorsIncreasing(k2: int, k3: int, p1: int, p2: int, p3: int)
    requires 3 <= k2 < k3 && p1 >= 2
    requires p2 == k2 * (p1 - 1) + 1 && p3 == k3 * (p1 - 1) + 1
    ensures p1 < p2 < p3
  {
    FactorAtLeastDouble(k2, p1);
    MulAtLeast(k3 - k2, p1 - 1);
    assert k3 * (p1 - 1) == k2 * (p1 - 1) + (k3 - k2) * (p1 - 1);
  }

  /** Every `p1` congruent to `z` modulo `m` solves the whole system. */
  lemma ChoiceSolves(A: seq<int>, k2: int, k3: int, c: seq<int>, z: int, m: int, p1: int)
    requires AllPositive(A) && IsPrime(k2) && IsPrime(k3) && k2 != k3
    requires ResidueChoice(A, k2, k3, c, z, m)
    requires p1 % m == z
    ensures Solves(p1, Seeds(k2, k3) + c, [k2, k3] + Moduli(A, 0))
  {
    var rems, mods := Seeds(k2, k3) + c, [k2, k3] + Moduli(A, 0);
    assert Crt(rems, mods) == Some(z);
    SolvesResidueClass(z, p1, rems, mods);
  }

  /** With the largest base at least 2, both multipliers are odd primes above
      every base, so the assertion of line 23 holds. */
  lemma MultipliersCoprimeToBases(A: seq<int>, k2: int, k3: int)
    requires AllPositive(A) && Sorted(A) && |A| > 0 && A[|A| - 1] >= 2
    requires IsPrime(k2) && IsPrime(k3) && A[|A| - 1] < k2 < k3
    ensures forall j :: 0 <= j < |A| ==> MultipliersCoprime(A[j], [k2, k3])
  {
    forall j | 0 <= j < |A|
      ensures MultipliersCoprime(A[j], [k2, k3])
    {
      OddPrimeCoprimeToFourA(k2, A[j]);
      OddPrimeCoprimeToFourA(k3, A[j]);
    }
  }

  /** With all bases equal to 1, `k2 = next_prime(1) = 2` shares the factor 2 with `4*1`. */
  lemma BaseOneFails(A: seq<int>, k3: int)
    requires |A| > 0 && A[|A| - 1] == 1
    ensures NextPrime(1) == 2
    ensures !MultipliersCoprime(A[|A| - 1], [NextPrime(1), k3])
  {
    assert IsPrime(2);
    var ks := [NextPrime(1), k3];
    assert ks[0] == 2;
    assert Gcd(2, 4) == 2;
    assert Gcd(ks[0], 4 * A[|A| - 1]) != 1;
  }

  /** What one round of lines 67-71 ends in. */
  datatype Round =
    | Raised              // the assertion of line 23 failed inside `_generate_s`
    | NoResidue           // `if z and m` is false: try the next `k3`
    | Residue(z: int, m: int)

  /** No choice of one admissible residue per base makes the seed congruences
      and the base congruences solvable together. */
  ghost predicate NoChoice(A: seq<int>, k2: int, k3: int)
    requires AllPositive(A) && IsPrime(k2) && IsPrime(k3) && k2 != k3
  {
    forall c :: IsChoice(A, k2, k3, c) ==> !Solvable(Seeds(k2, k3) + c, [k2, k3] + Moduli(A, 0))
  }

  /** `c` takes one admissible residue for each base. */
  predicate IsChoice(A: seq<int>, k2: int, k3: int, c: seq<int>)
  {
    |c| == |A| &&
    forall j :: 0 <= j < |A| ==> MultipliersCoprime(A[j], [k2, k3]) && c[j] in Admissible(A[j], [k2, k3])
  }

  /** A failed `_backtrack` over the admissible sets leaves no residue choice. */
  lemma NoCompletionNoChoice(S: seq<set<int>>, A: seq<int>, k2: int, k3: int)
    requires AllPositive(A) && IsPrime(k2) && IsPrime(k3) && k2 != k3 && |S| == |A|
    requires forall j :: 0 <= j < |A| ==> MultipliersCoprime(A[j], [k2, k3]) && S[j] == Admissible(A[j], [k2, k3])
    requires !Completable(S, A, 0, Seeds(k2, k3), [k2, k3])
    ensures NoChoice(A, k2, k3)
  {
    forall c | IsChoice(A, k2, k3, c)
      ensures !Solvable(Seeds(k2, k3) + c, [k2, k3] + Moduli(A, 0))
    {
      assert !Completes(S, A, 0, Seeds(k2, k3), [k2, k3], c);
    }
  }

  /** Lines 67-71 for one pair of multipliers: the seeds, the residue sets, the
      backtracking search and the truth test on its result. */
  method RunRound(A: seq<int>, k2: int, k3: int) returns (r: Round, ghost c: seq<int>)
    requires AllPositive(A) && |A| > 0 && IsPrime(k2) && IsPrime(k3) && k2 != k3
    ensures r.Raised? <==> exists j :: 0 <= j < |A| && !MultipliersCoprime(A[j], [k2, k3])
    ensures r.Residue? ==> r.z != 0 && r.m != 0 && ResidueChoice(A, k2, k3, c, r.z, r.m)
    ensures r.NoResidue? ==> NoChoice(A, k2, k3) || exists m :: ResidueChoice(A, k2, k3, c, 0, m)
  {
    c := [];
    var seeds := Seeds(k2, k3);
    var rems := new IntList(seeds);
    var mods := new IntList([k2, k3]);
    var s := GenerateS(A, [k2, k3]);
    if s.None? {
      return Raised, c;
    }
    var res := Backtrack(s.value, A, rems, mods, 0);
    if res.Some? && res.value.0 != 0 && res.value.1 != 0 {
      c := rems.items[2..];
      assert rems.items == seeds + c;
      return Residue(res.value.0, res.value.1), c;
    }
    if res.None? {
      NoCompletionNoChoice(s.value, A, k2, k3);
    } else {
      c := rems.items[2..];
      assert rems.items == seeds + c;
      assert ResidueChoice(A, k2, k3, c, 0, res.value.1);
    }
    return NoResidue, c;
  }

  /** Line 75: the `i`-th candidate for the first factor. */
  function Candidate(z: int, m: int, i: int): int
  {
    z + i * m
  }

  /** Line 78: `is_prime` accepts the first factor and the two it determines. */
  predicate Accepted(isPrime: int -> bool, k2: int, k3: int, p1: int)
  {
    isPrime(p1) && isPrime(k2 * (p1 - 1) + 1) && isPrime(k3 * (p1 - 1) + 1)
  }

  /** `z + i*m` is the first candidate from index `start` on that `isPrime` accepts. */
  predicate FirstAccepted(isPrime: int -> bool, k2: int, k3: int, z: int, m: int, start: int, i: int)
  {
    start <= i && Accepted(isPrime, k2, k3, Candidate(z, m, i)) &&
    forall j :: start <= j < i ==> !Accepted(isPrime, k2, k3, Candidate(z, m, j))
  }

  /** `isPrime` accepts none of the `count` candidates from index `start` on. */
  predicate NoneAccepted(isPrime: int -> bool, k2: int, k3: int, z: int, m: int, start: int, count: int)
  {
    forall j :: start <= j < start + count ==> !Accepted(isPrime, k2, k3, Candidate(z, m, j))
  }

  /** Lines 74-81: try `p1 = z + i*m` for `i = start, start + 1, ...`, at most
      `maxScan` candidates, and return the first one `isPrime` accepts. */
  method Scan(z: int, m: int, k2: int, k3: int, start: nat, isPrime: int -> bool, maxScan: nat)
    returns (r: Outcome, i: int)
    requires 0 <= z < m
    ensures r.Found? || r.GaveUp?
    ensures r.Found? ==> i < start + maxScan && r.p1 == Candidate(z, m, i) &&
                         FirstAccepted(isPrime, k2, k3, z, m, start, i) && FactorShape(k2, k3, r.p1, r.p2, r.p3, r.n)
    ensures r.GaveUp? ==> NoneAccepted(isPrime, k2, k3, z, m, start, maxScan)
  {
    i := start;
    while i < start + maxScan
      invariant start <= i <= start + maxScan
      invariant forall j :: start <= j < i ==> !Accepted(isPrime, k2, k3, Candidate(z, m, j))
    {
      var p1 := z + i * m;
      var p2 := k2 * (p1 - 1) + 1;
      var p3 := k3 * (p1 - 1) + 1;
      if isPrime(p1) && isPrime(p2) && isPrime(p3) {
        return Found(p1 * p2 * p3, p1, p2, p3), i;
      }
      assert !Accepted(isPrime, k2, k3, Candidate(z, m, i));
      i := i + 1;
    }
    return GaveUp, i;
  }

  /** Everything the construction promises about a returned triple `r`: it was
      built from the residue choice `c`, `z`, `m` for the multipliers `k2 < k3`,
      `p1` lies in the class `z` modulo `m` at or above the candidate the scan
      starts from, `p2` and `p3` follow from `p1`, the three factors are
      distinct, `is_prime` accepted all three, `k2 | k3*p1 + 1` and
      `k3 | k2*p1 + 1`, and every base is a non-residue of every factor through
      its catalog. */
  predicate Certified(A: seq<int>, isPrime: int -> bool, k2: int, k3: int,
                      c: seq<int>, z: int, m: int, start: int, r: Outcome)
    requires AllPositive(A)
  {
    r.Found? && IsPrime(k2) && IsPrime(k3) && 2 < k2 < k3 &&
    ResidueChoice(A, k2, k3, c, z, m) && z != 0 &&
    r.p1 % m == z && r.p1 >= Candidate(z, m, start) &&
    FactorShape(k2, k3, r.p1, r.p2, r.p3, r.n) && 2 <= r.p1 < r.p2 < r.p3 &&
    Accepted(isPrime, k2, k3, r.p1) &&
    SeedConditions(k2, k3, r.p1) &&
    FactorsInCatalogs(A, r.p1, r.p2, r.p3)
  }

  /** Lines 74-81 once `_backtrack` has produced `z` and `m`: the scan from the
      index `start`, with what the construction guarantees about the triple it
      accepts. */
  method Finish(A: seq<int>, isPrime: int -> bool, maxScan: nat,
                k2: int, k3: int, ghost c: seq<int>, z: int, m: int, start: nat)
    returns (r: Outcome, ghost i: int)
    requires AllPositive(A) && IsPrime(k2) && IsPrime(k3) && 2 < k2 < k3
    requires ResidueChoice(A, k2, k3, c, z, m) && z != 0
    ensures r.Found? || r.GaveUp?
    ensures r.Found? ==> Certified(A, isPrime, k2, k3, c, z, m, start, r)
    ensures r.Found? ==> i < start + maxScan && r.p1 == Candidate(z, m, i) && FirstAccepted(isPrime, k2, k3, z, m, start, i)
    ensures r.GaveUp? ==> NoneAccepted(isPrime, k2, k3, z, m, start, maxScan)
  {
    r, i := Scan(z, m, k2, k3, start, isPrime, maxScan);
    if r.Found? {
      FoundCertified(A, isPrime, k2, k3, c, z, m, start, i, r);
    }
  }

  /** A candidate `z + i*m` with `i >= start` that `isPrime` accepted is certified. */
  lemma FoundCertified(A: seq<int>, isPrime: int -> bool, k2: int, k3: int,
                       c: seq<int>, z: int, m: int, start: nat, i: int, r: Outcome)
    requires AllPositive(A) && IsPrime(k2) && IsPrime(k3) && 2 < k2 < k3
    requires ResidueChoice(A, k2, k3, c, z, m) && z != 0
    requires r.Found? && start <= i && r.p1 == Candidate(z, m, i)
    requires Accepted(isPrime, k2, k3, r.p1) && FactorShape(k2, k3, r.p1, r.p2, r.p3, r.n)
    ensures Certified(A, isPrime, k2, k3, c, z, m, start, r)
  {
    assert 0 <= z < m;
    CandidateInClass(z, m, start, i);
    ConstructionProperties(A, k2, k3, c, z, m, r.p1, r.p2, r.p3, r.n);
  }

  /** Candidates from index `start` on lie in the class `z` modulo `m`, at or above the first. */
  lemma CandidateInClass(z: int, m: int, start: nat, i: int)
    requires 0 <= z < m && start <= i
    ensures Candidate(z, m, i) % m == z
    ensures Candidate(z, m, i) >= Candidate(z, m, start) >= z
  {
    DivModUnique(z + i * m, m, i, z);
    MulMonotone(start, i, m, m);
  }

  /** Lines 72-81 with line 73 corrected: the scan starts at the least `i` with
      `z + i*m >= 2^(b // 3)`, so a returned `n` has more than `b` bits. */
  method FinishCorrected(A: seq<int>, b: nat, isPrime: int -> bool, maxScan: nat,
                         k2: int, k3: int, ghost c: seq<int>, z: int, m: int)
    returns (r: Outcome, ghost i: int)
    requires AllPositive(A) && IsPrime(k2) && IsPrime(k3) && 2 < k2 < k3
    requires ResidueChoice(A, k2, k3, c, z, m) && z != 0
    ensures r.Found? || r.GaveUp?
    ensures r.Found? ==> Certified(A, isPrime, k2, k3, c, z, m, StartIndex(b, m), r)
    ensures r.Found? ==> r.p1 == Candidate(z, m, i) && FirstAccepted(isPrime, k2, k3, z, m, StartIndex(b, m), i)
    ensures r.Found? ==> r.p1 >= Pow2(b / 3) && r.n >= Pow2(b)
    ensures r.GaveUp? ==> NoneAccepted(isPrime, k2, k3, z, m, StartIndex(b, m), maxScan)
  {
    r, i := Finish(A, isPrime, maxScan, k2, k3, c, z, m, StartIndex(b, m));
    if r.Found? {
      CorrectedStartSize(k2, k3, z, m, b, r.p1, r.p2, r.p3, r.n);
    }
  }

  /** A first factor at or above the candidate of index `StartIndex(b, m)` is at
      least `2^(b // 3)`, so `n` has more than `b` bits. */
  lemma CorrectedStartSize(k2: int, k3: int, z: int, m: int, b: nat, p1: int, p2: int, p3: int, n: int)
    requires k2 >= 3 && k3 >= 3 && 0 <= z < m && p1 >= 2
    requires p1 >= Candidate(z, m, StartIndex(b, m)) && FactorShape(k2, k3, p1, p2, p3, n)
    ensures p1 >= Pow2(b / 3) && n >= Pow2(b)
  {
    SizeBound(k2, k3, p1, b);
  }

  /** Line 73 as written: a first factor at or above the candidate of index
      `StartIndexFloor(b, m)` is within `m` of `2^(b // 3)`, and no more can be said. */
  lemma FloorStartBound(z: int, m: int, b: nat, p1: int)
    requires 0 <= z < m && p1 >= Candidate(z, m, StartIndexFloor(b, m))
    ensures p1 + m > Pow2(b / 3)
  {
    var i := StartIndexFloor(b, m);
    assert (i + 1) * m == i * m + m;
  }

  /** One round of lines 67-71 for the multipliers `k2` and `k3` cannot end in a
      usable residue: either no choice of residues is solvable, or `_backtrack`
      may return `z = 0`, which the test `if z and m` rejects. */
  ghost predicate RoundFails(A: seq<int>, k2: int, k3: int)
  {
    AllPositive(A) && IsPrime(k2) && IsPrime(k3) && k2 != k3 &&
    (NoChoice(A, k2, k3) || exists c, m :: ResidueChoice(A, k2, k3, c, 0, m))
  }

  /** Rounds `1 .. t-1`, with `k3` the first, second, ... prime above `k2`, all fail. */
  ghost predicate EarlierRoundsFail(A: seq<int>, k2: int, t: int)
  {
    forall u :: 1 <= u < t ==> RoundFails(A, k2, NextPrimeIter(k2, u))
  }

  /** A failed round `t` extends the failed rounds before it. */
  lemma EarlierRoundsFailStep(A: seq<int>, k2: int, t: nat)
    requires EarlierRoundsFail(A, k2, t) && RoundFails(A, k2, NextPrimeIter(k2, t))
    ensures EarlierRoundsFail(A, k2, t + 1)
  {
    forall u | 1 <= u < t + 1
      ensures RoundFails(A, k2, NextPrimeIter(k2, u))
    {
      if u == t {
        assert NextPrimeIter(k2, u) == NextPrimeIter(k2, t);
      }
    }
  }

  /** Lines 63-71 and 82-83: try `k3 = next_prime(k2)`, then each following
      prime, for at most `maxTries` rounds, until `_backtrack` yields a usable
      `z` and `m`. It raises at once when the largest base is 1 (then `k2 = 2`
      and the assertion of line 23 fails); `NoResidue` means the rounds ran out. */
  method FindResidues(A: seq<int>, k2: int, maxTries: nat)
    returns (r: Round, k3: int, ghost t: nat, ghost c: seq<int>)
    requires AllPositive(A) && Sorted(A) && |A| > 0 && k2 == NextPrime(A[|A| - 1])
    ensures r.Raised? <==> maxTries > 0 && A[|A| - 1] == 1
    ensures !r.Raised? ==> 1 <= t <= maxTries + 1 && k3 == NextPrimeIter(k2, t) && EarlierRoundsFail(A, k2, t)
    ensures r.NoResidue? ==> t == maxTries + 1
    ensures r.Residue? ==> t <= maxTries
    ensures r.Residue? ==> IsPrime(k2) && IsPrime(k3) && 2 < k2 < k3
    ensures r.Residue? ==> ResidueChoice(A, k2, k3, c, r.z, r.m) && r.z != 0
  {
    var top := A[|A| - 1];
    k3 := NextPrime(k2);
    t, c := 1, [];
    var tries := 0;
    while tries < maxTries
      invariant tries <= maxTries && t == tries + 1
      invariant k3 == NextPrimeIter(k2, t)
      invariant top == 1 ==> tries == 0
      invariant EarlierRoundsFail(A, k2, t)
    {
      var round, choice := RunRound(A, k2, k3);
      if round.Raised? {
        if top >= 2 {
          MultipliersCoprimeToBases(A, k2, k3);
        }
        return Raised, k3, t, c;
      }
      if top == 1 {
        BaseOneFails(A, k3);
      }
      if round.Residue? {
        return round, k3, t, choice;
      }
      assert RoundFails(A, k2, NextPrimeIter(k2, t));
      EarlierRoundsFailStep(A, k2, t);
      k3 := NextPrime(k3);
      tries, t := tries + 1, t + 1;
    }
    return NoResidue, k3, t, c;
  }

  /** Lines 62-83 on bases already sorted by line 62. The two `while True`
      loops run at most `maxTries` and `maxScan` rounds; `isPrime` is Sage's
      `is_prime`, taken as given. No bases at all raise at line 63, bases all
      equal to 1 raise the assertion of line 23, and a returned triple is
      certified for the multipliers `k2 = next_prime(max(A))` and `k3`, the
      `t`-th prime above `k2`, with the scan started at line 73's index
      `(2 ** (min_bitsize // 3)) // m`. That index rounds down, so `p1` is only
      guaranteed to be within `m` of `2^(min_bitsize // 3)`, not above it. */
  method Search(A: seq<int>, minBitsize: nat, isPrime: int -> bool, maxTries: nat, maxScan: nat)
    returns (r: Outcome, ghost k2: int, ghost k3: int, ghost t: nat, ghost c: seq<int>,
             ghost z: int, ghost m: int, ghost i: int)
    requires AllPositive(A) && Sorted(A)
    ensures r.IndexError? <==> |A| == 0
    ensures r.AssertionError? <==> |A| > 0 && maxTries > 0 && A[|A| - 1] == 1
    ensures |A| > 0 ==> k2 == NextPrime(A[|A| - 1])
    ensures r.Found? || r.GaveUp? ==>
              |A| > 0 && 1 <= t <= maxTries + 1 && k3 == NextPrimeIter(k2, t) && EarlierRoundsFail(A, k2, t)
    ensures r.GaveUp? ==>
              t == maxTries + 1 ||
              (IsPrime(k2) && IsPrime(k3) && 2 < k2 < k3 && ResidueChoice(A, k2, k3, c, z, m) && z != 0 &&
               NoneAccepted(isPrime, k2, k3, z, m, StartIndexFloor(minBitsize, m), maxScan))
    ensures r.Found? ==> t <= maxTries && m > 0 && Certified(A, isPrime, k2, k3, c, z, m, StartIndexFloor(minBitsize, m), r)
    ensures r.Found? ==> r.p1 == Candidate(z, m, i) && FirstAccepted(isPrime, k2, k3, z, m, StartIndexFloor(minBitsize, m), i)
    ensures r.Found? ==> r.p1 + m > Pow2(minBitsize / 3)
  {
    k2, k3, t, c, z, m, i := 0, 0, 0, [], 0, 0, 0;
    if |A| == 0 {
      return IndexError, k2, k3, t, c, z, m, i;
    }
    var q2 := NextPrime(A[|A| - 1]);
    var round, q3;
    round, q3, t, c := FindResidues(A, q2, maxTries);
    k2, k3 := q2, q3;
    match round {
      case Raised =>
        r := AssertionError;
      case NoResidue =>
        r := GaveUp;
      case Residue(rz, rm) =>
        z, m := rz, rm;
        var start := StartIndexFloor(minBitsize, rm);
        r, i := Finish(A, isPrime, maxScan, q2, q3, c, rz, rm, start);
        if r.Found? {
          FloorStartBound(rz, rm, minBitsize, r.p1);
        }
    }
  }

  /** `generate_pseudoprime(A, min_bitsize)`: sorts the caller's list of bases in
      place (line 62) and runs the search of lines 63-83 on it. */
  method GeneratePseudoprime(A: IntList, minBitsize: nat, isPrime: int -> bool, maxTries: nat, maxScan: nat)
    returns (r: Outcome, ghost k2: int, ghost k3: int, ghost t: nat, ghost c: seq<int>,
             ghost z: int, ghost m: int, ghost i: int)
    requires AllPositive(A.items)
    modifies A
    ensures Sorted(A.items) && multiset(A.items) == multiset(old(A.items))
    ensures AllPositive(A.items)
    ensures r.IndexError? <==> |A.items| == 0
    ensures r.AssertionError? <==> |A.items| > 0 && maxTries > 0 && A.items[|A.items| - 1] == 1
    ensures |A.items| > 0 ==> k2 == NextPrime(A.items[|A.items| - 1])
    ensures r.Found? || r.GaveUp? ==>
              |A.items| > 0 && 1 <= t <= maxTries + 1 && k3 == NextPrimeIter(k2, t) && EarlierRoundsFail(A.items, k2, t)
    ensures r.GaveUp? ==>
              t == maxTries + 1 ||
              (IsPrime(k2) && IsPrime(k3) && 2 < k2 < k3 && ResidueChoice(A.items, k2, k3, c, z, m) && z != 0 &&
               NoneAccepted(isPrime, k2, k3, z, m, StartIndexFloor(minBitsize, m), maxScan))
    ensures r.Found? ==> t <= maxTries && m > 0 && Certified(A.items, isPrime, k2, k3, c, z, m, StartIndexFloor(minBitsize, m), r)
    ensures r.Found? ==> r.p1 == Candidate(z, m, i) && FirstAccepted(isPrime, k2, k3, z, m, StartIndexFloor(minBitsize, m), i)
    ensures r.Found? ==> r.p1 + m > Pow2(minBitsize / 3)
  {
    A.Sort();
    PermutationKeepsPositive(old(A.items), A.items);
    r, k2, k3, t, c, z, m, i := Search(A.items, minBitsize, isPrime, maxTries, maxScan);
  }
}
