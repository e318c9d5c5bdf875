/** The start index of the scan at line 73 of attacks/pseudoprimes/miller_rabin.py
    is `(2 ** (min_bitsize // 3)) // m`, a floor. When `m` does not divide the
    power of two, the first candidate `p1 = z + i*m` lies below
    `2^(min_bitsize // 3)` and the returned `n` can be shorter than
    `min_bitsize` bits. With the bases `[3]` and `min_bitsize = 26` the
    construction is forced to `z = 67`, `m = 420`, the floor gives `i = 0`, and
    `67`, `331`, `463` are all prime, so `n = 10267951`, which has 24 bits. */
module Findings {
  import opened Arith
  import opened Gcds
  import opened Primes
  import opened Kronecker
  import opened ChineseRemainder
  import opened Residues
  import opened Backtracking
  import opened Pseudoprime

  /** No number in `[lo, hi]` divides `p`, checked one by one. */
  function NoDivisorIn(p: int, lo: int, hi: int): (r: bool)
    requires lo >= 1
    ensures r ==> forall d :: lo <= d <= hi ==> p % d != 0
    decreases hi - lo
  {
    lo > hi || (p % lo != 0 && NoDivisorIn(p, lo + 1, hi))
  }

  /** Trial division up to `s` suffices once `(s + 1)^2` exceeds `p`. */
  lemma PrimeBySmallDivisors(p: int, s: int)
    requires p >= 2 && s >= 1 && (s + 1) * (s + 1) > p
    requires forall d :: 2 <= d <= s ==> p % d != 0
    ensures IsPrime(p)
  {
    forall d | 2 <= d < p
      ensures p % d != 0
    {
      if p % d == 0 && d > s {
        var e := ExactQuotient(p, d);
        CofactorSmall(p, d, e, s);
        assert p == d * e;
        MultipleMod(d, e);
        assert false;
      }
    }
  }

  /** In `p == e*d` with `s < d < p` and `(s + 1)^2 > p`, the cofactor `e` lies in `[2, s]`. */
  lemma CofactorSmall(p: int, d: int, e: int, s: int)
    requires p >= 2 && s >= 1 && (s + 1) * (s + 1) > p && s < d < p && p == e * d
    ensures 2 <= e <= s
  {
  }

  lemma ThreeFactorsPrime()
    ensures IsPrime(67) && IsPrime(331) && IsPrime(463)
  {
    assert NoDivisorIn(67, 2, 8);
    PrimeBySmallDivisors(67, 8);
    assert NoDivisorIn(331, 12, 18);
    assert NoDivisorIn(331, 2, 11);
    PrimeBySmallDivisors(331, 18);
    assert NoDivisorIn(463, 12, 21);
    assert NoDivisorIn(463, 2, 11);
    PrimeBySmallDivisors(463, 21);
  }

  // `kronecker(3, p)` for the odd `p` below 12, one reciprocity step at a time.
  lemma JacobiOneThree() ensures Jacobi(1, 3) == 1 { assert Jacobi(3, 1) == 1; }
  lemma JacobiFiveThree() ensures Jacobi(5, 3) == -1 { JacobiOneThree(); }
  lemma JacobiSevenThree() ensures Jacobi(7, 3) == 1 { assert Jacobi(3, 1) == 1; }
  lemma JacobiElevenThree() ensures Jacobi(11, 3) == -1 { JacobiOneThree(); }
  lemma JacobiThreeOne() ensures Jacobi(3, 1) == 1 { }
  lemma JacobiThreeThree() ensures Jacobi(3, 3) == 0 { }
  lemma JacobiThreeFive() ensures Jacobi(3, 5) == -1 { JacobiFiveThree(); }
  lemma JacobiThreeSeven() ensures Jacobi(3, 7) == -1 { JacobiSevenThree(); }
  lemma JacobiThreeNine() ensures Jacobi(3, 9) == 0 { assert Jacobi(9, 3) == 0; }
  lemma JacobiThreeEleven() ensures Jacobi(3, 11) == 1 { JacobiElevenThree(); }

  /** For the base 3 the catalog is `{5, 7}`: `kronecker(3, p) == -1` for
      `p = 5, 7` and not for `p = 1, 3, 9, 11`. */
  lemma CatalogOfThree()
    ensures Catalog(3) == {5, 7}
  {
    JacobiThreeOne();
    JacobiThreeThree();
    JacobiThreeFive();
    JacobiThreeSeven();
    JacobiThreeNine();
    JacobiThreeEleven();
    forall p | p in Catalog(3)
      ensures p == 5 || p == 7
    {
      var h := p / 2;
      assert p == 2 * h + 1 && 0 <= h < 6;
      assert h == 0 || h == 1 || h == 2 || h == 3 || h == 4 || h == 5;
    }
  }

  /** With the multipliers 5 and 7 only the residue 7 survives: `5*(5 - 1) + 1`
      is 9 modulo 12, outside the catalog, while 7 maps to 7 under both. */
  lemma AdmissibleForThree()
    ensures MultipliersCoprime(3, [5, 7])
    ensures Admissible(3, [5, 7]) == {7}
  {
    FiveNotAdmissible();
    SevenAdmissible();
    CatalogOfThree();
  }

  /** `5*(5 - 1) + 1` is 9 modulo 12, and 9 is not in the catalog. */
  lemma FiveNotAdmissible()
    ensures MultipliersCoprime(3, [5, 7]) && 5 !in Admissible(3, [5, 7])
  {
    var ks := [5, 7];
    ImagesModTwelve();
    assert MultipliersCoprime(3, ks);
    AdmissibleIff(3, ks, 5);
    JacobiThreeNine();
    assert 9 !in Catalog(3);
  }

  /** 7 is in the catalog and both multipliers send it to 7 modulo 12. */
  lemma SevenAdmissible()
    ensures MultipliersCoprime(3, [5, 7]) && 7 in Admissible(3, [5, 7])
  {
    var ks := [5, 7];
    ImagesModTwelve();
    assert MultipliersCoprime(3, ks);
    JacobiThreeSeven();
    assert 7 in Catalog(3);
    AdmissibleIff(3, ks, 7);
  }

  /** Both multipliers are coprime to 12; they send 5 to 9 and 7 to 7 modulo 12. */
  lemma ImagesModTwelve()
    ensures Gcd(5, 12) == 1 && Gcd(7, 12) == 1
    ensures 21 % 12 == 9 && 31 % 12 == 7 && 43 % 12 == 7
  {
  }

  /** `next_prime(3) == 5` and `next_prime(5) == 7`. */
  lemma MultipliersForThree()
    ensures NextPrime(3) == 5 && NextPrime(5) == 7
  {
    assert IsPrime(5) && IsPrime(7);
    assert 4 % 2 == 0 && 6 % 2 == 0;
  }

  /** `pow(-7, -1, 5) == 2` and `pow(-5, -1, 7) == 4`. */
  lemma SeedsForThree()
    ensures Seeds(5, 7) == [2, 4]
  {
    assert IsPrime(5) && IsPrime(7);
    assert Gcd((-7) % 5, 5) == 1 && Gcd((-5) % 7, 7) == 1;
    ModInverseUnique(-7, 5, ModInverse(-7, 5), 2);
    ModInverseUnique(-5, 7, ModInverse(-5, 7), 4);
  }

  /** `lcm(5, 7, 12) == 420`. */
  lemma LcmForThree()
    ensures AllPositive([5, 7, 12]) && Lcm([5, 7, 12]) == 420
  {
    LcmFiveSeven();
    assert [5, 7, 12][..2] == [5, 7];
  }

  lemma LcmFive()
    ensures Lcm([5]) == 5
  {
    assert [5][..0] == [];
    assert Lcm([]) == 1;
    assert Gcd(1, 5) == 1;
    assert Lcm2(1, 5) == 5;
  }

  lemma LcmFiveSeven()
    ensures Lcm([5, 7]) == 35
  {
    LcmFive();
    assert [5, 7][..1] == [5];
  }

  /** `crt([2, 4, 7], [5, 7, 12]) == 67`. */
  lemma CrtForThree()
    ensures Crt([2, 4, 7], [5, 7, 12]) == Some(67)
  {
    LcmForThree();
    var rems, mods := [2, 4, 7], [5, 7, 12];
    assert Solves(67, rems, mods) by {
      assert 67 % mods[0] == rems[0] % mods[0];
      assert 67 % mods[1] == rems[1] % mods[1];
      assert 67 % mods[2] == rems[2] % mods[2];
    }
    CrtUnique(rems, mods, 67);
  }

  /** For the bases `[3]` and the multipliers 5 and 7 the residue choice is
      forced: the only admissible residue is 7, so `crt` yields `z = 67` and
      `m = lcm(5, 7, 12) = 420`, whichever way the sets are iterated. */
  lemma ChoiceForcedForThree(c: seq<int>, z: int, m: int)
    requires IsPrime(5) && IsPrime(7)
    requires ResidueChoice([3], 5, 7, c, z, m)
    ensures c == [7] && z == 67 && m == 420
  {
    AdmissibleForThree();
    assert c[0] in Admissible(3, [5, 7]);
    assert c == [7];
    SeedsForThree();
    assert Moduli([3], 0) == [12];
    assert [5, 7] + Moduli([3], 0) == [5, 7, 12];
    assert Seeds(5, 7) + c == [2, 4, 7];
    CrtForThree();
    LcmForThree();
  }

  /** `2^8 == 256` and `2^23 <= 67*331*463 < 2^24`: the product has 24 bits. */
  lemma PowersForThree()
    ensures Pow2(26 / 3) == 256 && Pow2(23) == 8388608 && Pow2(24) == 16777216
    ensures 67 * 331 * 463 == 10267951
  {
    assert Pow2(8) == 256;
    assert Pow2(12) == 4096 by {
      Pow2Add(8, 4);
    }
    Pow2Add(12, 12);
    Pow2Add(12, 11);
    assert Pow2(11) == 2048 by {
      Pow2Add(8, 3);
    }
  }

  /** Line 73 as written, on the bases `[3]` with `min_bitsize = 26`: the
      multipliers are `k2 = 5` and `k3 = 7`, the residue choice gives
      `z = 67`, `m = 420`, the floor start index is 0, and the first
      candidate `p1 = 67` makes `p2 = 331` and `p3 = 463`, all prime. So a
      correct `is_prime` accepts it at once and `n = 10267951` is returned,
      with 24 bits instead of at least 26. The corrected start index is 1. */
  lemma FloorStartTooShort()
    ensures NextPrime(3) == 5 && NextPrime(5) == 7
    ensures IsPrime(5) && IsPrime(7) && ResidueChoice([3], 5, 7, [7], 67, 420)
    ensures StartIndexFloor(26, 420) == 0
    ensures FactorShape(5, 7, 67 + 0 * 420, 331, 463, 10267951)
    ensures IsPrime(67) && IsPrime(331) && IsPrime(463)
    ensures Pow2(23) <= 10267951 < Pow2(24) < Pow2(25)
    ensures StartIndex(26, 420) == 1
  {
    MultipliersForThree();
    AdmissibleForThree();
    SeedsForThree();
    CrtForThree();
    LcmForThree();
    assert Moduli([3], 0) == [12];
    assert [5, 7] + Moduli([3], 0) == [5, 7, 12];
    assert Seeds(5, 7) + [7] == [2, 4, 7];
    PowersForThree();
    ThreeFactorsPrime();
  }

  /** Lines 62-83 as written, on the bases `[3]` with `min_bitsize = 26`:
      whatever primality test is plugged in, as long as it accepts the primes
      67, 331 and 463, and however many rounds and candidates are allowed,
      the search returns a number with 24 bits. */
  method FloorSearchForThree(isPrime: int -> bool, maxTries: nat, maxScan: nat) returns (r: Outcome)
    requires isPrime(67) && isPrime(331) && isPrime(463) && maxTries >= 1 && maxScan >= 1
    ensures r == Found(10267951, 67, 331, 463)
    ensures Pow2(23) <= r.n < Pow2(24)
  {
    ghost var k2, k3, t, c, z, m, i;
    r, k2, k3, t, c, z, m, i := Search([3], 26, isPrime, maxTries, maxScan);
    FirstRoundForThree(t, k2, k3);
    ResidueOfSearchForThree(maxTries, r, t, c, z, m);
    SearchOutcomeForThree(isPrime, maxTries, maxScan, r, t, z, m, i);
    PowersForThree();
  }

  /** Once the first round of the search on the bases `[3]` is known to
      succeed, the residue it works with is `z = 67` modulo `m = 420`. */
  lemma ResidueOfSearchForThree(maxTries: nat, r: Outcome, t: int, c: seq<int>, z: int, m: int)
    requires IsPrime(5) && IsPrime(7) && maxTries >= 1 && t == 1 && (r.Found? || r.GaveUp?)
    requires r.GaveUp? ==> t == maxTries + 1 || ResidueChoice([3], 5, 7, c, z, m)
    requires r.Found? ==> ResidueChoice([3], 5, 7, c, z, m)
    ensures z == 67 && m == 420
  {
    ChoiceForcedForThree(c, z, m);
  }

  /** What `Search` promises on the bases `[3]` with `min_bitsize = 26`, once its
      first round is known to give `z = 67` and `m = 420`, leaves one outcome:
      the first candidate. */
  lemma SearchOutcomeForThree(isPrime: int -> bool, maxTries: nat, maxScan: nat, r: Outcome,
                              t: int, z: int, m: int, i: int)
    requires isPrime(67) && isPrime(331) && isPrime(463) && maxTries >= 1 && maxScan >= 1
    requires t == 1 && z == 67 && m == 420 && (r.Found? || r.GaveUp?)
    requires r.GaveUp? ==> t == maxTries + 1 || NoneAccepted(isPrime, 5, 7, z, m, StartIndexFloor(26, m), maxScan)
    requires r.Found? ==>
               r.p1 == Candidate(z, m, i) && FirstAccepted(isPrime, 5, 7, z, m, StartIndexFloor(26, m), i) &&
               FactorShape(5, 7, r.p1, r.p2, r.p3, r.n)
    ensures r == Found(10267951, 67, 331, 463)
  {
    FloorStartForThree();
    assert Accepted(isPrime, 5, 7, Candidate(67, 420, 0));
  }

  /** For the bases `[3]` the search stops after its first round: `k2 = 5`,
      `k3 = 7`, and that round does not fail. */
  lemma FirstRoundForThree(t: int, k2: int, k3: int)
    requires k2 == NextPrime(3) && t >= 1 && k3 == NextPrimeIter(k2, t) && EarlierRoundsFail([3], k2, t)
    ensures k2 == 5 && t == 1 && k3 == 7
  {
    MultipliersForThree();
    RoundSucceedsForThree();
    assert NextPrimeIter(5, 1) == 7;
  }

  /** The round for the bases `[3]` and the multipliers 5 and 7 yields a usable
      residue: the choice `[7]` is solvable, and no choice gives `z = 0`. */
  lemma RoundSucceedsForThree()
    ensures !RoundFails([3], 5, 7)
  {
    FinishInputsForThree();
    assert IsChoice([3], 5, 7, [7]);
    assert Solves(67, Seeds(5, 7) + [7], [5, 7] + Moduli([3], 0));
    forall c, m | true
      ensures !ResidueChoice([3], 5, 7, c, 0, m)
    {
      if ResidueChoice([3], 5, 7, c, 0, m) {
        ChoiceForcedForThree(c, 0, m);
      }
    }
  }

  /** What the scan of lines 73-81 needs for the bases `[3]` and `min_bitsize = 26`. */
  lemma FinishInputsForThree()
    ensures AllPositive([3]) && IsPrime(5) && IsPrime(7)
    ensures ResidueChoice([3], 5, 7, [7], 67, 420)
    ensures StartIndexFloor(26, 420) == 0
  {
    FloorStartTooShort();
  }

  /** Line 73 as written gives the start index 0 for `min_bitsize = 26` and `m = 420`. */
  lemma FloorStartForThree()
    ensures StartIndexFloor(26, 420) == 0
  {
    PowersForThree();
  }
}
