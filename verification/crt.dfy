/** The general Chinese Remainder Theorem solver that Sage's `crt(rems, mods)`
    provides. The moduli need not be pairwise coprime (in the pseudoprime
    construction every `4*a` shares the factor 4), so a system may have no
    solution; when it has one, there is exactly one in `[0, lcm(mods))`. */
module ChineseRemainder {
  import opened Arith
  import opened Gcds

  /** `x` satisfies every congruence `x ≡ rems[j] (mod mods[j])`. */
  predicate Solves(x: int, rems: seq<int>, mods: seq<int>)
  {
    |rems| == |mods| && AllPositive(mods) &&
    forall j :: 0 <= j < |rems| ==> x % mods[j] == rems[j] % mods[j]
  }

  /** The system has an integer solution. */
  ghost predicate Solvable(rems: seq<int>, mods: seq<int>)
  {
    exists x :: Solves(x, rems, mods)
  }

  /** The least solution in `[x, bound)`, if there is one. */
  function CrtFrom(rems: seq<int>, mods: seq<int>, x: int, bound: int): (r: Option<int>)
    ensures r.Some? ==> x <= r.value < bound && Solves(r.value, rems, mods)
    ensures r.None? ==> forall y :: x <= y < bound ==> !Solves(y, rems, mods)
    decreases bound - x
  {
    if x >= bound then None
    else if Solves(x, rems, mods) then Some(x)
    else CrtFrom(rems, mods, x + 1, bound)
  }

  /** `CrtFrom` finds the least solution: nothing in `[x, bound)` below its result solves the system. */
  lemma {:induction false} CrtFromLeast(rems: seq<int>, mods: seq<int>, x: int, bound: int, y: int)
    requires CrtFrom(rems, mods, x, bound).Some?
    requires x <= y < CrtFrom(rems, mods, x, bound).value
    ensures !Solves(y, rems, mods)
    decreases bound - x
  {
    if !Solves(x, rems, mods) && y > x {
      CrtFromLeast(rems, mods, x + 1, bound, y);
    }
  }

  /** Sage's `crt(rems, mods)`: the solution in `[0, lcm(mods))`, or `None` where
      Sage raises `ValueError` because the congruences contradict each other. */
  function Crt(rems: seq<int>, mods: seq<int>): (r: Option<int>)
    requires |rems| == |mods| && AllPositive(mods)
    ensures r.Some? ==> 0 <= r.value < Lcm(mods) && Solves(r.value, rems, mods)
    ensures r.None? <==> !Solvable(rems, mods)
  {
    CrtComplete(rems, mods);
    CrtFrom(rems, mods, 0, Lcm(mods))
  }

  /** Any solution reduced modulo the lcm is still a solution. */
  lemma SolvesReduce(x: int, rems: seq<int>, mods: seq<int>)
    requires Solves(x, rems, mods)
    ensures Solves(x % Lcm(mods), rems, mods)
  {
    var L := Lcm(mods);
    forall j | 0 <= j < |rems|
      ensures (x % L) % mods[j] == rems[j] % mods[j]
    {
      ModOfModMultiple(x, L, mods[j]);
    }
  }

  /** A solvable system has a solution below the lcm, so the search finds one. */
  lemma CrtComplete(rems: seq<int>, mods: seq<int>)
    requires |rems| == |mods| && AllPositive(mods)
    ensures Solvable(rems, mods) ==> CrtFrom(rems, mods, 0, Lcm(mods)).Some?
  {
    if Solvable(rems, mods) {
      var x :| Solves(x, rems, mods);
      SolvesReduce(x, rems, mods);
    }
  }

  /** Two solutions agree modulo the lcm of the moduli. */
  lemma SolutionsCongruent(x: int, y: int, rems: seq<int>, mods: seq<int>)
    requires Solves(x, rems, mods) && Solves(y, rems, mods)
    ensures (x - y) % Lcm(mods) == 0
  {
    forall j | 0 <= j < |mods|
      ensures (x - y) % mods[j] == 0
    {
      CongruentIffDividesDifference(x, y, mods[j]);
    }
    LcmLeast(mods, x - y);
  }

  /** The solution in `[0, lcm)` is unique: `Crt` returns the very value Sage does. */
  lemma CrtUnique(rems: seq<int>, mods: seq<int>, x: int)
    requires |rems| == |mods| && AllPositive(mods)
    requires Solves(x, rems, mods) && 0 <= x < Lcm(mods)
    ensures Crt(rems, mods) == Some(x)
  {
    var z := Crt(rems, mods).value;
    var L := Lcm(mods);
    if x > z {
      SolutionsCongruent(x, z, rems, mods);
      DivisorAtMost(L, x - z);
    } else if x < z {
      SolutionsCongruent(z, x, rems, mods);
      DivisorAtMost(L, z - x);
    }
  }

  /** A solution of a system solves each of the two parts it is made of. */
  lemma SolvesAppend(x: int, r1: seq<int>, r2: seq<int>, m1: seq<int>, m2: seq<int>)
    requires |r1| == |m1| && |r2| == |m2|
    ensures Solves(x, r1 + r2, m1 + m2) <==> Solves(x, r1, m1) && Solves(x, r2, m2)
  {
    var r, m := r1 + r2, m1 + m2;
    if Solves(x, r1, m1) && Solves(x, r2, m2) {
      forall j | 0 <= j < |r|
        ensures m[j] > 0 && x % m[j] == r[j] % m[j]
      {
        if j >= |r1| {
          assert m[j] == m2[j - |m1|] && r[j] == r2[j - |r1|];
        }
      }
    }
    if Solves(x, r, m) {
      forall j | 0 <= j < |r2|
        ensures m2[j] > 0 && x % m2[j] == r2[j] % m2[j]
      {
        assert m[j + |m1|] == m2[j] && r[j + |r1|] == r2[j];
      }
      forall j | 0 <= j < |r1|
        ensures m1[j] > 0 && x % m1[j] == r1[j] % m1[j]
      {
        assert m[j] == m1[j] && r[j] == r1[j];
      }
    }
  }

  /** Extending a system can only remove solutions. */
  lemma SolvablePrefix(r1: seq<int>, r2: seq<int>, m1: seq<int>, m2: seq<int>)
    requires |r1| == |m1| && |r2| == |m2|
    requires Solvable(r1 + r2, m1 + m2)
    ensures Solvable(r1, m1)
  {
    var x :| Solves(x, r1 + r2, m1 + m2);
    SolvesAppend(x, r1, r2, m1, m2);
  }

  /** Adding multiples of the lcm keeps a solution a solution. */
  lemma SolvesShift(z: int, i: int, rems: seq<int>, mods: seq<int>)
    requires Solves(z, rems, mods)
    ensures Solves(z + i * Lcm(mods), rems, mods)
  {
    var L := Lcm(mods);
    forall j | 0 <= j < |rems|
      ensures (z + i * L) % mods[j] == rems[j] % mods[j]
    {
      var q := L / mods[j];
      assert L == q * mods[j];
      assert i * L == (i * q) * mods[j];
      ModAddMultiple(z, i * q, mods[j]);
    }
  }

  /** Every number in the residue class of a solution modulo the lcm is a solution. */
  lemma SolvesResidueClass(z: int, p: int, rems: seq<int>, mods: seq<int>)
    requires Solves(z, rems, mods) && p % Lcm(mods) == z
    ensures Solves(p, rems, mods)
  {
    var L := Lcm(mods);
    var q := p / L;
    assert p == z + q * L;
    SolvesShift(z, q, rems, mods);
  }
}
