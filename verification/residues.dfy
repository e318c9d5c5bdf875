/** The residue sets of `_generate_s` (attacks/pseudoprimes/miller_rabin.py,
    lines 11-28). For a base `a`, a prime `p ≡ s (mod 4a)` with `s` in the
    catalog has `a` as a quadratic non-residue; a multiplier `k` sends `p` to
    `k*(p - 1) + 1`, and the admissible residues are those whose images under
    every multiplier stay in the catalog. */
module Residues {
  import opened Arith
  import opened Gcds
  import opened Kronecker

  /** Lines 15-18: the odd `p` in `[1, 4a)` with `kronecker(a, p) == -1`. */
  function Catalog(a: int): set<int>
  {
    set p | 1 <= p < 4 * a && p % 2 == 1 && Jacobi(a, p) == -1
  }

  /** Line 24: the image of `sa` under `s ↦ k⁻¹·(s + k − 1) mod n`. */
  function Transformed(sa: set<int>, k: nat, n: nat): set<int>
    requires n > 0 && Gcd(k, n) == 1
  {
    GcdReduce(k, n);
    var inv := ModInverse(k, n);
    set s | s in sa :: (inv * (s + k - 1)) % n
  }

  /** Line 23's assertion, for every multiplier: each is positive and coprime to `4a`. */
  predicate MultipliersCoprime(a: int, ks: seq<int>)
  {
    forall t :: 0 <= t < |ks| ==> ks[t] > 0 && 4 * a > 0 && Gcd(ks[t], 4 * a) == 1
  }

  /** `base.intersection(*sets)`. */
  function IntersectAll(base: set<int>, sets: seq<set<int>>): (r: set<int>)
    ensures r <= base
  {
    if |sets| == 0 then base else IntersectAll(base, sets[..|sets| - 1]) * sets[|sets| - 1]
  }

  /** The images of the catalog under each multiplier's map (the list `Sk`). */
  function TransformedAll(sa: set<int>, ks: seq<int>, a: int): (r: seq<set<int>>)
    requires MultipliersCoprime(a, ks)
    ensures |r| == |ks|
    ensures forall t :: 0 <= t < |ks| ==> r[t] == Transformed(sa, ks[t], 4 * a)
  {
    if |ks| == 0 then []
    else TransformedAll(sa, ks[..|ks| - 1], a) + [Transformed(sa, ks[|ks| - 1], 4 * a)]
  }

  /** Line 26: the admissible residues of base `a` for the multipliers `ks`. */
  function Admissible(a: int, ks: seq<int>): (r: set<int>)
    requires MultipliersCoprime(a, ks)
    ensures r <= Catalog(a)
  {
    IntersectAll(Catalog(a), TransformedAll(Catalog(a), ks, a))
  }

  /** A catalog member is odd and lies in `[1, 4a)`. */
  lemma CatalogBounds(a: int, r: int)
    requires r in Catalog(a)
    ensures 1 <= r < 4 * a && r % 2 == 1
  {
  }

  /** Intersection membership, element by element. */
  lemma {:induction false} IntersectAllIff(base: set<int>, sets: seq<set<int>>, r: int)
    ensures r in IntersectAll(base, sets) <==> r in base && forall t :: 0 <= t < |sets| ==> r in sets[t]
  {
    if |sets| > 0 {
      var prefix := sets[..|sets| - 1];
      IntersectAllIff(base, prefix, r);
      assert forall t :: 0 <= t < |prefix| ==> prefix[t] == sets[t];
    }
  }

  /** `k·k⁻¹ ≡ 1` lets `k⁻¹` cancel `k` on either side. */
  lemma InverseCancels(k: int, inv: int, n: nat, y: int)
    requires n > 0 && (k * inv) % n == 1 % n
    ensures (inv * (k * y)) % n == y % n
    ensures (k * (inv * y)) % n == y % n
  {
    assert inv * (k * y) == (k * inv) * y && k * (inv * y) == (k * inv) * y;
    calc {
      ((k * inv) * y) % n;
    == { ModMulLeft(k * inv, y, n); }
      (((k * inv) % n) * y) % n;
    == { ModMulLeft(1, y, n); }
      (1 * y) % n;
    }
  }

  /** `r` is the image of some `s` in `sa` exactly when `k·(r − 1) + 1 mod n` is in `sa`. */
  lemma TransformedIff(sa: set<int>, k: nat, n: nat, r: int)
    requires n > 0 && Gcd(k, n) == 1 && 0 <= r < n
    requires forall s :: s in sa ==> 0 <= s < n
    ensures r in Transformed(sa, k, n) <==> (k * (r - 1) + 1) % n in sa
  {
    GcdReduce(k, n);
    var inv := ModInverse(k, n);
    if r in Transformed(sa, k, n) {
      var s :| s in sa && r == (inv * (s + k - 1)) % n;
      ImageMapsBack(k, inv, n, s, r);
    }
    var s := (k * (r - 1) + 1) % n;
    if s in sa {
      MapsBackToImage(k, inv, n, s, r);
      assert r == (inv * (s + k - 1)) % n;
    }
  }

  lemma ImageMapsBack(k: int, inv: int, n: nat, s: int, r: int)
    requires n > 0 && (k * inv) % n == 1 % n && 0 <= s < n
    requires r == (inv * (s + k - 1)) % n
    ensures (k * (r - 1) + 1) % n == s
  {
    KTimesImage(k, inv, n, s + k - 1, r);
    ShiftBack(k * r, s + k - 1, k, s, n);
    assert k * (r - 1) + 1 == k * r + (1 - k);
  }

  /** `k` times `k⁻¹·y` is `y` again, modulo `n`. */
  lemma KTimesImage(k: int, inv: int, n: nat, y: int, r: int)
    requires n > 0 && (k * inv) % n == 1 % n && r == (inv * y) % n
    ensures (k * r) % n == y % n
  {
    ModMulRight(k, inv * y, n);
    InverseCancels(k, inv, n, y);
  }

  lemma ShiftBack(kr: int, y: int, k: int, s: int, n: nat)
    requires n > 0 && kr % n == y % n && y == s + k - 1 && 0 <= s < n
    ensures (kr + (1 - k)) % n == s
  {
    AddCongruent(kr, y, 1 - k, n);
    DivModUnique(s, n, 0, s);
  }

  /** Adding the same number to two congruent numbers keeps them congruent. */
  lemma AddCongruent(x1: int, x2: int, c: int, n: nat)
    requires n > 0 && x1 % n == x2 % n
    ensures (x1 + c) % n == (x2 + c) % n
  {
    ModAddLeft(x1, c, n);
    ModAddLeft(x2, c, n);
  }

  lemma MapsBackToImage(k: int, inv: int, n: nat, s: int, r: int)
    requires n > 0 && (k * inv) % n == 1 % n && 0 <= r < n
    requires s == (k * (r - 1) + 1) % n
    ensures (inv * (s + k - 1)) % n == r
  {
    var kr := k * r;
    var x := k * (r - 1) + 1;
    assert x + (k - 1) == kr;
    assert (s + (k - 1)) % n == kr % n by {
      assert s == x % n;
      DivModUnique(s, n, 0, s);
      AddCongruent(s, x, k - 1, n);
    }
    MulCongruent(inv, s + k - 1, kr, n);
    InverseCancels(k, inv, n, r);
    DivModUnique(r, n, 0, r);
  }

  /** Multiplying two congruent numbers by the same factor keeps them congruent. */
  lemma MulCongruent(c: int, x1: int, x2: int, n: nat)
    requires n > 0 && x1 % n == x2 % n
    ensures (c * x1) % n == (c * x2) % n
  {
    ModMulRight(c, x1, n);
    ModMulRight(c, x2, n);
  }

  /** A residue is admissible for base `a` exactly when it is in the catalog and
      every multiplier `k` maps it, as `k·(r − 1) + 1 mod 4a`, back into the catalog. */
  lemma AdmissibleIff(a: int, ks: seq<int>, r: int)
    requires MultipliersCoprime(a, ks)
    ensures r in Admissible(a, ks) <==>
              r in Catalog(a) &&
              forall t :: 0 <= t < |ks| ==> (ks[t] * (r - 1) + 1) % (4 * a) in Catalog(a)
  {
    var sa := Catalog(a);
    var sk := TransformedAll(sa, ks, a);
    IntersectAllIff(sa, sk, r);
    if r in sa {
      forall t | 0 <= t < |ks|
        ensures r in sk[t] <==> (ks[t] * (r - 1) + 1) % (4 * a) in sa
      {
        TransformedIff(sa, ks[t], 4 * a, r);
      }
    }
  }

  /** `_generate_s(A, k)`: one admissible set per base, in the order of `A`; `None`
      where the assertion of line 23 fails for some base and multiplier. */
  method GenerateS(A: seq<int>, ks: seq<int>) returns (S: Option<seq<set<int>>>)
    requires AllPositive(A) && AllPositive(ks)
    ensures S.None? <==> exists j :: 0 <= j < |A| && !MultipliersCoprime(A[j], ks)
    ensures S.Some? ==> |S.value| == |A|
    ensures S.Some? ==> forall j :: 0 <= j < |A| ==>
              MultipliersCoprime(A[j], ks) && S.value[j] == Admissible(A[j], ks)
  {
    var acc: seq<set<int>> := [];
    for j := 0 to |A|
      invariant |acc| == j
      invariant forall i :: 0 <= i < j ==> MultipliersCoprime(A[i], ks) && acc[i] == Admissible(A[i], ks)
    {
      var a := A[j];
      var sa := BuildCatalog(a);
      var sk := TransformCatalog(sa, a, ks);
      if sk.None? {
        return None;
      }
      acc := acc + [IntersectAll(sa, sk.value)];
    }
    return Some(acc);
  }

  /** The catalog members below `p`. */
  function CatalogBelow(a: int, p: int): set<int>
  {
    set q | 1 <= q < p && q % 2 == 1 && Jacobi(a, q) == -1
  }

  /** Moving the bound past the next odd `p` adds `p` exactly when `kronecker(a, p) == -1`. */
  lemma CatalogBelowStep(a: int, p: int)
    requires p >= 1 && p % 2 == 1
    ensures CatalogBelow(a, p + 2) == CatalogBelow(a, p) + (if Jacobi(a, p) == -1 then {p} else {})
  {
    forall q | q in CatalogBelow(a, p + 2)
      ensures q in CatalogBelow(a, p) || q == p
    {
      assert q != p + 1;
    }
  }

  /** Lines 15-18: the catalog, built by scanning the odd numbers below `4a`. */
  method BuildCatalog(a: int) returns (sa: set<int>)
    requires a > 0
    ensures sa == Catalog(a)
  {
    sa := {};
    var p := 1;
    while p < 4 * a
      invariant 1 <= p <= 4 * a + 1 && p % 2 == 1
      invariant sa == CatalogBelow(a, p)
    {
      CatalogBelowStep(a, p);
      if Jacobi(a, p) == -1 {
        sa := sa + {p};
      }
      p := p + 2;
    }
    assert CatalogBelow(a, p) == Catalog(a) by {
      assert p == 4 * a + 1;
    }
  }

  /** Lines 21-24: one transformed copy of `sa` per multiplier, or `None` at the
      first multiplier that shares a factor with `4a`. */
  method TransformCatalog(sa: set<int>, a: int, ks: seq<int>) returns (sk: Option<seq<set<int>>>)
    requires a > 0 && AllPositive(ks)
    ensures sk.None? <==> !MultipliersCoprime(a, ks)
    ensures sk.Some? ==> sk.value == TransformedAll(sa, ks, a)
  {
    var acc: seq<set<int>> := [];
    for t := 0 to |ks|
      invariant |acc| == t
      invariant MultipliersCoprime(a, ks[..t])
      invariant acc == TransformedAll(sa, ks[..t], a)
    {
      var ki := ks[t];
      if Gcd(ki, 4 * a) != 1 {
        return None;
      }
      assert ks[..t + 1][..t] == ks[..t];
      acc := acc + [Transformed(sa, ki, 4 * a)];
    }
    assert ks[..|ks|] == ks;
    return Some(acc);
  }
}
