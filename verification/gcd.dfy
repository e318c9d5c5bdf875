/** Greatest common divisor, Bezout coefficients, modular inverse and least
    common multiple: the `math.gcd`, `math.lcm` and `pow(x, -1, n)` calls of
    attacks/pseudoprimes/miller_rabin.py, written out with their defining
    properties proved. */
module Gcds {
  import opened Arith

  /** Euclid's algorithm, as `math.gcd` on non-negative arguments. */
  function Gcd(a: nat, b: nat): nat
    decreases b
  {
    if b == 0 then a else Gcd(b, a % b)
  }

  /** The gcd is a positive common divisor. */
  lemma {:induction false} GcdDivides(a: nat, b: nat)
    requires a > 0 || b > 0
    ensures Gcd(a, b) > 0 && a % Gcd(a, b) == 0 && b % Gcd(a, b) == 0
    decreases b
  {
    if b == 0 {
      MultipleMod(1, a);
    } else {
      var g := Gcd(b, a % b);
      GcdDivides(b, a % b);
      assert a == (a / b) * b + 1 * (a % b);
      DividesCombination(g, b, a % b, a / b, 1);
    }
  }

  /** Every common divisor divides the gcd. */
  lemma {:induction false} GcdGreatest(a: nat, b: nat, d: int)
    requires d > 0 && a % d == 0 && b % d == 0
    ensures Gcd(a, b) % d == 0
    decreases b
  {
    if b > 0 {
      assert a % b == 1 * a + (-(a / b)) * b;
      DividesCombination(d, a, b, 1, -(a / b));
      GcdGreatest(b, a % b, d);
    }
  }

  /** Reducing the first argument modulo the second leaves the gcd unchanged. */
  lemma GcdReduce(k: nat, n: nat)
    requires n > 0
    ensures Gcd(k % n, n) == Gcd(k, n)
  {
    DivModUnique(k % n, n, 0, k % n);
    assert Gcd(k % n, n) == Gcd(n, (k % n) % n);
  }

  /** Extended Euclid: Bezout coefficients `(x, y)` with `a*x + b*y == Gcd(a, b)`. */
  function ExtGcd(a: nat, b: nat): (r: (int, int))
    ensures a * r.0 + b * r.1 == Gcd(a, b)
    decreases b
  {
    if b == 0 then (1, 0)
    else
      var (x, y) := ExtGcd(b, a % b);
      BezoutStep(a, b, a / b, a % b, x, y);
      (y, x - (a / b) * y)
  }

  /** With `a == q*b + r`, Bezout coefficients for `(b, r)` give coefficients for `(a, b)`. */
  lemma BezoutStep(a: int, b: int, q: int, r: int, x: int, y: int)
    requires a == q * b + r
    ensures a * y + b * (x - q * y) == b * x + r * y
  {
    assert a * y == q * b * y + r * y;
    assert b * (x - q * y) == b * x - q * b * y;
  }

  /** `pow(k, -1, n)`: the inverse of `k` modulo `n`, in `[0, n)`. Python raises
      `ValueError` when `k` is not invertible; callers here establish that it is. */
  function ModInverse(k: int, n: nat): (r: int)
    requires n > 0 && Gcd(k % n, n) == 1
    ensures 0 <= r < n
    ensures (k * r) % n == 1 % n
  {
    var (x, y) := ExtGcd(k % n, n);
    ModInverseCorrect(k, n, x, y);
    x % n
  }

  lemma ModInverseCorrect(k: int, n: nat, x: int, y: int)
    requires n > 0 && (k % n) * x + n * y == 1
    ensures (k * (x % n)) % n == 1 % n
  {
    calc {
      (k * (x % n)) % n;
    == { ModMulLeft(k, x % n, n); }
      ((k % n) * (x % n)) % n;
    == { ModMulRight(k % n, x, n); }
      ((k % n) * x) % n;
    == { ModAddMultiple((k % n) * x, y, n); assert y * n == n * y; }
      1 % n;
    }
  }

  /** An inverse modulo `n` in `[0, n)` is unique, so `ModInverse` is exactly
      the value `pow(k, -1, n)` returns. */
  lemma ModInverseUnique(k: int, n: nat, r: int, s: int)
    requires n > 0 && 0 <= r < n && 0 <= s < n
    requires (k * r) % n == 1 % n && (k * s) % n == 1 % n
    ensures r == s
  {
    TimesUnitMod(r, k * s, n);
    TimesUnitMod(s, k * r, n);
    assert r * (k * s) == s * (k * r);
  }

  /** Multiplying by something congruent to 1 leaves a reduced residue unchanged. */
  lemma TimesUnitMod(r: int, t: int, n: nat)
    requires n > 0 && 0 <= r < n && t % n == 1 % n
    ensures (r * t) % n == r
  {
    calc {
      (r * t) % n;
    == { ModMulRight(r, t, n); }
      (r * (t % n)) % n;
    == { assert t % n == 1 % n; }
      (r * (1 % n)) % n;
    == { ModMulRight(r, 1, n); }
      (r * 1) % n;
    }
    assert r * 1 == r;
  }

  /** Two coprime numbers: the gcd is 1. */
  predicate Coprime(a: nat, b: nat)
  {
    Gcd(a, b) == 1
  }

  /** `math.lcm(a, b)` for positive arguments, computed as `a // gcd(a, b) * b`. */
  function Lcm2(a: nat, b: nat): (r: nat)
    requires a > 0 && b > 0
    ensures r > 0 && r % a == 0 && r % b == 0
  {
    var g := Gcd(a, b);
    GcdDivides(a, b);
    CommonMultiple(a, b, g, a / g, b / g);
    (a / g) * b
  }

  /** With `a == u*g` and `b == v*g`, `u*b` is a positive multiple of both `a` and `b`. */
  lemma CommonMultiple(a: int, b: int, g: int, u: int, v: int)
    requires a > 0 && b > 0 && g > 0 && a == u * g && b == v * g
    ensures u * b > 0 && (u * b) % a == 0 && (u * b) % b == 0
  {
    assert u > 0;
    assert u * b == v * a by {
      assert u * b == u * (v * g) == (u * g) * v;
    }
    MultipleMod(u, b);
    MultipleMod(v, a);
  }

  /** Every common multiple of `a` and `b` is a multiple of `Lcm2(a, b)`. */
  lemma Lcm2Least(a: nat, b: nat, c: int)
    requires a > 0 && b > 0 && c % a == 0 && c % b == 0
    ensures c % Lcm2(a, b) == 0
  {
    var g := Gcd(a, b);
    GcdDivides(a, b);
    var (x, y) := ExtGcd(a, b);
    var L := Lcm2(a, b);
    assert L == (a / g) * b;
    var w := BezoutQuotient(a, b, c, g, x, y, a / g);
    MultipleMod(w, L);
  }

  /** With `g == a*x + b*y` dividing `a`, a common multiple `c` of `a` and `b`
      is `(a/g)*b` times an integer. */
  lemma BezoutQuotient(a: int, b: int, c: int, g: int, x: int, y: int, a': int) returns (w: int)
    requires a > 0 && b > 0 && g > 0 && a == a' * g && a * x + b * y == g
    requires c % a == 0 && c % b == 0
    ensures c == (a' * b) * w
  {
    var u, v := c / a, c / b;
    assert c == a * u && c == b * v;
    w := v * x + u * y;
    assert c * g == ((a' * b) * w) * g by {
      assert c * g == c * a * x + c * b * y;
      assert c * a * x == (a * b) * (v * x) by { assert c == b * v; }
      assert c * b * y == (a * b) * (u * y) by { assert c == a * u; }
      assert a * b == (a' * b) * g;
    }
    MulCancel(c, (a' * b) * w, g);
  }

  lemma MulCancel(p: int, q: int, g: int)
    requires g > 0 && p * g == q * g
    ensures p == q
  {
    if p > q {
      MulAtLeast(p - q, g);
      assert false;
    } else if p < q {
      MulAtLeast(q - p, g);
      assert false;
    }
  }

  /** `math.lcm(*ms)` for positive arguments: a positive common multiple of every
      element (1 for the empty list). */
  function Lcm(ms: seq<int>): (r: nat)
    requires AllPositive(ms)
    ensures r > 0
    ensures forall j :: 0 <= j < |ms| ==> r % ms[j] == 0
  {
    if |ms| == 0 then 1
    else
      var prefix := ms[..|ms| - 1];
      var l := Lcm(prefix);
      var r := Lcm2(l, ms[|ms| - 1]);
      forall j | 0 <= j < |ms| - 1
        ensures r % ms[j] == 0
      {
        assert prefix[j] == ms[j];
        DividesTransitive(ms[j], l, r);
      }
      r
  }

  /** Every common multiple of the elements is a multiple of `Lcm(ms)`: it is the least. */
  lemma {:induction false} LcmLeast(ms: seq<int>, c: int)
    requires AllPositive(ms)
    requires forall j :: 0 <= j < |ms| ==> c % ms[j] == 0
    ensures c % Lcm(ms) == 0
  {
    if |ms| > 0 {
      var prefix := ms[..|ms| - 1];
      forall j | 0 <= j < |prefix|
        ensures c % prefix[j] == 0
      {
        assert prefix[j] == ms[j];
      }
      LcmLeast(prefix, c);
      Lcm2Least(Lcm(prefix), ms[|ms| - 1], c);
    }
  }

  /** A combination equal to 1 rules out any common factor. */
  lemma CombinationOneCoprime(a: nat, n: nat, s: int, t: int)
    requires n > 0 && a * s + n * t == 1
    ensures Gcd(a, n) == 1
  {
    var g := Gcd(a, n);
    GcdDivides(a, n);
    DividesCombination(g, a, n, s, t);
    DivisorAtMost(g, 1);
  }

  /** Negating a unit modulo `p` gives a unit: `pow(-v, -1, p)` exists when `pow(v, -1, p)` does. */
  lemma NegCoprime(v: int, p: nat)
    requires p > 0 && Gcd(v % p, p) == 1
    ensures Gcd((-v) % p, p) == 1
  {
    var u, r := (-v) % p, v % p;
    var xy := ExtGcd(r, p);
    assert r * xy.0 + p * xy.1 == 1;
    NegResidueSum(v, p);
    var w := ExactQuotient(u + r, p);
    NegUnitCombination(u, r, p, w, xy.0, xy.1);
    CombinationOneCoprime(u, p, -xy.0, xy.1 + w * xy.0);
  }

  lemma ExactQuotient(a: int, p: int) returns (w: int)
    requires p > 0 && a % p == 0
    ensures a == w * p
  {
    w := a / p;
  }

  lemma NegResidueSum(v: int, p: nat)
    requires p > 0
    ensures ((-v) % p + v % p) % p == 0
  {
    ModAddLeft(-v, v % p, p);
    ModAddLeft(v, -v, p);
    assert v % p + (-v) == (-v) + v % p;
  }

  lemma NegUnitCombination(u: int, r: int, p: int, w: int, x: int, y: int)
    requires u + r == w * p && r * x + p * y == 1
    ensures u * (-x) + p * (y + w * x) == 1
  {
    assert u * (-x) == r * x - (w * p) * x;
  }
}
