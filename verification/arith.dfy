/** Integer facts shared by the number-theory helpers: Euclidean division
    (Dafny's `/` and `%` agree with Python's for a positive divisor, which is
    the only kind this model divides by), congruences and powers of two. */
module Arith {

  datatype Option<T> = None | Some(value: T)

  /** Every element of `s` is strictly positive. */
  predicate AllPositive(s: seq<int>)
  {
    forall j :: 0 <= j < |s| ==> s[j] > 0
  }

  /** `a = q*g + r` with `0 <= r < g` pins down the quotient and the remainder. */
  lemma DivModUnique(a: int, g: int, q: int, r: int)
    requires g > 0 && a == q * g + r && 0 <= r < g
    ensures a / g == q && a % g == r
  {
    var q0, r0 := a / g, a % g;
    assert a == q0 * g + r0;
    if q > q0 {
      MulAtLeast(q - q0, g);
      assert false;
    } else if q < q0 {
      MulAtLeast(q0 - q, g);
      assert false;
    }
  }

  lemma MulAtLeast(x: int, g: int)
    requires x >= 1 && g > 0
    ensures x * g >= g
  {
    assert x * g == (x - 1) * g + g;
    assert (x - 1) * g >= 0;
  }

  /** Adding a multiple of the modulus does not change the remainder. */
  lemma ModAddMultiple(a: int, k: int, g: int)
    requires g > 0
    ensures (a + k * g) % g == a % g
  {
    var q, r := a / g, a % g;
    assert a + k * g == (q + k) * g + r;
    DivModUnique(a + k * g, g, q + k, r);
  }

  lemma MultipleMod(k: int, g: int)
    requires g > 0
    ensures (k * g) % g == 0 && (g * k) % g == 0
  {
    ModAddMultiple(0, k, g);
  }

  /** Two numbers are congruent modulo `g` exactly when `g` divides their difference. */
  lemma CongruentIffDividesDifference(a: int, b: int, g: int)
    requires g > 0
    ensures a % g == b % g <==> (a - b) % g == 0
  {
    var qa, ra := a / g, a % g;
    var qb, rb := b / g, b % g;
    if ra >= rb {
      assert a - b == (qa - qb) * g + (ra - rb);
      DivModUnique(a - b, g, qa - qb, ra - rb);
    } else {
      assert a - b == (qa - qb - 1) * g + (g + ra - rb);
      DivModUnique(a - b, g, qa - qb - 1, g + ra - rb);
    }
  }

  /** The remainder of a product depends only on the remainder of a factor. */
  lemma ModMulLeft(a: int, b: int, g: int)
    requires g > 0
    ensures (a * b) % g == ((a % g) * b) % g
  {
    var q, r := a / g, a % g;
    assert a * b == r * b + (q * b) * g by {
      assert a == q * g + r;
    }
    ModAddMultiple(r * b, q * b, g);
  }

  lemma ModMulRight(a: int, b: int, g: int)
    requires g > 0
    ensures (a * b) % g == (a * (b % g)) % g
  {
    ModMulLeft(b, a, g);
    assert a * b == b * a && a * (b % g) == (b % g) * a;
  }

  /** The remainder of a sum depends only on the remainder of a summand. */
  lemma ModAddLeft(a: int, b: int, g: int)
    requires g > 0
    ensures (a + b) % g == ((a % g) + b) % g
  {
    var q, r := a / g, a % g;
    assert a + b == (r + b) + q * g;
    ModAddMultiple(r + b, q, g);
  }

  /** If `g` divides `m` then reducing modulo `m` first does not change the remainder modulo `g`. */
  lemma ModOfModMultiple(x: int, m: int, g: int)
    requires g > 0 && m > 0 && m % g == 0
    ensures (x % m) % g == x % g
  {
    var t := m / g;
    assert m == t * g;
    var q := x / m;
    assert x == x % m + (q * t) * g by {
      assert x == q * m + x % m;
      assert q * m == (q * t) * g;
    }
    ModAddMultiple(x % m, q * t, g);
  }

  /** Divisibility is transitive. */
  lemma DividesTransitive(e: int, d: int, n: int)
    requires e > 0 && d > 0
    requires d % e == 0 && n % d == 0
    ensures n % e == 0
  {
    var u, v := n / d, d / e;
    assert n == u * d && d == v * e;
    assert n == (u * v) * e;
    MultipleMod(u * v, e);
  }

  /** A common divisor of `a` and `b` divides every combination `x*a + y*b`. */
  lemma DividesCombination(d: int, a: int, b: int, x: int, y: int)
    requires d > 0 && a % d == 0 && b % d == 0
    ensures (x * a + y * b) % d == 0
  {
    var u, v := a / d, b / d;
    assert a == u * d && b == v * d;
    assert x * a + y * b == (x * u + y * v) * d;
    MultipleMod(x * u + y * v, d);
  }

  /** A positive multiple of `d` is at least `d`. */
  lemma DivisorAtMost(d: int, n: int)
    requires d > 0 && n > 0 && n % d == 0
    ensures d <= n
  {
    var q := n / d;
    assert n == q * d;
    if q > 0 {
      MulAtLeast(q, d);
    }
  }

  function Pow2(e: nat): (r: nat)
    ensures r >= 1
  {
    if e == 0 then 1 else 2 * Pow2(e - 1)
  }

  lemma {:induction false} Pow2Add(e: nat, f: nat)
    ensures Pow2(e + f) == Pow2(e) * Pow2(f)
    decreases e
  {
    if e > 0 {
      Pow2Add(e - 1, f);
    }
  }

  lemma {:induction false} Pow2Monotone(e: nat, f: nat)
    requires e <= f
    ensures Pow2(e) <= Pow2(f)
    decreases f
  {
    if e < f {
      Pow2Monotone(e, f - 1);
    }
  }
}
