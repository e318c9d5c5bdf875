/** Sage's `kronecker(a, n)`, as the residue catalog calls it: with `n` odd and
    positive, where the Kronecker symbol is the Jacobi symbol. It is computed by
    the usual reciprocity algorithm: pull factors of 2 out of `a` (each flips the
    sign when `n ≡ 3, 5 (mod 8)`), swap the arguments (flipping the sign when
    both are `≡ 3 (mod 4)`), and reduce. */
module Kronecker {
  import opened Arith
  import opened Gcds

  function Jacobi(a: int, n: nat): (r: int)
    requires n % 2 == 1
    ensures r == -1 || r == 0 || r == 1
    decreases n, a % n
  {
    var a' := a % n;
    if a' == 0 then
      (if n == 1 then 1 else 0)
    else if a' % 2 == 0 then
      HalfReduced(a', n);
      var j := Jacobi(a' / 2, n);
      if n % 8 == 3 || n % 8 == 5 then -j else j
    else
      var j := Jacobi(n, a');
      if a' % 4 == 3 && n % 4 == 3 then -j else j
  }

  /** Halving an even `x` in `(0, n)` leaves a smaller positive residue. */
  lemma HalfReduced(x: int, n: nat)
    requires 0 < x < n && x % 2 == 0
    ensures 0 < x / 2 < x && (x / 2) % n == x / 2
  {
    DivModUnique(x / 2, n, 0, x / 2);
  }

  /** The symbol depends only on the residue of `a` modulo `n`. */
  lemma JacobiPeriodic(a: int, k: int, n: nat)
    requires n % 2 == 1
    ensures Jacobi(a + k * n, n) == Jacobi(a, n)
  {
    ModAddMultiple(a, k, n);
  }

  /** The symbol is 0 exactly when `a` and `n` share a factor. */
  lemma {:induction false} JacobiZeroIffNotCoprime(a: int, n: nat)
    requires n % 2 == 1
    ensures Jacobi(a, n) == 0 <==> Gcd(a % n, n) != 1
    decreases n, a % n
  {
    var a' := a % n;
    if a' == 0 {
      ZeroStep(a, n);
    } else if a' % 2 == 0 {
      var h := a' / 2;
      EvenUnfold(a, n, h);
      JacobiZeroIffNotCoprime(h, n);
      EvenStep(a, n, h);
    } else {
      JacobiZeroIffNotCoprime(n, a');
      OddStep(a, n, a');
    }
  }

  lemma ZeroStep(a: int, n: nat)
    requires n % 2 == 1 && a % n == 0
    ensures Jacobi(a, n) == 0 <==> Gcd(a % n, n) != 1
  {
    assert Gcd(0, n) == n;
  }

  lemma EvenStep(a: int, n: nat, h: nat)
    requires n % 2 == 1 && a % n != 0 && (a % n) % 2 == 0 && h == (a % n) / 2
    requires Jacobi(h, n) == 0 <==> Gcd(h % n, n) != 1
    ensures Jacobi(a, n) == 0 <==> Gcd(a % n, n) != 1
  {
    EvenUnfold(a, n, h);
    HalvingKeepsCoprime(h, n);
  }

  lemma EvenUnfold(a: int, n: nat, h: nat)
    requires n % 2 == 1 && a % n != 0 && (a % n) % 2 == 0 && h == (a % n) / 2
    ensures h % n == h && 2 * h == a % n
    ensures Jacobi(a, n) == Jacobi(h, n) || Jacobi(a, n) == -Jacobi(h, n)
  {
    var a' := a % n;
    HalfReduced(a', n);
    assert Jacobi(a, n) == (if n % 8 == 3 || n % 8 == 5 then -Jacobi(h, n) else Jacobi(h, n));
  }

  lemma OddStep(a: int, n: nat, a': nat)
    requires n % 2 == 1 && a' == a % n && a' != 0 && a' % 2 == 1
    requires Jacobi(n, a') == 0 <==> Gcd(n % a', a') != 1
    ensures Jacobi(a, n) == 0 <==> Gcd(a % n, n) != 1
  {
    OddUnfold(a, n, a');
    GcdSymmetric(n % a', a');
  }

  lemma OddUnfold(a: int, n: nat, a': nat)
    requires n % 2 == 1 && a' == a % n && a' != 0 && a' % 2 == 1
    ensures Jacobi(a, n) == Jacobi(n, a') || Jacobi(a, n) == -Jacobi(n, a')
    ensures Gcd(a', n) == Gcd(a', n % a')
  {
    assert Jacobi(a, n) == (if a' % 4 == 3 && n % 4 == 3 then -Jacobi(n, a') else Jacobi(n, a'));
    DivModUnique(a', n, 0, a');
    assert Gcd(a', n) == Gcd(n, a' % n);
    assert Gcd(n, a') == Gcd(a', n % a');
  }

  /** For odd `n`, `2*h` is coprime to `n` exactly when `h` is. */
  lemma HalvingKeepsCoprime(h: nat, n: nat)
    requires n % 2 == 1 && h > 0
    ensures Gcd(2 * h, n) == 1 <==> Gcd(h, n) == 1
  {
    if Gcd(2 * h, n) == 1 {
      var d := Gcd(h, n);
      GcdDivides(h, n);
      assert (2 * h) % d == 0 by {
        DividesCombination(d, h, n, 2, 0);
      }
      GcdGreatest(2 * h, n, d);
      DivisorAtMost(d, 1);
    }
    if Gcd(h, n) == 1 {
      var (x, y) := ExtGcd(h, n);
      var (u, v) := ExtGcd(2, n);
      assert Gcd(2, n) == 1 by {
        GcdDivides(2, n);
        DivisorAtMost(Gcd(2, n), 2);
      }
      ProductOfUnits(2, h, n, u, v, x, y);
    }
  }

  /** If `a*u + n*v == 1` and `b*x + n*y == 1` then `a*b` is coprime to `n`. */
  lemma ProductOfUnits(a: nat, b: nat, n: nat, u: int, v: int, x: int, y: int)
    requires n > 0 && a * u + n * v == 1 && b * x + n * y == 1
    ensures Gcd(a * b, n) == 1
  {
    assert (a * b) * (u * x) + n * (v * b * x + a * u * y + v * n * y) == 1 by {
      assert (a * u + n * v) * (b * x + n * y) == 1;
    }
    CombinationOneCoprime(a * b, n, u * x, v * b * x + a * u * y + v * n * y);
  }

  /** Euclid's gcd does not depend on the order of its arguments. */
  lemma GcdSymmetric(a: nat, b: nat)
    requires a > 0 || b > 0
    ensures Gcd(a, b) == Gcd(b, a)
  {
    GcdDivides(a, b);
    GcdDivides(b, a);
    GcdGreatest(a, b, Gcd(b, a));
    GcdGreatest(b, a, Gcd(a, b));
    DivisorAtMost(Gcd(a, b), Gcd(b, a));
    DivisorAtMost(Gcd(b, a), Gcd(a, b));
  }
}
