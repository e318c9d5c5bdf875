/** Primality and Sage's `next_prime`. Sage's `next_prime(n)` is the smallest
    prime strictly greater than `n`; its search terminates because Euclid's
    argument puts a prime in `(n, n! + 1]`. The `is_prime` test used on the
    candidate triple is NOT this predicate: it is an oracle parameter of the
    construction (see module Pseudoprime). */
module Primes {
  import opened Arith
  import opened Gcds

  /** Trial-division primality: at least 2, with no divisor strictly between 1 and itself. */
  predicate IsPrime(p: int)
  {
    p >= 2 && forall d :: 2 <= d < p ==> p % d != 0
  }

  function Factorial(n: nat): (r: nat)
    ensures r >= 1
  {
    if n == 0 then 1 else n * Factorial(n - 1)
  }

  /** Every number from 1 to `n` divides `n!`. */
  lemma {:induction false} FactorialDivisible(n: nat, d: int)
    requires 1 <= d <= n
    ensures Factorial(n) % d == 0
  {
    if d == n {
      MultipleMod(Factorial(n - 1), n);
    } else {
      FactorialDivisible(n - 1, d);
      MultipleMod(n, Factorial(n - 1));
      DividesTransitive(d, Factorial(n - 1), Factorial(n));
    }
  }

  /** The least divisor of `m` that is at least `d`, given none below `d` exists. */
  function LeastDivisorFrom(m: nat, d: nat): (r: nat)
    requires 2 <= d <= m
    requires forall e :: 2 <= e < d ==> m % e != 0
    ensures d <= r <= m && m % r == 0
    ensures forall e :: 2 <= e < r ==> m % e != 0
    decreases m - d
  {
    if m % d == 0 then d
    else
      assert d < m by {
        if d == m { MultipleMod(1, m); }
      }
      LeastDivisorFrom(m, d + 1)
  }

  /** The least divisor above 1 of a number is prime. */
  lemma LeastDivisorIsPrime(m: nat)
    requires m >= 2
    ensures IsPrime(LeastDivisorFrom(m, 2))
  {
    var p := LeastDivisorFrom(m, 2);
    forall e | 2 <= e < p
      ensures p % e != 0
    {
      if p % e == 0 {
        DividesTransitive(e, p, m);
      }
    }
  }

  /** Euclid: some prime lies in `(n, max(n, 1)! + 1]`. */
  lemma EuclidPrime(n: int)
    ensures exists p :: IsPrime(p) && n < p <= EuclidBound(n)
  {
    var k: nat := if n < 1 then 1 else n;
    var m := Factorial(k) + 1;
    LeastDivisorIsPrime(m);
    var p := LeastDivisorFrom(m, 2);
    if p <= k {
      FactorialDivisible(k, p);
      CongruentIffDividesDifference(m, Factorial(k), p);
    }
  }

  function EuclidBound(n: int): int
  {
    Factorial(if n < 1 then 1 else n) + 1
  }

  /** Scan upward from `x` for the first prime, no prime lying in `(n, x)`. */
  function NextPrimeFrom(n: int, x: int): (r: int)
    requires n < x
    requires forall q :: n < q < x ==> !IsPrime(q)
    ensures n < r && IsPrime(r)
    ensures forall q :: n < q < r ==> !IsPrime(q)
    decreases EuclidBound(n) - x
  {
    if IsPrime(x) then x
    else
      EuclidPrime(n);
      NextPrimeFrom(n, x + 1)
  }

  /** Sage's `next_prime(n)`: the smallest prime strictly greater than `n`. */
  function NextPrime(n: int): (r: int)
    ensures n < r && IsPrime(r)
    ensures forall q :: n < q < r ==> !IsPrime(q)
  {
    NextPrimeFrom(n, n + 1)
  }

  /** `next_prime` applied `t` times: the `t`-th prime above `k`. */
  function NextPrimeIter(k: int, t: nat): (r: int)
    ensures t > 0 ==> IsPrime(r)
    ensures t > 0 ==> k < r
  {
    if t == 0 then k else NextPrime(NextPrimeIter(k, t - 1))
  }

  /** A divisor of a prime is 1 or the prime itself. */
  lemma PrimeDivisor(p: int, d: int)
    requires IsPrime(p) && d >= 1 && p % d == 0
    ensures d == 1 || d == p
  {
    DivisorAtMost(d, p);
  }

  /** Two distinct primes are coprime, the first reduced modulo the second. */
  lemma DistinctPrimesCoprime(p: int, q: int)
    requires IsPrime(p) && IsPrime(q) && p != q
    ensures Gcd(q % p, p) == 1
  {
    var g := Gcd(q % p, p);
    GcdDivides(q % p, p);
    PrimeDivisor(p, g);
    if q > p {
      assert 2 <= p < q;
    } else {
      DivModUnique(q, p, 0, q);
    }
    if g == p {
      DivisorAtMost(p, q % p);
    }
  }

  /** An odd prime shares no factor with 4. */
  lemma OddPrimeCoprimeToFour(k: int)
    requires IsPrime(k) && k > 2
    ensures Gcd(k, 4) == 1
  {
    var h := Gcd(k, 4);
    GcdDivides(k, 4);
    PrimeDivisor(k, h);
    assert k % 2 != 0;
    if h == k {
      DivisorAtMost(k, 4);
    }
  }

  /** A prime above 2 that exceeds `a >= 1` shares no factor with `4*a`. */
  lemma OddPrimeCoprimeToFourA(k: int, a: int)
    requires IsPrime(k) && k > 2 && 1 <= a < k
    ensures Gcd(k, 4 * a) == 1
  {
    var g := Gcd(k, 4 * a);
    GcdDivides(k, 4 * a);
    PrimeDivisor(k, g);
    if g == k {
      // k divides 4a and is coprime to 4, so by Bezout it divides a
      OddPrimeCoprimeToFour(k);
      var (x, y) := ExtGcd(k, 4);
      CoprimeDividesFactor(k, 4, a, x, y);
      DivisorAtMost(k, a);
    }
  }

  /** Euclid's lemma through Bezout: if `k*x + m*y == 1` and `k` divides `m*a`, then `k` divides `a`. */
  lemma CoprimeDividesFactor(k: int, m: int, a: int, x: int, y: int)
    requires k > 0 && k * x + m * y == 1 && (m * a) % k == 0
    ensures a % k == 0
  {
    assert a == k * (x * a) + (m * a) * y by {
      assert a == (k * x + m * y) * a;
    }
    MultipleMod(1, k);
    DividesCombination(k, k, m * a, x * a, y);
  }
}
