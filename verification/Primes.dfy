/** Table sizes: trial division, and the search for the next prime, which ends because there
    is a prime above every bound. */
module Primes {
  import opened CArith

  ghost predicate Divides(d: int, n: int)
    requires d != 0
  {
    n % d == 0
  }

  ghost predicate Prime(n: int) {
    n >= 2 && forall d :: 2 <= d < n ==> !Divides(d, n)
  }

  /** What is_prime accepts: every number up to 3, and the primes. */
  ghost predicate Accepted(n: int) { n <= 3 || Prime(n) }

  lemma MultipleDivides(d: int, q: int)
    requires d > 0
    ensures Divides(d, d * q)
  {
    var m := d * q;
    var k := q - m / d;
    assert d * k == m % d;
    SmallMultiple(d, k);
  }

  lemma Quotient(d: int, n: int) returns (q: int)
    requires d > 0 && Divides(d, n)
    ensures n == d * q
  {
    q := n / d;
  }

  lemma DividesProduct(d: int, a: int, b: int)
    requires d > 0 && Divides(d, a)
    ensures Divides(d, a * b)
  {
    var q := Quotient(d, a);
    assert a * b == d * (q * b);
    MultipleDivides(d, q * b);
  }

  lemma DividesTransitive(a: int, b: int, c: int)
    requires a > 0 && b > 0 && Divides(a, b) && Divides(b, c)
    ensures Divides(a, c)
  {
    var q := Quotient(b, c);
    DividesProduct(a, b, q);
  }

  /** An odd number has no even divisor. */
  lemma OddDivisor(d: int, n: int)
    requires d > 0 && d % 2 == 0 && n % 2 != 0
    ensures !Divides(d, n)
  {
    if Divides(d, n) {
      assert Divides(2, d);
      DividesTransitive(2, d, n);
    }
  }

  method IsPrime(n: int) returns (b: bool)
    ensures b <==> Accepted(n)
  {
    if n <= 3 {
      return true;
    }
    if n % 2 == 0 {
      assert Divides(2, n);
      return false;
    }
    var i := 3;
    while i < n
      invariant 3 <= i && i % 2 != 0
      invariant forall d :: 2 <= d < i && d < n ==> !Divides(d, n)
    {
      if n % i == 0 {
        assert Divides(i, n);
        return false;
      }
      OddDivisor(i + 1, n);
      i := i + 2;
    }
    return true;
  }

  // ----- Euclid -----

  function Factorial(n: nat): (f: nat)
    ensures f > 0
  {
    if n == 0 then 1 else n * Factorial(n - 1)
  }

  lemma {:induction false} DividesFactorial(d: int, n: nat)
    requires 1 <= d <= n
    ensures Divides(d, Factorial(n))
  {
    if d == n {
      MultipleDivides(n, Factorial(n - 1));
    } else {
      DividesFactorial(d, n - 1);
      DividesProduct(d, Factorial(n - 1), n);
      assert Factorial(n - 1) * n == Factorial(n);
    }
  }

  lemma {:induction false} PrimeDivisor(n: int) returns (p: int)
    requires n >= 2
    ensures Prime(p) && Divides(p, n)
    decreases n
  {
    if d :| 2 <= d < n && Divides(d, n) {
      p := PrimeDivisor(d);
      DividesTransitive(p, d, n);
    } else {
      p := n;
      assert n % n == 0;
    }
  }

  /** There is a prime above every number. */
  lemma PrimeAbove(n: nat) returns (p: int)
    ensures p > n && Prime(p)
  {
    var f := Factorial(n);
    p := PrimeDivisor(f + 1);
    if p <= n {
      DividesFactorial(p, n);
      var q := Quotient(p, f);
      var r := Quotient(p, f + 1);
      assert p * (r - q) == 1;
      SmallMultiple(p, r - q);
    }
  }

  lemma SmallPrimes(n: int)
    requires 2 <= n <= 3
    ensures Prime(n)
  {
    assert 3 % 2 == 1;
  }

  /** The least number from min on that is_prime accepts: for min at least 2, the least prime. */
  method GetPrime(min: int) returns (n: int)
    ensures n >= min && Accepted(n) && forall k :: min <= k < n ==> !Accepted(k)
    ensures min >= 2 ==> Prime(n) && forall k :: min <= k < n ==> !Prime(k)
  {
    ghost var bound := PrimeAbove(if min < 0 then 0 else min);
    n := min;
    while true
      invariant min <= n <= bound && forall k :: min <= k < n ==> !Accepted(k)
      decreases bound - n
    {
      var b := IsPrime(n);
      if b {
        if 2 <= n <= 3 { SmallPrimes(n); }
        forall k | min <= k < n
          ensures !Prime(k)
        {
          assert !Accepted(k);
        }
        return n;
      }
      n := n + 1;
    }
  }
}
