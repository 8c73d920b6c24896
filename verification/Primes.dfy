/** Divisibility, prime numbers, and Euclid's theorem that there is always a larger one. */
module Primes {
  import opened Residues

  predicate Divides(d: int, n: int)
    requires d > 0
  {
    n % d == 0
  }

  /** Prime: at least 2 and without a divisor strictly between 1 and itself. */
  ghost predicate IsPrimeNumber(n: int) {
    n >= 2 && forall d :: 2 <= d < n ==> !Divides(d, n)
  }

  lemma MultipleIsDivisible(d: int, k: int)
    requires d > 0
    ensures Divides(d, d * k)
    decreases if k < 0 then -k else k
  {
    if k > 0 {
      MultipleIsDivisible(d, k - 1);
      AddingDivisor(d, d * (k - 1));
      assert d * k == d * (k - 1) + d;
    } else if k < 0 {
      MultipleIsDivisible(d, k + 1);
      AddingDivisor(d, d * k);
      assert d * (k + 1) == d * k + d;
    }
  }

  lemma AddingDivisor(d: int, n: int)
    requires d > 0
    ensures (n + d) % d == n % d
  {
    var q, r := n / d, n % d;
    assert n + d == (q + 1) * d + r;
    assert (n + d) % d == r by {
      DivModUnique(n + d, d, q + 1, r);
    }
  }

  /** The cofactor of a divisor. */
  lemma Cofactor(d: int, n: int) returns (k: int)
    requires d > 0 && Divides(d, n)
    ensures n == d * k
  {
    k := n / d;
  }

  lemma DividesTransitive(a: int, b: int, n: int)
    requires a > 0 && b > 0 && Divides(a, b) && Divides(b, n)
    ensures Divides(a, n)
  {
    var k := Cofactor(a, b);
    var m := Cofactor(b, n);
    assert n == a * (k * m);
    MultipleIsDivisible(a, k * m);
  }

  lemma ProductMonotone(e: int, d: int)
    requires d > 0
    ensures e >= d ==> e * d >= d * d
  {
  }

  /** If there is a divisor at all, there is one up to the square root. */
  lemma SmallDivisor(n: int, d: int) returns (e: int)
    requires 2 <= d < n && Divides(d, n)
    ensures 2 <= e < n && e * e <= n && Divides(e, n)
  {
    if d * d <= n {
      e := d;
    } else {
      e := Cofactor(d, n);
      assert e * d == n;
      MultipleIsDivisible(e, d) by {
        assert e > 0;
      }
      ProductMonotone(e, d);
      assert e < d && e * e <= e * d;
      assert e != 1;
    }
  }

  // ----- Euclid's theorem -----

  function Factorial(n: nat): nat {
    if n == 0 then 1 else n * Factorial(n - 1)
  }

  lemma {:induction false} DividesFactorial(d: int, n: nat)
    requires 1 <= d <= n
    ensures Divides(d, Factorial(n)) && Factorial(n) >= 1
  {
    FactorialIsPositive(n - 1);
    if d == n {
      MultipleIsDivisible(n, Factorial(n - 1));
    } else {
      DividesFactorial(d, n - 1);
      var k := Cofactor(d, Factorial(n - 1));
      assert Factorial(n) == d * (k * n);
      MultipleIsDivisible(d, k * n);
    }
  }

  lemma {:induction false} FactorialIsPositive(n: nat)
    ensures Factorial(n) >= 1
  {
    if n > 0 {
      FactorialIsPositive(n - 1);
    }
  }

  /** The least divisor greater than 1 is prime. */
  lemma PrimeDivisor(n: int) returns (p: int)
    requires n >= 2
    ensures IsPrimeNumber(p) && p <= n && Divides(p, n)
  {
    p := 2;
    while !Divides(p, n)
      invariant 2 <= p <= n && forall d :: 2 <= d < p ==> !Divides(d, n)
      decreases n - p
    {
      MultipleIsDivisible(n, 1);
      p := p + 1;
    }
    forall d | 2 <= d < p
      ensures !Divides(d, p)
    {
      if Divides(d, p) {
        DividesTransitive(d, p, n);
        assert false;
      }
    }
  }

  lemma PrimeAbove(n: nat) returns (p: int)
    ensures IsPrimeNumber(p) && p > n
  {
    FactorialIsPositive(n);
    p := PrimeDivisor(Factorial(n) + 1);
    if p <= n {
      DividesFactorial(p, n);
      var k := Cofactor(p, Factorial(n));
      DivModUnique(Factorial(n) + 1, p, k, 1);
      assert false;
    }
  }

  /** The least prime above `n`. */
  ghost predicate IsNextPrime(n: int, p: int) {
    IsPrimeNumber(p) && p > n && forall q :: n < q < p ==> !IsPrimeNumber(q)
  }

  lemma NextPrimeIsUnique(n: int, p: int, q: int)
    requires IsNextPrime(n, p) && IsNextPrime(n, q)
    ensures p == q
  {
  }
}
