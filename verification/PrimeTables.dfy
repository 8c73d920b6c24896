/** Prime tables: on the fly by trial division, precalculated by a sieve, and a hybrid of
    the two that must agree with trial division on every query. */
module PrimeTables {
  import opened Primes
  import opened Residues

  /** Trial division that found no divisor up to the square root has found a prime. */
  lemma NoSmallDivisorMeansPrime(n: int, bound: int)
    requires n >= 2 && bound * bound > n && bound >= 2
    requires forall d :: 2 <= d < bound && d < n ==> !Divides(d, n)
    ensures IsPrimeNumber(n)
  {
    if d :| 2 <= d < n && Divides(d, n) {
      var e := SmallDivisor(n, d);
      SquaresGrow(bound, e);
      assert false;
    }
  }

  lemma SquaresGrow(a: int, b: int)
    requires 0 <= a
    ensures a <= b ==> a * a <= b * b
  {
  }

  // ----- on the fly -----

  class OnTheFlyPrimeTable {
    constructor () {}

    method IsPrime(n: int) returns (prime: bool)
      ensures prime <==> IsPrimeNumber(n)
    {
      if n <= 1 {
        return false;
      }
      var i := 2;
      while i * i <= n
        invariant 2 <= i
        invariant i <= n
        invariant forall d :: 2 <= d < i && d < n ==> !Divides(d, n)
        decreases n - i
      {
        if n % i == 0 {
          SquareIsLarger(i);
          assert Divides(i, n);
          return false;
        }
        SquareIsLarger(i);
        i := i + 1;
      }
      NoSmallDivisorMeansPrime(n, i);
      return true;
    }

    /** Ends because there is always a larger prime; the final -1 of the source is reached
        only by overflow or, at once, from a negative argument. */
    method GetNextPrime(p: int) returns (next: int)
      ensures p >= 0 ==> IsNextPrime(p, next)
      ensures p < 0 ==> next == -1
    {
      ghost var larger := PrimeAbove(if p >= 0 then p else 0);
      var n := p + 1;
      while n > 0
        invariant if p >= 0 then p < n <= larger else n == p + 1
        invariant forall q :: p < q < n ==> !IsPrimeNumber(q)
        decreases larger - n
      {
        var prime := IsPrime(n);
        if prime {
          return n;
        }
        n := n + 1;
      }
      return -1;
    }
  }

  lemma SquareIsLarger(i: int)
    requires i >= 2
    ensures i < i * i
  {
  }

  // ----- odd trial division -----

  lemma EvenDoesNotDivideOdd(d: int, n: int)
    requires d > 0 && d % 2 == 0 && n % 2 == 1
    ensures !Divides(d, n)
  {
    if Divides(d, n) {
      DividesTransitive(2, d, n);
      assert false;
    }
  }

  lemma DivisionBound(n: int, i: int)
    requires n >= 0 && i > 0
    ensures i > n / i <==> i * i > n
  {
    var q, r := n / i, n % i;
    assert n == q * i + r;
    if i > q {
      OneMoreMultiple(q, i, i);
    } else if i < q {
      OneMoreMultiple(i, q, i);
    }
  }

  /** Divides by 2 and by the odd numbers up to a bound found by division. */
  method IsPrime(n: int) returns (prime: bool)
    ensures prime <==> IsPrimeNumber(n)
  {
    if n <= 1 {
      return false;
    }
    if n % 2 == 0 {
      assert Divides(2, n);
      return n == 2;
    }
    var i := 3;
    while true
      invariant 3 <= i <= n + 2 && i % 2 == 1
      invariant forall d :: 2 <= d < i && d < n ==> !Divides(d, n)
      decreases n + 2 - i
    {
      DivisionBound(n, i);
      if i > n / i {
        break;
      }
      SquareIsLarger(i);
      assert i < n;
      if n % i == 0 {
        assert Divides(i, n);
        return false;
      }
      EvenDoesNotDivideOdd(i + 1, n);
      i := i + 2;
    }
    NoSmallDivisorMeansPrime(n, i);
    return true;
  }

  // ----- the sieve -----

  /** Entry `n` of a table sieved by all numbers below `i`. */
  ghost predicate Sieved(n: int, i: int) {
    n >= 2 && forall d :: 2 <= d < i && d < n ==> !Divides(d, n)
  }

  /** Sieving by a composite number changes nothing. */
  lemma CompositeSievesNothing(n: int, i: int)
    requires i >= 2 && !Sieved(i, i)
    ensures Sieved(n, i + 1) <==> Sieved(n, i)
  {
    var d :| 2 <= d < i && Divides(d, i);
    if Sieved(n, i) && i < n && Divides(i, n) {
      DividesTransitive(d, i, n);
      assert false;
    }
  }

  class PreCalculatedPrimeTable {
    const isPrimeSize: int
    const isPrime: array<bool>

    ghost predicate Valid()
      reads isPrime
    {
      isPrime.Length == isPrimeSize && forall n :: 0 <= n < isPrimeSize ==> (isPrime[n] <==> IsPrimeNumber(n))
    }

    constructor (max: int)
      requires max >= 1
      ensures Valid() && isPrimeSize == max + 1
    {
      isPrimeSize := max + 1;
      isPrime := new bool[max + 1];
      new;
      CalculatePrimesUpTo(max);
    }

    method CalculatePrimesUpTo(max: int)
      requires 1 <= max && isPrime.Length == isPrimeSize == max + 1
      modifies isPrime
      ensures Valid()
    {
      for n := 0 to isPrimeSize
        invariant forall k :: 0 <= k < n ==> isPrime[k]
      {
        isPrime[n] := true;
      }
      isPrime[0], isPrime[1] := false, false;
      var i := 2;
      while i <= max
        invariant 2 <= i <= max + 1
        invariant forall n :: 0 <= n <= max ==> (isPrime[n] <==> Sieved(n, i))
      {
        if isPrime[i] {
          MarkMultiples(i, max);
        } else {
          forall n | 0 <= n <= max
            ensures Sieved(n, i + 1) <==> Sieved(n, i)
          {
            CompositeSievesNothing(n, i);
          }
        }
        i := i + 1;
      }
    }

    /** Marks all multiples of `i`, except `i` itself, as non-prime. */
    method MarkMultiples(i: int, max: int)
      requires 2 <= i <= max && isPrime.Length == max + 1
      requires forall n :: 0 <= n <= max ==> (isPrime[n] <==> Sieved(n, i))
      modifies isPrime
      ensures forall n :: 0 <= n <= max ==> (isPrime[n] <==> Sieved(n, i + 1))
    {
      var j := 2 * i;
      MultipleIsDivisible(i, 2);
      while j <= max
        invariant i < j <= max + i && Divides(i, j)
        invariant forall n :: 0 <= n <= max ==> (isPrime[n] <==> Sieved(n, i) && !(i < n < j && Divides(i, n)))
      {
        isPrime[j] := false;
        AddingDivisor(i, j);
        NothingBetweenMultiples(i, j);
        j := j + i;
      }
    }

    method IsPrime(n: int) returns (prime: bool)
      requires Valid()
      ensures prime <==> n < isPrimeSize && IsPrimeNumber(n)
    {
      return 0 <= n < isPrimeSize && isPrime[n];
    }

    method GetNextPrime(p: int) returns (next: int)
      requires Valid() && p >= -1
      ensures next == -1 ==> forall q :: p < q < isPrimeSize ==> !IsPrimeNumber(q)
      ensures next != -1 ==> next < isPrimeSize && IsNextPrime(p, next)
    {
      var n := p + 1;
      while n < isPrimeSize
        invariant p < n && forall q :: p < q < n && q < isPrimeSize ==> !IsPrimeNumber(q)
      {
        if isPrime[n] {
          return n;
        }
        n := n + 1;
      }
      return -1;
    }
  }

  lemma NothingBetweenMultiples(i: int, j: int)
    requires i > 0 && Divides(i, j)
    ensures forall n :: j < n < j + i ==> !Divides(i, n)
  {
    forall n | j < n < j + i
      ensures !Divides(i, n)
    {
      var k := Cofactor(i, j);
      DivModUnique(n, i, k, n - j);
    }
  }

  // ----- the hybrid -----

  class HybridPrimeTable {
    const onTheFly: OnTheFlyPrimeTable
    const precalc: PreCalculatedPrimeTable?
    const maxPrecalculated: int

    ghost predicate Valid()
      reads if precalc == null then {} else {precalc.isPrime}
    {
      precalc != null ==> precalc.Valid() && maxPrecalculated >= 1 && precalc.isPrimeSize == maxPrecalculated + 1
    }

    constructor (forceOnTheFly: bool, maxPrecalculated: int)
      requires !forceOnTheFly ==> maxPrecalculated >= 1
      ensures Valid() && (precalc == null <==> forceOnTheFly)
    {
      onTheFly := new OnTheFlyPrimeTable();
      if forceOnTheFly {
        precalc := null;
      } else {
        precalc := new PreCalculatedPrimeTable(maxPrecalculated);
      }
      this.maxPrecalculated := maxPrecalculated;
    }

    /** Agrees with trial division, whichever of the two tables answers. */
    method IsPrime(n: int) returns (prime: bool)
      requires Valid()
      ensures prime <==> IsPrimeNumber(n)
    {
      if precalc != null && n < maxPrecalculated {
        prime := precalc.IsPrime(n);
      } else {
        prime := onTheFly.IsPrime(n);
      }
    }

    /** Agrees with the search on the fly from every `p` that is not negative. From -1 it
        finds the prime 2 if there is a table that holds it, where the search gives up. */
    method GetNextPrime(p: int) returns (next: int)
      requires Valid() && (precalc != null ==> p >= -1)
      ensures p >= 0 ==> IsNextPrime(p, next)
      ensures p < 0 ==> next == if precalc != null && maxPrecalculated >= 2 then 2 else -1
    {
      next := -1;
      assert IsPrimeNumber(2) && IsNextPrime(-1, 2);
      if precalc != null && p < maxPrecalculated {
        next := precalc.GetNextPrime(p);
      }
      if next == -1 {
        next := onTheFly.GetNextPrime(p);
      }
    }
  }
}
