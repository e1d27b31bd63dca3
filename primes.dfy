/**
  Primality as the tree's constructor uses it to choose the capacity of a
  hashed leaf, and the number-theoretic fact that makes double hashing visit
  every slot of a prime-sized table.
*/
module Primes {
  /** `d` divides `n`. */
  predicate Divides(d: int, n: int)
    requires d > 0
  {
    n % d == 0
  }

  /** `n` is a prime number. */
  ghost predicate IsPrimeNumber(n: int) {
    n >= 2 && forall d :: 2 <= d < n ==> !Divides(d, n)
  }

  /** Euclidean division by a positive number. */
  lemma DivMod(n: int, p: int)
    requires p > 0
    ensures n == p * (n / p) + n % p && 0 <= n % p < p
  {
  }

  /** A number below the divisor is its own remainder. */
  lemma SmallRemainder(n: int, p: int)
    requires 0 <= n < p
    ensures n % p == n
  {
    DivMod(n, p);
    var q := n / p;
    if q >= 1 {
      MulAtLeast(p, q);
    } else if q <= -1 {
      MulAtMost(p, q);
    }
  }

  /** A positive multiple of a positive number is at least that number. */
  lemma MulAtLeast(p: int, k: int)
    requires p > 0 && k >= 1
    ensures p * k >= p
  {
  }

  /** A negative multiple of a positive number is at most its negation. */
  lemma MulAtMost(p: int, k: int)
    requires p > 0 && k <= -1
    ensures p * k <= -p
  {
  }

  /** Multiplication by a non-negative number is monotonic. */
  lemma MulMonotonic(a: int, b: int, c: int)
    requires 0 <= a <= b && 0 <= c
    ensures a * c <= b * c
  {
  }

  /** A multiple of `p` leaves no remainder. */
  lemma MultipleHasNoRemainder(p: int, x: int)
    requires p > 0
    ensures (p * x) % p == 0
  {
    var n := p * x;
    var q, r := n / p, n % p;
    DivMod(n, p);
    var k := x - q;
    assert r == p * x - p * q;
    assert r == p * k;
    if k >= 1 {
      MulAtLeast(p, k);
    } else if k <= -1 {
      MulAtMost(p, k);
    }
  }

  /** An odd number has no even divisor. */
  lemma OddHasOnlyOddDivisors(d: int, n: int)
    requires d > 0 && d % 2 == 0 && n % 2 == 1
    ensures !Divides(d, n)
  {
    if Divides(d, n) {
      var q := n / d;
      DivMod(n, d);
      assert n == d * q;
      assert n == 2 * ((d / 2) * q);
      MultipleHasNoRemainder(2, (d / 2) * q);
    }
  }

  /** A number with a proper divisor has one whose square does not exceed it. */
  lemma SmallDivisor(n: int, d: int) returns (e: int)
    requires 2 <= d < n && Divides(d, n)
    ensures 2 <= e && e * e <= n && Divides(e, n)
  {
    var q := n / d;
    DivMod(n, d);
    assert n == d * q;
    if q < 2 {
      MulMonotonic(q, 1, d);
    }
    MultipleHasNoRemainder(q, d);
    assert d * q == q * d;
    if d <= q {
      e := d;
      MulMonotonic(d, q, d);
    } else {
      e := q;
      MulMonotonic(q, d, q);
    }
  }

  /** Squares are monotonic on non-negative numbers. */
  lemma SquareMonotonic(x: int, y: int)
    requires 0 <= x && 0 <= y && x * x < y * y
    ensures x < y
  {
    if x >= y {
      MulMonotonic(y, x, x);
      MulMonotonic(y, x, y);
    }
  }

  /**
    `isPrime`: an even number is never prime here, 1 is accepted, and an odd
    number from 3 on is tried against the odd divisors up to its square root
    (written `i * i <= val` instead of comparing with `Math.sqrt`).
  */
  method IsPrime(val: int) returns (r: bool)
    requires val >= 1
    ensures r <==> val % 2 == 1 && (val == 1 || IsPrimeNumber(val))
  {
    if val % 2 == 0 {
      return false;
    }
    var i := 3;
    while i * i <= val
      invariant i >= 3 && i % 2 == 1
      invariant forall d :: 2 <= d < i ==> !Divides(d, val)
    {
      if val % i == 0 {
        MulMonotonic(1, i, i);
        assert Divides(i, val) && 2 <= i < val;
        return false;
      }
      OddHasOnlyOddDivisors(i + 1, val);
      i := i + 2;
    }
    if val > 1 {
      forall d | 2 <= d < val
        ensures !Divides(d, val)
      {
        if Divides(d, val) {
          var e := SmallDivisor(val, d);
          SquareMonotonic(e, i);
        }
      }
    }
    return true;
  }

  /**
    The capacity of a hashed leaf: from `maxNodes + 1` down in steps of two
    until the first value `IsPrime` accepts.  With an even `maxNodes` of at
    least 2 it is the largest prime not above `maxNodes + 1`.
  */
  method HashPageCapacity(maxNodes: int) returns (capacity: int)
    requires maxNodes >= 2 && maxNodes % 2 == 0
    ensures 3 <= capacity <= maxNodes + 1 && capacity % 2 == 1
    ensures IsPrimeNumber(capacity)
    ensures forall n :: capacity < n <= maxNodes + 1 && n % 2 == 1 ==> !IsPrimeNumber(n)
  {
    capacity := maxNodes + 1;
    var prime := IsPrime(capacity);
    assert IsPrimeNumber(3);
    while !prime
      invariant 3 <= capacity <= maxNodes + 1 && capacity % 2 == 1
      invariant prime <==> IsPrimeNumber(capacity)
      invariant forall n :: capacity < n <= maxNodes + 1 && n % 2 == 1 ==> !IsPrimeNumber(n)
      decreases capacity
    {
      capacity := capacity - 2;
      prime := IsPrime(capacity);
    }
  }

  /**
    Euclid's lemma: a prime that divides a product of a number below it and
    another number divides the other number.
  */
  lemma {:induction false} PrimeDividesFactor(p: int, a: int, b: int)
    requires IsPrimeNumber(p) && 0 < a < p && (a * b) % p == 0
    ensures b % p == 0
    decreases a
  {
    if a > 1 {
      assert !Divides(a, p);
      var q, r := p / a, p % a;
      assert p == a * q + r && 0 < r < a;
      var c := (a * b) / p;
      assert a * b == p * c;
      calc {
        r * b;
        (p - a * q) * b;
        p * b - q * (a * b);
        p * b - q * (p * c);
        p * (b - q * c);
      }
      MultipleHasNoRemainder(p, b - q * c);
      PrimeDividesFactor(p, r, b);
    }
  }
}
