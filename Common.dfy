/**
 * Shared vocabulary of the model: the unsigned 32-bit integers the sieve works
 * with, failure-carrying results, the integer square root that stands in for
 * the floating-point sqrtf of the original, and divisibility facts about primes.
 */
module Common {

  /** 2^32: the number of values of an unsigned 32-bit integer. */
  const U32_LIMIT: int := 0x1_0000_0000

  /** uint32_t */
  type u32 = x: int | 0 <= x < U32_LIMIT

  datatype Option<T> = None | Some(value: T)

  datatype Result<T, E> = Success(value: T) | Failure(error: E)

  function Max(a: int, b: int): int { if a < b then b else a }

  function Min(a: int, b: int): int { if a < b then a else b }

  /** Unsigned 32-bit subtraction: wraps around modulo 2^32. */
  function Sub32(a: u32, b: u32): (r: u32)
    ensures a >= b ==> r == a - b
    ensures a < b ==> r == a - b + U32_LIMIT
  {
    (a - b) % U32_LIMIT
  }

  /** Floor of the square root. */
  function ISqrt(n: nat): (r: nat)
    ensures r * r <= n < (r + 1) * (r + 1)
  {
    if n == 0 then 0
    else
      var s := ISqrt(n / 4);
      var r0 := 2 * s;
      ISqrtStep(n, s);
      if (r0 + 1) * (r0 + 1) <= n then r0 + 1 else r0
  }

  lemma ISqrtStep(n: nat, s: nat)
    requires n > 0
    requires s * s <= n / 4 < (s + 1) * (s + 1)
    ensures (2 * s) * (2 * s) <= n < (2 * s + 2) * (2 * s + 2)
  {
    var q := n / 4;
    assert n == 4 * q + n % 4;
    assert (2 * s) * (2 * s) == 4 * (s * s);
    assert (2 * s + 2) * (2 * s + 2) == 4 * ((s + 1) * (s + 1));
    assert q + 1 <= (s + 1) * (s + 1);
  }

  /** The floor square root never exceeds its argument. */
  lemma ISqrtAtMost(n: nat)
    ensures ISqrt(n) <= n
  {
    var r := ISqrt(n);
    if r >= 1 {
      MulAtLeast(r, r);
    }
  }

  /** The floor square root is the only number whose square brackets n. */
  lemma ISqrtUnique(n: nat, r: nat)
    requires r * r <= n < (r + 1) * (r + 1)
    ensures r == ISqrt(n)
  {
    var s := ISqrt(n);
    if r < s {
      MulMono(r + 1, s);
      assert false;
    } else if s < r {
      MulMono(s + 1, r);
      assert false;
    }
  }

  lemma MulMono(a: nat, b: nat)
    requires a <= b
    ensures a * a <= b * b
  {
    assert a * a <= a * b;
    assert a * b <= b * b;
  }

  ghost predicate IsPrime(n: int)
  {
    n >= 2 && forall d :: 2 <= d < n ==> n % d != 0
  }

  /** n has no divisor in [2, k]. */
  ghost predicate NoDivisorUpTo(n: int, k: int)
  {
    forall d :: 2 <= d <= k ==> n % d != 0
  }

  /** The smallest divisor of n that is at least 2. */
  function SmallestDivisor(n: nat): (d: nat)
    requires n >= 2
    ensures 2 <= d <= n && n % d == 0
    ensures forall e :: 2 <= e < d ==> n % e != 0
  {
    SmallestDivisorFrom(n, 2)
  }

  function SmallestDivisorFrom(n: nat, lo: nat): (d: nat)
    requires 2 <= lo <= n
    requires forall e :: 2 <= e < lo ==> n % e != 0
    ensures lo <= d <= n && n % d == 0
    ensures forall e :: 2 <= e < d ==> n % e != 0
    decreases n - lo
  {
    if n % lo == 0 then lo
    else
      ModUnique(n, 1, 0, n);
      SmallestDivisorFrom(n, lo + 1)
  }

  lemma DivisorTransitive(a: nat, b: nat, c: nat)
    requires b > 0 && c > 0
    requires a % b == 0 && b % c == 0
    ensures a % c == 0
  {
    var x := a / b;
    var y := b / c;
    assert a == b * x;
    assert b == c * y;
    assert a == c * (y * x);
    ModOfMultiple(y * x, c);
  }

  lemma MulAtLeast(a: int, c: int)
    requires a >= 1 && c > 0
    ensures c * a >= c
  {}

  /** A product is a multiple of its second factor (stated without a precondition). */
  lemma MultipleOf(k: nat, c: nat)
    ensures c > 0 ==> (k * c) % c == 0
  {
    if c > 0 {
      ModOfMultiple(k, c);
    }
  }

  lemma ModOfMultiple(k: nat, c: nat)
    requires c > 0
    ensures (c * k) % c == 0 && (k * c) % c == 0
  {
    var x := c * k;
    var q := x / c;
    var r := x % c;
    assert x == c * q + r;
    assert c * (k - q) == r;
    if k - q >= 1 {
      MulAtLeast(k - q, c);
    } else if k - q <= -1 {
      MulAtLeast(q - k, c);
    }
    assert k * c == x;
  }

  /** Division with remainder is unique. */
  lemma ModUnique(x: int, q: int, r: int, m: int)
    requires m > 0 && 0 <= r < m && x == q * m + r
    ensures x % m == r && x / m == q
  {
    var q0, r0 := x / m, x % m;
    assert x == m * q0 + r0;
    assert m * (q0 - q) == r - r0;
    if q0 - q >= 1 {
      MulAtLeast(q0 - q, m);
    } else if q0 - q <= -1 {
      MulAtLeast(q - q0, m);
    }
  }

  /** Sums and differences of multiples of m are multiples of m. */
  lemma DivisibleSum(a: int, b: int, m: int)
    requires m > 0 && a % m == 0 && b % m == 0
    ensures (a + b) % m == 0 && (a - b) % m == 0
  {
    var qa, qb := a / m, b / m;
    assert a == qa * m;
    assert b == qb * m;
    ModUnique(a + b, qa + qb, 0, m);
    ModUnique(a - b, qa - qb, 0, m);
  }

  /** A multiple of b * c is a multiple of b and of c. */
  lemma DivisibleFactors(a: int, b: int, c: int)
    requires b > 0 && c > 0 && a % (b * c) == 0
    ensures a % b == 0 && a % c == 0
  {
    var q := a / (b * c);
    assert a == (b * c) * q;
    assert a == (c * q) * b;
    assert a == (b * q) * c;
    ModUnique(a, c * q, 0, b);
    ModUnique(a, b * q, 0, c);
  }

  /** A multiple of p above p is at least 2p. */
  lemma MultipleAbove(x: int, p: int)
    requires p > 0 && x % p == 0 && x > p
    ensures x >= 2 * p
  {
    if x < 2 * p {
      ModUnique(x, 1, x - p, p);
    }
  }

  /** The smallest divisor (at least 2) of a number is prime. */
  lemma SmallestDivisorIsPrime(n: nat)
    requires n >= 2
    ensures IsPrime(SmallestDivisor(n))
  {
    var d := SmallestDivisor(n);
    forall e | 2 <= e < d
      ensures d % e != 0
    {
      if d % e == 0 {
        DivisorTransitive(n, d, e);
      }
    }
  }

  /** A composite number has a prime divisor whose square does not exceed it. */
  lemma SmallestDivisorSquare(n: nat)
    requires n >= 2
    requires !IsPrime(n)
    ensures var d := SmallestDivisor(n); d * d <= n
  {
    var d := SmallestDivisor(n);
    var m := n / d;
    assert n == d * m;
    MultipleOf(d, m);
    MulAtMostOne(d, m);
    assert d != n;
    assert m >= d;
    MulLe(d, m, d);
  }

  lemma MulAtMostOne(a: nat, b: nat)
    ensures b <= 1 ==> a * b <= a
  {}

  lemma MulLe(a: int, b: int, c: nat)
    requires 0 <= a <= b
    ensures a * c <= b * c
  {}
}
