/**
 * The search engine. From the intervals and the number of cores it chooses the
 * thread count and how many small primes make up the wheel, enumerates the
 * small primes by trial division, multiplies the first of them into the
 * primorial, finds the wheel spokes with an Eratosthenes pass over
 * [2, primorial), deals the spokes out to the workers, runs the workers over
 * one bitmap and wraps the result in the adapter.
 */
module Wheel {
  import opened Common
  import opened Intervals
  import opened Worker
  import opened Adapter
  import Merge

  /** The primes a wheel is made of, in order; at most four are used. */
  const FIRST_PRIMES: seq<u32> := [2, 3, 5, 7]

  // ---------------------------------------------------------------------------
  // inputDataProcessing

  /** Twice the core count (32-bit doubling), but no more threads than ranges. */
  function NumThreads(kernels: u32, numRanges: u32): (r: u32)
    ensures r <= numRanges && r <= (2 * kernels) % U32_LIMIT
    ensures r == numRanges || r == (2 * kernels) % U32_LIMIT
  {
    var t := (2 * kernels) % U32_LIMIT;
    if numRanges < t then numRanges else t
  }

  /** The tuning table: how many wheel primes for a thread count and a maximum; None is exit(1). */
  function BegPrimesNum(threads: u32, max: u32): (r: Option<u32>)
    ensures r.None? <==> threads >= 49
    ensures r.Some? ==> 2 <= r.value <= 4
  {
    if 0 < threads < 3 then
      Some(if max < 100000 then 2 else if max < 1000000 then 3 else 4)
    else if threads < 9 then
      Some(if max < 2000000 then 3 else 4)
    else if threads < 49 then
      Some(4)
    else
      None
  }

  /** For a given thread count a larger maximum never means fewer wheel primes. */
  lemma BegPrimesNumMonotone(threads: u32, m1: u32, m2: u32)
    requires threads < 49 && m1 <= m2
    ensures BegPrimesNum(threads, m1).value <= BegPrimesNum(threads, m2).value
  {}

  /**
   * The table is not monotone in the thread count: two threads over a maximum
   * of a million use four wheel primes, three threads use three.
   */
  lemma BegPrimesNumThreadsNotMonotone()
    ensures BegPrimesNum(2, 1000000) == Some(4) && BegPrimesNum(3, 1000000) == Some(3)
  {}

  /** With no core count known the thread count is 0, and the table still picks 3 or 4. */
  lemma BegPrimesNumNoThreads(max: u32)
    ensures BegPrimesNum(0, max) == Some(if max < 2000000 then 3 else 4)
  {}

  // ---------------------------------------------------------------------------
  // findPrimesEnum

  /** The search limit: one more than the floor square root of the maximum, and at least the wheel size. */
  function Quant(max: u32, begPrimesNum: u32): nat
  {
    Max(1 + ISqrt(max), begPrimesNum)
  }

  /** The primes in [2, n), ascending. */
  ghost function PrimesBelow(n: nat): seq<nat>
  {
    if n <= 2 then [] else PrimesBelow(n - 1) + (if IsPrime(n - 1) then [n - 1] else [])
  }

  ghost predicate Ascending(s: seq<int>)
  {
    forall i, j :: 0 <= i < j < |s| ==> s[i] < s[j]
  }

  /** PrimesBelow(n) holds exactly the primes below n, ascending. */
  lemma PrimesBelowExact(n: nat)
    ensures forall x :: x in PrimesBelow(n) <==> 2 <= x < n && IsPrime(x)
    ensures Ascending(PrimesBelow(n))
  {
    PrimesBelowMembers(n);
    PrimesBelowAscending(n);
  }

  lemma {:induction false} PrimesBelowMembers(n: nat)
    ensures forall x :: x in PrimesBelow(n) <==> 2 <= x < n && IsPrime(x)
  {
    if n > 2 {
      PrimesBelowMembers(n - 1);
    }
  }

  lemma {:induction false} PrimesBelowAscending(n: nat)
    ensures Ascending(PrimesBelow(n))
  {
    if n > 2 {
      PrimesBelowAscending(n - 1);
      PrimesBelowMembers(n - 1);
      var s := PrimesBelow(n - 1);
      if IsPrime(n - 1) {
        var u := s + [n - 1];
        forall i, j | 0 <= i < j < |u|
          ensures u[i] < u[j]
        {
          if j == |s| {
            assert s[i] in s;
          }
        }
      }
    }
  }

  /** Every entry of PrimesBelow(n) lies in [2, n). */
  lemma {:induction false} PrimesBelowBounds(n: nat)
    ensures forall t :: 0 <= t < |PrimesBelow(n)| ==> 2 <= PrimesBelow(n)[t] < n
  {
    if n > 2 {
      PrimesBelowBounds(n - 1);
    }
  }

  lemma ISqrtBelow16(n: nat)
    requires n < U32_LIMIT
    ensures ISqrt(n) < 0x1_0000
  {
    var r := ISqrt(n);
    if r >= 0x1_0000 {
      MulMono(0x1_0000, r);
      assert false;
    }
  }

  /** A number with a square at most n is at most the floor square root of n. */
  lemma BelowISqrt(d: nat, n: nat)
    requires d * d <= n
    ensures d <= ISqrt(n)
  {
    var r := ISqrt(n);
    if d > r {
      MulMono(r + 1, d);
      assert false;
    }
  }

  /**
   * The inner loop of findPrimesEnum: test i against the primes found so far,
   * in order, while the last one tested is below 1 + isqrt(i).
   */
  method TrialDivision(i: u32, primes: seq<u32>, j: u32) returns (fPrime: bool)
    requires 2 <= i && primes == PrimesBelow(i) && j as int == |primes|
    ensures fPrime == IsPrime(i)
  {
    PrimesBelowBounds(i as int);
    fPrime := true;
    var k: u32 := 0;
    var m: u32 := 0;
    var n := 1 + ISqrt(i);
    while m as int < n && k < j
      invariant k <= j
      invariant k == 0 ==> m == 0
      invariant 0 < k ==> m == primes[k - 1]
      invariant forall t :: 0 <= t < k ==> i % primes[t] != 0
      decreases j - k
    {
      m := if j > 0 then primes[k] else 1;
      if i % m == 0 {
        fPrime := false;
        assert !IsPrime(i) by {
          assert 2 <= m < i;
        }
        return;
      }
      k := k + 1;
    }
    TrialDivisionComplete(i as int, primes, k as int);
  }

  /**
   * Trial division is complete: a number with no divisor among the primes
   * tested, which are all the primes below it or reach past its square root,
   * is prime.
   */
  lemma TrialDivisionComplete(i: nat, primes: seq<u32>, k: nat)
    requires 2 <= i && primes == PrimesBelow(i) && k <= |primes|
    requires k < |primes| ==> 0 < k && primes[k - 1] as int >= 1 + ISqrt(i)
    requires forall t :: 0 <= t < |primes| ==> 2 <= primes[t]
    requires forall t :: 0 <= t < k ==> i % primes[t] as int != 0
    ensures IsPrime(i)
  {
    if !IsPrime(i) {
      PrimesBelowExact(i);
      var d := SmallestDivisor(i);
      SmallestDivisorIsPrime(i);
      SmallestDivisorSquare(i);
      BelowISqrt(d, i);
      assert false;
    }
  }

  /**
   * findPrimesEnum: the primes below the search limit, ascending, and the
   * begPrimesNum-th of them as the largest wheel prime; with fewer primes that
   * field keeps whatever it held before.
   */
  method FindPrimesEnum(max: u32, begPrimesNum: u32, maxBegPrime0: u32)
    returns (primes: seq<u32>, maxBegPrime: u32)
    ensures primes == PrimesBelow(Quant(max, begPrimesNum))
    ensures maxBegPrime ==
              if 1 <= begPrimesNum as int <= |primes| then primes[begPrimesNum - 1] else maxBegPrime0
  {
    ISqrtBelow16(max);
    var nQuant: u32 := 1 + ISqrt(max);
    if nQuant < begPrimesNum {
      nQuant := begPrimesNum;
    }
    assert nQuant as int == Quant(max, begPrimesNum);
    primes := [];
    maxBegPrime := maxBegPrime0;
    var i: u32 := 2;
    var j: u32 := 0;
    while j < nQuant && i < nQuant
      invariant 2 <= i as int <= Max(nQuant as int, 2)
      invariant primes == PrimesBelow(i as int) && j as int == |primes|
      invariant j as int + 2 <= i as int
      invariant maxBegPrime ==
                  if 1 <= begPrimesNum as int <= |primes| then primes[begPrimesNum - 1] else maxBegPrime0
    {
      var fPrime := TrialDivision(i, primes, j);
      assert PrimesBelow(i as int + 1) == PrimesBelow(i as int) + (if fPrime then [i as int] else []);
      if fPrime {
        primes := primes + [i];
        j := j + 1;
        if j == begPrimesNum {
          maxBegPrime := i;
        }
      }
      i := i + 1;
    }
    assert PrimesBelow(i as int) == PrimesBelow(nQuant as int);
  }

  /**
   * The entry after index k - 1 is the next prime q: nothing strictly between
   * the previous entry and q is prime.
   */
  lemma NextPrime(n: nat, k: nat, q: nat)
    requires k < |PrimesBelow(n)| && IsPrime(q)
    requires k == 0 ==> q == 2
    requires k > 0 ==> PrimesBelow(n)[k - 1] < q
    requires k > 0 ==> forall y :: PrimesBelow(n)[k - 1] < y < q ==> !IsPrime(y)
    ensures PrimesBelow(n)[k] == q
  {
    var P := PrimesBelow(n);
    PrimesBelowExact(n);
    assert P[k] in P;
    if k > 0 {
      AscendingOrder(P, k - 1, k);
    }
    assert q <= P[k];
    assert q in P;
    var t :| 0 <= t < |P| && P[t] == q;
    if k > 0 {
      AscendingOrder(P, k - 1, t);
    }
    AscendingOrder(P, k, t);
  }

  /** In an ascending sequence the order of entries is the order of their indices. */
  lemma AscendingOrder(s: seq<int>, i: nat, j: nat)
    requires Ascending(s) && i < |s| && j < |s|
    ensures s[i] < s[j] <==> i < j
    ensures s[i] == s[j] <==> i == j
  {}

  /** The first primes are 2, 3, 5 and 7. */
  lemma FirstPrimes(n: nat, b: nat)
    requires 1 <= b <= 4 && b <= |PrimesBelow(n)|
    ensures PrimesBelow(n)[..b] == FIRST_PRIMES[..b]
  {
    var P := PrimesBelow(n);
    NextPrime(n, 0, 2);
    if b >= 2 {
      assert IsPrime(3) by {
        forall d | 2 <= d < 3 ensures 3 % d != 0 {
          assert d == 2;
        }
      }
      NextPrime(n, 1, 3);
    }
    if b >= 3 {
      assert IsPrime(5) by {
        forall d | 2 <= d < 5 ensures 5 % d != 0 {
          assert d == 2 || d == 3 || d == 4;
        }
      }
      forall y | 3 < y < 5 ensures !IsPrime(y) {
        assert y == 4 && 4 % 2 == 0;
      }
      NextPrime(n, 2, 5);
    }
    if b >= 4 {
      assert IsPrime(7) by {
        forall d | 2 <= d < 7 ensures 7 % d != 0 {
          assert d == 2 || d == 3 || d == 4 || d == 5 || d == 6;
        }
      }
      forall y | 5 < y < 7 ensures !IsPrime(y) {
        assert y == 6 && 6 % 2 == 0;
      }
      NextPrime(n, 3, 7);
    }
  }

  // ---------------------------------------------------------------------------
  // countPrimorial

  function Product(s: seq<int>): int
  {
    if s == [] then 1 else Product(s[..|s| - 1]) * s[|s| - 1]
  }

  /** The product with 32-bit multiplication, starting from acc. */
  function Product32(acc: u32, s: seq<u32>): u32
  {
    if s == [] then acc else (Product32(acc, s[..|s| - 1]) * s[|s| - 1]) % U32_LIMIT
  }

  /** When the true product fits in 32 bits, the 32-bit product is the true product. */
  lemma {:induction false} Product32Exact(acc: u32, s: seq<u32>)
    requires forall k :: 0 <= k < |s| ==> s[k] >= 1
    requires acc * Product(s) < U32_LIMIT
    ensures Product32(acc, s) == acc * Product(s)
  {
    if s != [] {
      var init := s[..|s| - 1];
      var last: int := s[|s| - 1];
      var a := acc * Product(init);
      assert Product(s) == Product(init) * last;
      assert acc * Product(s) == a * last;
      if a > 0 {
        MulAtLeast(last, a);
      }
      Product32Exact(acc, init);
      ModUnique(a * last, 0, a * last, U32_LIMIT);
    }
  }

  lemma {:induction false} ProductPositive(s: seq<u32>)
    requires forall k :: 0 <= k < |s| ==> s[k] >= 1
    ensures Product(s) >= 1
  {
    if s != [] {
      ProductPositive(s[..|s| - 1]);
      MulAtLeast(s[|s| - 1], Product(s[..|s| - 1]));
    }
  }

  /** countPrimorial: the primorial is multiplied by each of the first begPrimesNum primes. */
  method CountPrimorial(primor0: u32, primes: seq<u32>, begPrimesNum: u32) returns (primor: u32)
    requires begPrimesNum as int <= |primes|
    ensures primor == Product32(primor0, primes[..begPrimesNum])
  {
    primor := primor0;
    var i: u32 := 0;
    while i < begPrimesNum
      invariant i <= begPrimesNum
      invariant primor == Product32(primor0, primes[..i])
    {
      assert primes[..i + 1][..i] == primes[..i];
      primor := (primor * primes[i]) % U32_LIMIT;
      i := i + 1;
    }
  }

  /** Starting from 1, the wheels of two, three and four primes have primorials 6, 30 and 210. */
  lemma PrimorialValues(b: nat)
    requires 2 <= b <= 4
    ensures Product32(1, FIRST_PRIMES[..b]) == Product(FIRST_PRIMES[..b])
    ensures Product(FIRST_PRIMES[..b]) == [6, 30, 210][b - 2]
  {
    assert FIRST_PRIMES[..b][..1] == [2];
    assert FIRST_PRIMES[..b][..2] == [2, 3];
    assert FIRST_PRIMES[..2][..1] == [2];
    assert [2, 3][..1] == [2];
    assert [2][..0] == [];
    if b >= 3 {
      assert FIRST_PRIMES[..b][..3] == [2, 3, 5];
      assert [2, 3, 5][..2] == [2, 3];
    }
    if b == 4 {
      assert [2, 3, 5, 7][..3] == [2, 3, 5];
    }
  }

  // ---------------------------------------------------------------------------
  // eratosthenesSieve and findWheelSpokes

  /** x is a multiple, at least p*p, of some prime p below lim: what sieving with the primes below lim marks. */
  ghost predicate Marked(x: int, lim: int)
  {
    exists p :: 2 <= p < lim && IsPrime(p) && p * p <= x && x % p == 0
  }

  /** No number in [2, k] divides x. */
  predicate Rough(x: int, k: int)
  {
    forall d :: 2 <= d <= k ==> x % d != 0
  }

  /** The numbers in (nMin, n), from 2 on, with no divisor in [2, nMin], ascending. */
  function SpokesAbove(nMin: nat, n: nat): seq<nat>
  {
    if n <= 2 then []
    else SpokesAbove(nMin, n - 1) + (if n - 1 > nMin && Rough(n - 1, nMin) then [n - 1] else [])
  }

  /** SpokesAbove holds exactly those numbers, ascending. */
  lemma SpokesAboveExact(nMin: nat, n: nat)
    ensures forall x :: x in SpokesAbove(nMin, n) <==> 2 <= x < n && nMin < x && Rough(x, nMin)
    ensures Ascending(SpokesAbove(nMin, n))
  {
    SpokesAboveMembers(nMin, n);
    SpokesAboveAscending(nMin, n);
  }

  lemma {:induction false} SpokesAboveMembers(nMin: nat, n: nat)
    ensures forall x :: x in SpokesAbove(nMin, n) <==> 2 <= x < n && nMin < x && Rough(x, nMin)
  {
    if n > 2 {
      SpokesAboveMembers(nMin, n - 1);
    }
  }

  lemma {:induction false} SpokesAboveAscending(nMin: nat, n: nat)
    ensures Ascending(SpokesAbove(nMin, n))
  {
    if n > 2 {
      SpokesAboveAscending(nMin, n - 1);
      SpokesAboveMembers(nMin, n - 1);
      var s := SpokesAbove(nMin, n - 1);
      if n - 1 > nMin && Rough(n - 1, nMin) {
        var u := s + [n - 1];
        forall i, j | 0 <= i < j < |u|
          ensures u[i] < u[j]
        {
          if j == |s| {
            assert s[i] in s;
          }
        }
      }
    }
  }

  /** A number is marked by the primes below itself iff it is composite. */
  lemma MarkedSelf(i: nat)
    requires 2 <= i
    ensures Marked(i, i) <==> !IsPrime(i)
  {
    if !IsPrime(i) {
      var d := SmallestDivisor(i);
      SmallestDivisorIsPrime(i);
      SmallestDivisorSquare(i);
      assert d < i by {
        MulAtLeast(d, d);
      }
      assert 2 <= d < i && IsPrime(d) && d * d <= i && i % d == 0;
    }
  }

  lemma MarkedStep(x: int, i: nat)
    requires 2 <= i
    ensures IsPrime(i) ==> (Marked(x, i + 1) <==> Marked(x, i) || (i * i <= x && x % i == 0))
    ensures !IsPrime(i) ==> (Marked(x, i + 1) <==> Marked(x, i))
  {
    if Marked(x, i + 1) {
      var p :| 2 <= p < i + 1 && IsPrime(p) && p * p <= x && x % p == 0;
      if p < i {
        assert Marked(x, i);
      }
    }
    if IsPrime(i) && i * i <= x && x % i == 0 {
      assert 2 <= i < i + 1;
    }
  }

  /** Above nMin, being marked by the primes up to nMin is having a divisor in [2, nMin]. */
  lemma MarkedRough(x: nat, nMin: nat)
    requires nMin < x && 2 <= x
    ensures Marked(x, nMin + 1) <==> !Rough(x, nMin)
  {
    if !Rough(x, nMin) {
      var e :| 2 <= e <= nMin && x % e == 0;
      assert !IsPrime(x);
      var d := SmallestDivisor(x);
      SmallestDivisorIsPrime(x);
      SmallestDivisorSquare(x);
      assert d <= e;
      assert 2 <= d < nMin + 1 && IsPrime(d) && d * d <= x && x % d == 0;
    }
    if Marked(x, nMin + 1) {
      var p :| 2 <= p < nMin + 1 && IsPrime(p) && p * p <= x && x % p == 0;
      assert !Rough(x, nMin);
    }
  }

  /** The innermost sieve loop: store true at i*i, i*i + i, ... below the primorial. */
  method MarkMultiples(a: array<bool>, i: u32, primor: u32)
    requires 2 <= i < primor && primor < 0x1_0000 && a.Length == primor as int
    modifies a
    ensures forall x :: 0 <= x < a.Length ==> a[x] == (old(a[x]) || (i as int * i as int <= x && x % i as int == 0))
  {
    ghost var sq := i as int * i as int;
    MulLe(i as int, 0x1_0000, i as int);
    MulLe(i as int, 0x1_0000, 0x1_0000);
    var j: u32 := i * i;
    ModUnique(sq, i as int, 0, i as int);
    while j < primor
      invariant sq <= j as int && j as int % i as int == 0
      invariant forall x :: 0 <= x < a.Length ==>
                  a[x] == (old(a[x]) || (sq <= x < j as int && x % i as int == 0))
      decreases primor - j
    {
      a[j] := true;
      forall x | 0 <= x < a.Length
        ensures a[x] == (old(a[x]) || (sq <= x < j as int + i as int && x % i as int == 0))
      {
        if j as int < x < j as int + i as int {
          NoMultipleBetween(j as int, i as int, x);
        }
      }
      ModUnique(i as int, 1, 0, i as int);
      DivisibleSum(j as int, i as int, i as int);
      j := j + i;
    }
  }

  lemma NoMultipleBetween(j: int, i: int, x: int)
    requires i > 0 && j % i == 0 && j < x < j + i
    ensures x % i != 0
  {
    ModUnique(j, j / i, 0, i);
    ModUnique(x, j / i, x - j, i);
  }

  /**
   * eratosthenesSieve: mark the composites of [2, primorial) with a factor
   * among the primes up to nMin, then append every unmarked number above nMin.
   */
  method EratosthenesSieve(a: array<bool>, nMin: u32, primor: u32, spokes0: seq<u32>) returns (spokes: seq<u32>)
    requires nMin < primor < 0x1_0000 && a.Length == primor as int
    requires forall x :: 0 <= x < a.Length ==> !a[x]
    modifies a
    ensures forall x :: 0 <= x < a.Length ==> a[x] == Marked(x, nMin as int + 1)
    ensures spokes == spokes0 + SpokesAbove(nMin as int, primor as int)
  {
    var i: u32 := 2;
    while i < nMin + 1
      invariant 2 <= i as int <= Max(nMin as int + 1, 2)
      invariant forall x :: 0 <= x < a.Length ==> a[x] == Marked(x, i as int)
    {
      MarkedSelf(i as int);
      if !a[i] {
        MarkMultiples(a, i, primor);
      }
      forall x | 0 <= x < a.Length
        ensures a[x] == Marked(x, i as int + 1)
      {
        MarkedStep(x, i as int);
      }
      i := i + 1;
    }
    assert forall x :: 0 <= x < a.Length ==> a[x] == Marked(x, nMin as int + 1);
    spokes := spokes0;
    i := 2;
    while i < primor
      invariant 2 <= i as int <= Max(primor as int, 2)
      invariant forall x :: 0 <= x < a.Length ==> a[x] == Marked(x, nMin as int + 1)
      invariant spokes == spokes0 + SpokesAbove(nMin as int, i as int)
    {
      if nMin < i {
        MarkedRough(i as int, nMin as int);
      }
      if !a[i] && i > nMin {
        spokes := spokes + [i];
      }
      i := i + 1;
    }
  }

  /**
   * With the wheel primes being the first primes, having no divisor in
   * [2, largest wheel prime] is being coprime to every wheel prime, so the
   * spokes are the residues coprime to the primorial.
   */
  lemma SpokeCoprime(x: int, b: nat)
    requires 1 <= b <= 4
    ensures Rough(x, FIRST_PRIMES[b - 1]) <==> forall k :: 0 <= k < b ==> x % FIRST_PRIMES[k] != 0
  {
    var top := FIRST_PRIMES[b - 1];
    if !Rough(x, top) {
      var d :| 2 <= d <= top && x % d == 0;
      var q := SmallestDivisor(d);
      SmallestDivisorIsPrime(d);
      DivisorTransitive(if x < 0 then -x else x, d, q) by {
        if x < 0 {
          DivisibleSum(0, x, d);
        }
      }
      if x < 0 {
        DivisibleSum(0, -x, q);
        assert x % q == 0;
      }
      assert !IsPrime(4) by {
        assert 4 % 2 == 0;
      }
      assert !IsPrime(6) by {
        assert 6 % 2 == 0;
      }
      assert q == 2 || q == 3 || q == 5 || q == 7;
      if q == 2 {
        assert FIRST_PRIMES[0] == q;
      } else if q == 3 {
        assert FIRST_PRIMES[1] == q;
      } else if q == 5 {
        assert FIRST_PRIMES[2] == q;
      } else {
        assert FIRST_PRIMES[3] == q;
      }
    } else {
      forall k | 0 <= k < b
        ensures x % FIRST_PRIMES[k] != 0
      {
        assert 2 <= FIRST_PRIMES[k] <= top;
      }
    }
  }

  /** Everything findPrimesEnum delivers to findWheelSpokes. */
  ghost predicate EnumResult(max: u32, begPrimesNum: u32, primes: seq<u32>, maxBegPrime: u32)
  {
    primes == PrimesBelow(Quant(max, begPrimesNum))
    && (maxBegPrime >= max || (1 <= begPrimesNum as int <= |primes| && maxBegPrime == primes[begPrimesNum - 1]))
  }

  /**
   * findWheelSpokes after findPrimesEnum: when the largest wheel prime is not
   * below the maximum there is no wheel (primorial 0, no spokes, empty bitmap);
   * otherwise the primorial of the wheel primes, the spokes 1 and every number
   * in (largest wheel prime, primorial) with no smaller factor, and an all-false
   * bitmap as long as the larger of the primorial and the maximum.
   */
  method FindWheelSpokes(max: u32, begPrimesNum: u32, primes: seq<u32>, maxBegPrime: u32)
    returns (primor: u32, spokes: seq<u32>, bitmap: array<bool>)
    requires 2 <= begPrimesNum <= 4 && EnumResult(max, begPrimesNum, primes, maxBegPrime)
    ensures fresh(bitmap)
    ensures maxBegPrime >= max ==> primor == 0 && spokes == [] && bitmap.Length == 0
    ensures maxBegPrime < max ==>
              primes[..begPrimesNum] == FIRST_PRIMES[..begPrimesNum]
              && primor as int == Product(FIRST_PRIMES[..begPrimesNum])
              && spokes == [1] + SpokesAbove(maxBegPrime as int, primor as int)
              && bitmap.Length == Max(primor as int, max as int)
              && forall x :: 0 <= x < bitmap.Length ==> !bitmap[x]
  {
    if maxBegPrime >= max {
      primor := 0;
      spokes := [];
      bitmap := new bool[0];
      return;
    }
    FirstPrimes(Quant(max, begPrimesNum), begPrimesNum as int);
    PrimorialValues(begPrimesNum as int);
    primor := CountPrimorial(1, primes, begPrimesNum);
    var a := new bool[primor](_ => false);
    spokes := [1];
    assert maxBegPrime == FIRST_PRIMES[begPrimesNum - 1];
    spokes := EratosthenesSieve(a, maxBegPrime, primor, spokes);
    forall k | 0 <= k < a.Length {
      a[k] := false;
    }
    if max > primor {
      a := new bool[max](_ => false);
    }
    bitmap := a;
  }

  // ---------------------------------------------------------------------------
  // getSpokes

  /** Where the share of thread t starts: t * (spokes / threads). */
  function SliceStart(n: nat, threads: nat, t: nat): nat
    requires threads > 0
  {
    t * (n / threads)
  }

  /**
   * The shares are consecutive slices of n / threads spokes each; together they
   * cover the first n - n % threads spokes.
   */
  lemma SliceBounds(n: nat, threads: nat, t: nat)
    requires 0 < threads && t < threads
    ensures SliceStart(n, threads, t + 1) == SliceStart(n, threads, t) + n / threads
    ensures SliceStart(n, threads, t + 1) <= SliceStart(n, threads, threads)
    ensures SliceStart(n, threads, threads) == n - n % threads
  {
    var per := n / threads;
    assert (t + 1) * per == t * per + per;
    MulLe(t + 1, threads, per);
    assert n == threads * per + n % threads;
  }

  /** The shares of two different threads have no index in common. */
  lemma SlicesDisjoint(n: nat, threads: nat, t1: nat, t2: nat)
    requires 0 < threads && t1 < t2 < threads
    ensures SliceStart(n, threads, t1 + 1) <= SliceStart(n, threads, t2)
  {
    MulLe(t1 + 1, t2, n / threads);
  }

  /** The last n % threads spokes are in no share. */
  lemma LeftoverSpokes(spokes: seq<u32>, threads: nat, t: nat, k: nat)
    requires 0 < threads && t < threads && StrictlyAscending(spokes)
    requires |spokes| - |spokes| % threads <= k < |spokes|
    ensures spokes[k] !in Share(spokes, threads, t)
  {
    var n := |spokes|;
    SliceBounds(n, threads, t);
    var lo, hi := SliceStart(n, threads, t), SliceStart(n, threads, t + 1);
    forall k2 | 0 <= k2 < hi - lo
      ensures spokes[lo..hi][k2] != spokes[k]
    {
      assert spokes[lo + k2] < spokes[k];
    }
  }

  /** getSpokes(t): the spokes of thread t's share, in order. */
  method GetSpokes(spokes: seq<u32>, numOfThreads: u32, t: u32) returns (part: seq<u32>)
    requires 0 < numOfThreads && t < numOfThreads && |spokes| < U32_LIMIT
    ensures SliceStart(|spokes|, numOfThreads as int, t as int + 1) <= |spokes|
    ensures part == spokes[SliceStart(|spokes|, numOfThreads as int, t as int)..SliceStart(|spokes|, numOfThreads as int, t as int + 1)]
  {
    var n := |spokes|;
    SliceBounds(n, numOfThreads as int, t as int);
    ghost var lo := SliceStart(n, numOfThreads as int, t as int);
    ghost var hi := SliceStart(n, numOfThreads as int, t as int + 1);
    var per: u32 := n as u32 / numOfThreads;
    assert t as int * per as int == lo && (t as int + 1) * per as int == hi;
    var i: u32 := t * per;
    var p: u32 := (t + 1) * per;
    part := [];
    while i < p
      invariant lo <= i as int <= hi && p as int == hi
      invariant part == spokes[lo..i]
    {
      part := part + [spokes[i]];
      i := i + 1;
    }
  }

  /** Different threads get different spokes when the spokes are ascending. */
  lemma SharesDisjoint(spokes: seq<u32>, threads: nat, t1: nat, t2: nat, x: u32)
    requires 0 < threads && t1 < t2 < threads && StrictlyAscending(spokes)
    requires x in Share(spokes, threads, t1)
    ensures x !in Share(spokes, threads, t2)
  {
    var n := |spokes|;
    SliceBounds(n, threads, t1);
    SliceBounds(n, threads, t2);
    SlicesDisjoint(n, threads, t1, t2);
    var lo1, hi1 := SliceStart(n, threads, t1), SliceStart(n, threads, t1 + 1);
    var lo2, hi2 := SliceStart(n, threads, t2), SliceStart(n, threads, t2 + 1);
    var k1 :| 0 <= k1 < hi1 - lo1 && spokes[lo1..hi1][k1] == x;
    forall k2 | 0 <= k2 < hi2 - lo2
      ensures spokes[lo2..hi2][k2] != x
    {
      assert spokes[lo1 + k1] < spokes[lo2 + k2];
    }
  }

  // ---------------------------------------------------------------------------
  // multyThreadPrimesSearching, run one worker after another

  /** The share of thread t. */
  ghost function Share(spokes: seq<u32>, threads: nat, t: nat): seq<u32>
    requires 0 < threads && t < threads
  {
    SliceBounds(|spokes|, threads, t);
    spokes[SliceStart(|spokes|, threads, t)..SliceStart(|spokes|, threads, t + 1)]
  }

  /** What each thread's worker marks. */
  ghost function Runs(intervals: seq<Interval>, primes: seq<u32>, begPrimesNum: nat, spokes: seq<u32>,
                      primor: nat, threads: nat): seq<set<int>>
    requires 0 < |intervals| && SievingPrimes(primes, begPrimesNum) && primor > 0
  {
    seq(threads, t requires 0 <= t < threads =>
      WorkerMarks(intervals, |intervals|, primes, begPrimesNum, Share(spokes, threads, t), primor))
  }

  /** What a worker of these inputs needs. */
  ghost predicate WorkerInputs(bitmap: array<bool>, primes: seq<u32>, intervals: seq<Interval>, primor: u32, begPrimesNum: u32)
  {
    0 < |intervals| && 0 < primor
    && SievingPrimes(primes, begPrimesNum as int)
    && (forall i :: begPrimesNum as int <= i < |primes| ==> primes[i] as int * primor as int < STEP_LIMIT)
    && (forall m :: 0 <= m < |intervals| ==>
          intervals[m].low < BOUND_LIMIT && intervals[m].high < BOUND_LIMIT
          && intervals[m].high <= bitmap.Length)
  }

  /** The workers, one per thread with its share of the spokes, run in turn over the one bitmap. */
  method MultyThreadPrimesSearching(bitmap: array<bool>, primes: seq<u32>, spokes: seq<u32>,
                                    intervals: seq<Interval>, primor: u32, begPrimesNum: u32, numOfThreads: u32)
    requires WorkerInputs(bitmap, primes, intervals, primor, begPrimesNum) && |spokes| < U32_LIMIT
    modifies bitmap
    ensures bitmap[..] == ApplyAll(old(bitmap[..]),
              Runs(intervals, primes, begPrimesNum as int, spokes, primor as int, numOfThreads as int))
  {
    ghost var runs := Runs(intervals, primes, begPrimesNum as int, spokes, primor as int, numOfThreads as int);
    var t: u32 := 0;
    while t < numOfThreads
      invariant t <= numOfThreads
      invariant bitmap[..] == ApplyAll(old(bitmap[..]), runs[..t])
    {
      RunWorker(bitmap, primes, spokes, intervals, primor, begPrimesNum, numOfThreads, t);
      assert runs[..t + 1][..t] == runs[..t];
      t := t + 1;
    }
    assert runs[..numOfThreads] == runs;
  }

  /** One thread: build the worker for share t of the spokes and run it. */
  method RunWorker(bitmap: array<bool>, primes: seq<u32>, spokes: seq<u32>, intervals: seq<Interval>,
                   primor: u32, begPrimesNum: u32, numOfThreads: u32, t: u32)
    requires WorkerInputs(bitmap, primes, intervals, primor, begPrimesNum) && |spokes| < U32_LIMIT
    requires t < numOfThreads
    modifies bitmap
    ensures bitmap[..] == ApplyMarks(old(bitmap[..]), WorkerMarks(intervals, |intervals|, primes,
              begPrimesNum as int, Share(spokes, numOfThreads as int, t as int), primor as int))
  {
    var part := GetSpokes(spokes, numOfThreads, t);
    var worker := new PrimeNumFunc(bitmap, primes, part, intervals, primor, begPrimesNum);
    worker.Run();
  }

  // ---------------------------------------------------------------------------
  // The engine

  /**
   * What the source needs of its input: a non-empty interval list, bounds that
   * leave 32-bit room for a step, no high bound beyond the bitmap (whose length
   * is the larger of the primorial and the last high bound), a thread count
   * below 49 (else the program exits), and a defined largest wheel prime (else
   * it is read uninitialised and, below the maximum, the primorial reads past
   * the primes found).
   */
  ghost predicate EngineInput(intervals: seq<Interval>, kernels: u32, indeterminate: u32)
  {
    0 < |intervals| < U32_LIMIT
    && (forall m :: 0 <= m < |intervals| ==> intervals[m].low < BOUND_LIMIT && intervals[m].high < BOUND_LIMIT)
    && var max := intervals[|intervals| - 1].high;
       var b := BegPrimesNum(NumThreads(kernels, |intervals| as u32), max);
       b.Some?
       && (forall m :: 0 <= m < |intervals| ==>
             intervals[m].high as int <= Max(Product(FIRST_PRIMES[..b.value]), max as int))
       && (b.value as int <= |PrimesBelow(Quant(max, b.value))| || indeterminate >= max)
  }

  /**
   * The merged list the driver hands over can break the bitmap clause: the
   * pairs [30,40], [10,20], [0,35] of one tag merge to [0,40], [0,35]. With two
   * ranges the wheel has two or three primes, so the bitmap has max(6, 35) or
   * max(30, 35) cells, below the first high bound 40.
   */
  lemma EngineRejectsLastHighNotLargest(kernels: u32, indeterminate: u32)
    ensures var v := Merge.SortLess(Merge.AddPair(Merge.AddPair(Merge.AddPair([],
                       Interval(30, 40)), Interval(10, 20)), Interval(0, 35)));
            |v| == 2 && v[0].high > v[1].high && !EngineInput(v, kernels, indeterminate)
  {
    Merge.LastHighNotLargest();
    var b := BegPrimesNum(NumThreads(kernels, 2), 35).value;
    assert b == 2 || b == 3;
    PrimorialValues(b as int);
  }

  /**
   * An earlier high bound above the last one is fine while it stays within the
   * primorial: with 5 cores and the intervals [0,150] and then eight times
   * [0,100], nine threads use a wheel of 2, 3, 5, 7, and the bitmap's 210
   * cells hold every store below 150.
   */
  lemma EngineAcceptsHighWithinPrimorial(indeterminate: u32)
    ensures var v := [Interval(0, 150)] + seq(8, _ => Interval(0, 100));
            v[0].high > v[|v| - 1].high && EngineInput(v, 5, indeterminate)
  {
    var v := [Interval(0, 150)] + seq(8, _ => Interval(0, 100));
    assert v[|v| - 1] == Interval(0, 100);
    assert NumThreads(5, 9) == 9 && BegPrimesNum(9, 100) == Some(4);
    PrimorialValues(4);
    ISqrtUnique(100, 10);
    assert Quant(100, 4) == 11;
    assert IsPrime(3) by {
      forall d | 2 <= d < 3 ensures 3 % d != 0 {
        assert d == 2;
      }
    }
    assert IsPrime(5) by {
      forall d | 2 <= d < 5 ensures 5 % d != 0 {
        assert d == 2 || d == 3 || d == 4;
      }
    }
    assert IsPrime(7) by {
      forall d | 2 <= d < 7 ensures 7 % d != 0 {
        assert d == 2 || d == 3 || d == 4 || d == 5 || d == 6;
      }
    }
    assert |PrimesBelow(3)| == 1;
    assert |PrimesBelow(4)| == 2;
    assert |PrimesBelow(5)| >= 2;
    assert |PrimesBelow(6)| >= 3;
    assert |PrimesBelow(7)| >= 3;
    assert |PrimesBelow(8)| >= 4;
    assert |PrimesBelow(9)| >= 4;
    assert |PrimesBelow(10)| >= 4;
    assert |PrimesBelow(11)| >= 4;
  }

  /**
   * Once enough small primes are found, the largest wheel prime lies below the
   * maximum: it is at most the square root of the maximum and at least 3. So
   * the branch without a wheel is reached only through an undefined value.
   */
  lemma MaxBegPrimeBelowMax(max: u32, b: u32)
    requires 2 <= b <= 4 && b as int <= |PrimesBelow(Quant(max, b))|
    ensures PrimesBelow(Quant(max, b))[b - 1] < max
  {
    var n := Quant(max, b);
    FirstPrimes(n, b as int);
    PrimesBelowBounds(n);
    var p := PrimesBelow(n)[b - 1];
    assert p == PrimesBelow(n)[..b][b - 1] == FIRST_PRIMES[b - 1];
    assert b as int < p < n;
    assert p <= ISqrt(max);
    MulMono(p, ISqrt(max));
    MulAtLeast(p, p);
    assert p < p * p;
  }

  /** FindPrimes. */
  class FindPrimes {
    var primeNumVector: Option<PrimeNumbersVector>
    var fVc: array<bool>
    var primes: seq<u32>
    var spokes: seq<u32>
    const intervals: seq<Interval>
    var max: u32
    var min: u32
    var begPrimesNum: u32
    var numOfThreads: u32
    var numOfRanges: u32
    var primor: u32
    var numOfSpokes: u32
    var kernels: u32
    var maxBegPrime: u32

    /**
     * The constructor: inputDataProcessing, findWheelSpokes and, when there is
     * a wheel, the workers and the adapter. The core count, the value the
     * uninitialised largest wheel prime holds, and the adapter's size are inputs.
     */
    constructor (intervals: seq<Interval>, kernels: u32, indeterminate: u32, effectiveSize: nat)
      requires EngineInput(intervals, kernels, indeterminate)
      ensures this.intervals == intervals && this.kernels == kernels
      ensures numOfRanges as int == |intervals|
      ensures min == intervals[0].low && max == intervals[|intervals| - 1].high
      ensures numOfThreads == NumThreads(kernels, numOfRanges)
      ensures Some(begPrimesNum) == BegPrimesNum(numOfThreads, max)
      ensures primes == PrimesBelow(Quant(max, begPrimesNum))
      ensures maxBegPrime == if begPrimesNum as int <= |primes| then primes[begPrimesNum - 1] else indeterminate
      ensures maxBegPrime >= max ==> primor == 0 && spokes == [] && fVc.Length == 0 && primeNumVector == None
      ensures maxBegPrime < max ==>
                primor as int == Product(FIRST_PRIMES[..begPrimesNum])
                && spokes == [1] + SpokesAbove(maxBegPrime as int, primor as int)
                && numOfSpokes as int == |spokes|
                && fVc.Length == Max(primor as int, max as int)
                && WorkerInputs(fVc, primes, intervals, primor, begPrimesNum)
                && fVc[..] == ApplyAll(seq(fVc.Length, _ => false),
                                 Runs(intervals, primes, begPrimesNum as int, spokes, primor as int, numOfThreads as int))
                && primeNumVector.Some?
                && primeNumVector.value.bitmap == fVc && primeNumVector.value.size == effectiveSize
                && primeNumVector.value.spokes == spokes && primeNumVector.value.primes == primes
                && primeNumVector.value.intervals == intervals && primeNumVector.value.primor == primor
                && primeNumVector.value.begPrimesNum == begPrimesNum && primeNumVector.value.Valid()
    {
      var ranges := |intervals| as u32;
      var hi := intervals[|intervals| - 1].high;
      var threads, beg, ps, top, pm, sp, bits := Configure(intervals, kernels, indeterminate);
      this.intervals := intervals;
      this.kernels := kernels;
      numOfRanges := ranges;
      min := intervals[0].low;
      max := hi;
      numOfThreads := threads;
      begPrimesNum := beg;
      primes := ps;
      maxBegPrime := top;
      primor := pm;
      spokes := sp;
      fVc := bits;
      numOfSpokes := 0;
      primeNumVector := None;
      new;
      if pm != 0 {
        numOfSpokes := |sp| as u32;
        var adapter := SearchAndAdapt(bits, ps, sp, intervals, pm, beg, threads, effectiveSize);
        primeNumVector := Some(adapter);
      }
    }
  }

  /** The constructor up to the search: inputDataProcessing, then findWheelSpokes. */
  method Configure(intervals: seq<Interval>, kernels: u32, indeterminate: u32)
    returns (threads: u32, beg: u32, primes: seq<u32>, top: u32, primor: u32, spokes: seq<u32>, bitmap: array<bool>)
    requires EngineInput(intervals, kernels, indeterminate)
    ensures fresh(bitmap)
    ensures threads == NumThreads(kernels, |intervals| as u32)
    ensures Some(beg) == BegPrimesNum(threads, intervals[|intervals| - 1].high)
    ensures primes == PrimesBelow(Quant(intervals[|intervals| - 1].high, beg))
    ensures top == if beg as int <= |primes| then primes[beg - 1] else indeterminate
    ensures primor != 0 <==> top < intervals[|intervals| - 1].high
    ensures primor == 0 ==> spokes == [] && bitmap.Length == 0
    ensures primor != 0 ==>
              primor as int == Product(FIRST_PRIMES[..beg])
              && spokes == [1] + SpokesAbove(top as int, primor as int)
              && |spokes| < U32_LIMIT
              && bitmap.Length == Max(primor as int, intervals[|intervals| - 1].high as int)
              && (forall x :: 0 <= x < bitmap.Length ==> !bitmap[x])
              && WorkerInputs(bitmap, primes, intervals, primor, beg)
  {
    // inputDataProcessing
    var ranges := |intervals| as u32;
    threads := NumThreads(kernels, ranges);
    var hi := intervals[|intervals| - 1].high;
    beg := BegPrimesNum(threads, hi).value;
    // findWheelSpokes
    primes, top := FindPrimesEnum(hi, beg, indeterminate);
    primor, spokes, bitmap := FindWheelSpokes(hi, beg, primes, top);
    PrimorialValues(beg as int);
    if primor != 0 {
      SpokesAboveLength(top as int, primor as int);
      EngineWorkerInputs(intervals, hi, beg, primes, primor, bitmap);
    }
  }

  /** The part of the constructor after findWheelSpokes: run the workers over the cleared bitmap, then wrap it. */
  method SearchAndAdapt(bitmap: array<bool>, primes: seq<u32>, spokes: seq<u32>, intervals: seq<Interval>,
                        primor: u32, begPrimesNum: u32, numOfThreads: u32, size: nat)
    returns (adapter: PrimeNumbersVector)
    requires WorkerInputs(bitmap, primes, intervals, primor, begPrimesNum) && 0 < |spokes| < U32_LIMIT
    requires forall x :: 0 <= x < bitmap.Length ==> !bitmap[x]
    modifies bitmap
    ensures bitmap[..] == ApplyAll(seq(bitmap.Length, _ => false),
              Runs(intervals, primes, begPrimesNum as int, spokes, primor as int, numOfThreads as int))
    ensures fresh(adapter) && adapter.Valid()
    ensures adapter.bitmap == bitmap && adapter.intervals == intervals && adapter.primes == primes
    ensures adapter.spokes == spokes && adapter.primor == primor && adapter.begPrimesNum == begPrimesNum
    ensures adapter.size == size
  {
    assert bitmap[..] == seq(bitmap.Length, _ => false);
    MultyThreadPrimesSearching(bitmap, primes, spokes, intervals, primor, begPrimesNum, numOfThreads);
    adapter := new PrimeNumbersVector(bitmap, intervals, primes, spokes, primor, begPrimesNum, size);
  }

  lemma {:induction false} SpokesAboveLength(nMin: nat, n: nat)
    ensures |SpokesAbove(nMin, n)| <= n
  {
    if n > 2 {
      SpokesAboveLength(nMin, n - 1);
    }
  }

  /** The engine's inputs meet every worker's needs: steps fit below STEP_LIMIT and highs fit the bitmap. */
  lemma EngineWorkerInputs(intervals: seq<Interval>, max: u32, b: u32, primes: seq<u32>, primor: u32, bitmap: array<bool>)
    requires 0 < |intervals| && max == intervals[|intervals| - 1].high && 2 <= b <= 4
    requires forall m :: 0 <= m < |intervals| ==>
               intervals[m].low < BOUND_LIMIT && intervals[m].high < BOUND_LIMIT
               && intervals[m].high as int <= Max(Product(FIRST_PRIMES[..b]), max as int)
    requires primes == PrimesBelow(Quant(max, b))
    requires primor as int == Product(FIRST_PRIMES[..b]) && bitmap.Length == Max(primor as int, max as int)
    ensures WorkerInputs(bitmap, primes, intervals, primor, b)
  {
    PrimesBelowExact(Quant(max, b));
    PrimorialValues(b as int);
    ISqrtBelow16(max);
    forall i | b as int <= i < |primes|
      ensures 2 <= primes[i] && primes[i] as int * primor as int < STEP_LIMIT
    {
      assert primes[i] in PrimesBelow(Quant(max, b));
      assert primes[i] < 0x1_0000;
      assert primor <= 210;
      MulLe(primes[i] as int, 0x1_0000, primor as int);
    }
  }
}
