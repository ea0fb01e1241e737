/**
 * One sieving worker of the wheel-factorised search. For every interval, every
 * sieving prime p (the primes after the wheel primes) and every spoke s of its
 * share, it walks the multiples of p from just above the current scan start to
 * the first one that lies on spoke s modulo the primorial, and from there marks
 * every p*primorial-th number below the interval's high bound as composite in
 * the shared bitmap. It only ever stores true and never reads the bitmap, so its
 * whole effect is a set of marked indices.
 */
module Worker {
  import opened Common
  import opened Intervals

  /** The largest step a worker may take; steps stay below it. */
  const STEP_LIMIT: int := 0x100_0000

  /** Interval bounds stay below this, so that a bound plus a step fits in 32 bits. */
  const BOUND_LIMIT: int := U32_LIMIT - STEP_LIMIT

  // ---------------------------------------------------------------------------
  // The bitmap as a value

  /** The bitmap after every index in marks has been set to true. */
  function ApplyMarks(s: seq<bool>, marks: set<int>): seq<bool>
  {
    seq(|s|, x requires 0 <= x < |s| => s[x] || x in marks)
  }

  lemma ApplyMarksEmpty(s: seq<bool>)
    ensures ApplyMarks(s, {}) == s
  {}

  /** Marking A and then B is marking their union. */
  lemma ApplyMarksUnion(s: seq<bool>, a: set<int>, b: set<int>)
    ensures ApplyMarks(ApplyMarks(s, a), b) == ApplyMarks(s, a + b)
  {}

  /** Storing true at x and then marking b is marking {x} and b. */
  lemma ApplyMarksStore(s: seq<bool>, x: nat, b: set<int>)
    requires x < |s|
    ensures ApplyMarks(s[x := true], b) == ApplyMarks(s, {x} + b)
  {}

  /** Marking only ever sets cells: a true cell stays true; a cell outside the marks is unchanged. */
  lemma ApplyMarksMonotone(s: seq<bool>, marks: set<int>, x: nat)
    requires x < |s|
    ensures s[x] ==> ApplyMarks(s, marks)[x]
    ensures x !in marks ==> ApplyMarks(s, marks)[x] == s[x]
  {}

  /** Running the same marks twice is running them once. */
  lemma ApplyMarksIdempotent(s: seq<bool>, marks: set<int>)
    ensures ApplyMarks(ApplyMarks(s, marks), marks) == ApplyMarks(s, marks)
  {
    ApplyMarksUnion(s, marks, marks);
    assert marks + marks == marks;
  }

  /** The order in which two mark sets are applied does not matter. */
  lemma ApplyMarksCommute(s: seq<bool>, a: set<int>, b: set<int>)
    ensures ApplyMarks(ApplyMarks(s, a), b) == ApplyMarks(ApplyMarks(s, b), a)
  {
    ApplyMarksUnion(s, a, b);
    ApplyMarksUnion(s, b, a);
    assert a + b == b + a;
  }

  /** Several mark sets applied in the order given. */
  function ApplyAll(s: seq<bool>, runs: seq<set<int>>): seq<bool>
    decreases |runs|
  {
    if runs == [] then s else ApplyMarks(ApplyAll(s, runs[..|runs| - 1]), runs[|runs| - 1])
  }

  function UnionAll(runs: seq<set<int>>): set<int>
    decreases |runs|
  {
    if runs == [] then {} else UnionAll(runs[..|runs| - 1]) + runs[|runs| - 1]
  }

  lemma {:induction false} UnionAllMembers(runs: seq<set<int>>, x: int)
    ensures x in UnionAll(runs) <==> exists k :: 0 <= k < |runs| && x in runs[k]
    decreases |runs|
  {
    if runs != [] {
      var init := runs[..|runs| - 1];
      UnionAllMembers(init, x);
      if x in UnionAll(init) {
        var k :| 0 <= k < |init| && x in init[k];
        assert runs[k] == init[k];
      }
      if exists k :: 0 <= k < |runs| && x in runs[k] {
        var k :| 0 <= k < |runs| && x in runs[k];
        if k < |init| {
          assert init[k] == runs[k];
        }
      }
    }
  }

  /** Applying several runs in sequence marks exactly their union. */
  lemma {:induction false} ApplyAllUnion(s: seq<bool>, runs: seq<set<int>>)
    ensures ApplyAll(s, runs) == ApplyMarks(s, UnionAll(runs))
    decreases |runs|
  {
    if runs == [] {
      ApplyMarksEmpty(s);
    } else {
      ApplyAllUnion(s, runs[..|runs| - 1]);
      ApplyMarksUnion(s, UnionAll(runs[..|runs| - 1]), runs[|runs| - 1]);
    }
  }

  /**
   * Workers run in any order, any number of times each, leave the same bitmap:
   * only which runs occur matters.
   */
  lemma WorkersOrderFree(s: seq<bool>, runs1: seq<set<int>>, runs2: seq<set<int>>)
    requires forall m :: m in runs1 <==> m in runs2
    ensures ApplyAll(s, runs1) == ApplyAll(s, runs2)
  {
    ApplyAllUnion(s, runs1);
    ApplyAllUnion(s, runs2);
    forall x
      ensures x in UnionAll(runs1) <==> x in UnionAll(runs2)
    {
      UnionAllMembers(runs1, x);
      UnionAllMembers(runs2, x);
      if exists k :: 0 <= k < |runs1| && x in runs1[k] {
        var k :| 0 <= k < |runs1| && x in runs1[k];
        assert runs1[k] in runs2;
        var k2 :| 0 <= k2 < |runs2| && runs2[k2] == runs1[k];
      }
      if exists k :: 0 <= k < |runs2| && x in runs2[k] {
        var k :| 0 <= k < |runs2| && x in runs2[k];
        assert runs2[k] in runs1;
        var k1 :| 0 <= k1 < |runs1| && runs1[k1] == runs2[k];
      }
    }
    assert UnionAll(runs1) == UnionAll(runs2);
  }

  // ---------------------------------------------------------------------------
  // What a worker marks

  /** j, j + r, j + 2r, ... below high: the indices the striding loop stores true at. */
  function Stride(j: nat, r: nat, high: nat): set<int>
    requires r > 0
    decreases high - j
  {
    if j >= high then {} else {j} + Stride(j + r, r, high)
  }

  /**
   * The first of j, j + p, j + 2p, ... below high whose unsigned 32-bit distance
   * from the spoke is a multiple of the primorial.
   */
  function FirstHit(p: nat, j: nat, high: u32, spoke: u32, primor: nat): Option<nat>
    requires p > 0 && primor > 0
    decreases high - j
  {
    if j >= high then None
    else if Sub32(j, spoke) % primor == 0 then Some(j)
    else FirstHit(p, j + p, high, spoke, primor)
  }

  /** The smallest multiple of p above the scan start: p * (1 + nBegin / p). */
  function StartOf(p: nat, nBegin: nat): nat
    requires p > 0
  {
    p * (1 + nBegin / p)
  }

  /** What one spoke contributes for prime p: the stride from the first hit, if any. */
  function HitMarks(p: nat, start: nat, high: u32, spoke: u32, primor: nat): set<int>
    requires p > 0 && primor > 0
  {
    match FirstHit(p, start, high, spoke, primor)
    case None => {}
    case Some(h) => Stride(h, p * primor, high)
  }

  /** The contributions of the first n spokes for prime p. */
  function SpokesMarks(p: nat, start: nat, high: u32, spokes: seq<u32>, primor: nat, n: nat): set<int>
    requires p > 0 && primor > 0 && n <= |spokes|
  {
    if n == 0 then {}
    else SpokesMarks(p, start, high, spokes, primor, n - 1) + HitMarks(p, start, high, spokes[n - 1], primor)
  }

  predicate SievingPrimes(primes: seq<u32>, from: nat)
  {
    forall i :: from <= i < |primes| ==> primes[i] >= 2
  }

  /** The contributions of the sieving primes primes[from..n] for one interval. */
  function PrimesMarks(primes: seq<u32>, from: nat, n: nat, nBegin: nat, high: u32,
                       spokes: seq<u32>, primor: nat): set<int>
    requires SievingPrimes(primes, from) && n <= |primes| && primor > 0
  {
    if n <= from then {}
    else
      PrimesMarks(primes, from, n - 1, nBegin, high, spokes, primor)
      + SpokesMarks(primes[n - 1], StartOf(primes[n - 1], nBegin), high, spokes, primor, |spokes|)
  }

  /**
   * The scan start when interval m is reached: it begins at the floor square
   * root of the last interval's high bound and is raised to the low bound of
   * every interval that is not skipped.
   */
  function NBegin(intervals: seq<Interval>, m: nat): nat
    requires 0 < |intervals| && m <= |intervals|
  {
    if m == 0 then ISqrt(intervals[|intervals| - 1].high)
    else
      var nb := NBegin(intervals, m - 1);
      var e := intervals[m - 1];
      if e.high < nb then nb else Max(nb, e.low)
  }

  predicate Skipped(intervals: seq<Interval>, m: nat)
    requires 0 < |intervals| && m < |intervals|
  {
    intervals[m].high < NBegin(intervals, m)
  }

  /** What interval m contributes. */
  function IntervalMarks(intervals: seq<Interval>, m: nat, primes: seq<u32>, from: nat,
                         spokes: seq<u32>, primor: nat): set<int>
    requires 0 < |intervals| && m < |intervals|
    requires SievingPrimes(primes, from) && primor > 0
  {
    if Skipped(intervals, m) then {}
    else PrimesMarks(primes, from, |primes|, NBegin(intervals, m + 1), intervals[m].high, spokes, primor)
  }

  /** What the first n intervals contribute. */
  function WorkerMarks(intervals: seq<Interval>, n: nat, primes: seq<u32>, from: nat,
                       spokes: seq<u32>, primor: nat): set<int>
    requires 0 < |intervals| && n <= |intervals|
    requires SievingPrimes(primes, from) && primor > 0
  {
    if n == 0 then {}
    else WorkerMarks(intervals, n - 1, primes, from, spokes, primor)
         + IntervalMarks(intervals, n - 1, primes, from, spokes, primor)
  }

  // ---------------------------------------------------------------------------
  // Properties of the marks

  lemma {:induction false} StrideMember(j: nat, r: nat, high: nat, x: int)
    requires r > 0 && x in Stride(j, r, high)
    ensures j <= x < high && (x - j) % r == 0
    decreases high - j
  {
    if x == j {
      ModUnique(0, 0, 0, r);
    } else {
      StrideMember(j + r, r, high, x);
      ModUnique(r, 1, 0, r);
      DivisibleSum(x - (j + r), r, r);
    }
  }

  /** The first hit is a hit, lies on the walk, and no earlier step of the walk is one. */
  lemma {:induction false} FirstHitIsFirst(p: nat, j: nat, high: u32, spoke: u32, primor: nat)
    requires p > 0 && primor > 0 && FirstHit(p, j, high, spoke, primor).Some?
    ensures var h := FirstHit(p, j, high, spoke, primor).value;
      j <= h < high && (h - j) % p == 0 && Sub32(h, spoke) % primor == 0
    ensures forall y :: j <= y < FirstHit(p, j, high, spoke, primor).value && (y - j) % p == 0 ==>
              Sub32(y, spoke) % primor != 0
    decreases high - j
  {
    if Sub32(j, spoke) % primor == 0 {
      ModUnique(0, 0, 0, p);
    } else {
      var h := FirstHit(p, j, high, spoke, primor).value;
      FirstHitIsFirst(p, j + p, high, spoke, primor);
      ModUnique(p, 1, 0, p);
      DivisibleSum(h - (j + p), p, p);
      forall y | j <= y < h && (y - j) % p == 0
        ensures Sub32(y, spoke) % primor != 0
      {
        if y > j {
          WalkStep(p, j, y);
        }
      }
    }
  }

  /** A step of the walk after j is at least j + p and is a step of the walk from j + p. */
  lemma WalkStep(p: nat, j: nat, y: int)
    requires p > 0 && j < y && (y - j) % p == 0
    ensures j + p <= y && (y - (j + p)) % p == 0
  {
    if y < j + p {
      ModUnique(y - j, 0, y - j, p);
    }
    ModUnique(p, 1, 0, p);
    DivisibleSum(y - j, p, p);
  }

  /** No hit: no step of the walk below high is on the spoke. */
  lemma {:induction false} FirstHitNone(p: nat, j: nat, high: u32, spoke: u32, primor: nat, y: int)
    requires p > 0 && primor > 0 && FirstHit(p, j, high, spoke, primor).None?
    requires j <= y < high && (y - j) % p == 0
    ensures Sub32(y, spoke) % primor != 0
    decreases high - j
  {
    if y > j {
      WalkStep(p, j, y);
      FirstHitNone(p, j + p, high, spoke, primor, y);
    }
  }

  lemma StartBounds(p: nat, nBegin: nat)
    requires p > 0
    ensures nBegin < StartOf(p, nBegin) <= nBegin + p
    ensures StartOf(p, nBegin) % p == 0
    ensures p <= nBegin ==> StartOf(p, nBegin) >= 2 * p
  {
    var q := nBegin / p;
    assert nBegin == p * q + nBegin % p;
    assert StartOf(p, nBegin) == p * q + p;
    ModUnique(StartOf(p, nBegin), 1 + q, 0, p);
    if p <= nBegin {
      assert q >= 1;
      assert p * q >= p;
    }
  }

  /**
   * Every index one spoke contributes lies below high, is a multiple of p above
   * the scan start, and sits at a whole number of p*primorial steps beyond the
   * first hit, whose 32-bit distance from the spoke is a multiple of the
   * primorial. So when the first hit is not below the spoke, the index is
   * congruent to the spoke; when it is, the distance wrapped around 2^32.
   */
  lemma HitMarksMember(p: nat, nBegin: nat, high: u32, spoke: u32, primor: nat, x: int)
    returns (h: nat)
    requires p > 0 && primor > 0
    requires x in HitMarks(p, StartOf(p, nBegin), high, spoke, primor)
    ensures FirstHit(p, StartOf(p, nBegin), high, spoke, primor) == Some(h)
    ensures nBegin < h <= x < high
    ensures x % p == 0
    ensures Sub32(h, spoke) % primor == 0
    ensures (x - h) % primor == 0
    ensures h >= spoke ==> (x - spoke) % primor == 0
    ensures h < spoke ==> (x - spoke + U32_LIMIT) % primor == 0
  {
    var start := StartOf(p, nBegin);
    StartBounds(p, nBegin);
    h := FirstHit(p, start, high, spoke, primor).value;
    FirstHitIsFirst(p, start, high, spoke, primor);
    StrideMember(h, p * primor, high, x);
    DivisibleFactors(x - h, p, primor);
    DivisibleSum(h - start, start, p);
    DivisibleSum(x - h, h, p);
    var w := Sub32(h, spoke);
    DivisibleSum(x - h, w, primor);
    if h >= spoke {
      assert x - spoke == (x - h) + w;
    } else {
      assert x - spoke + U32_LIMIT == (x - h) + w;
    }
  }

  /**
   * The unsigned subtraction wraps: 33 is not congruent to 79 modulo 210, yet
   * (33 - 79) mod 2^32 is a multiple of 210, so 33 counts as a hit on spoke 79.
   */
  lemma SpokeTestWraps()
    ensures Sub32(33, 79) % 210 == 0
    ensures (33 - 79) % 210 != 0
  {}

  lemma {:induction false} SpokesMarksMember(p: nat, nBegin: nat, high: u32, spokes: seq<u32>,
                                             primor: nat, n: nat, x: int) returns (k: nat)
    requires p > 0 && primor > 0 && n <= |spokes|
    requires x in SpokesMarks(p, StartOf(p, nBegin), high, spokes, primor, n)
    ensures k < n && x in HitMarks(p, StartOf(p, nBegin), high, spokes[k], primor)
  {
    if x in HitMarks(p, StartOf(p, nBegin), high, spokes[n - 1], primor) {
      k := n - 1;
    } else {
      k := SpokesMarksMember(p, nBegin, high, spokes, primor, n - 1, x);
    }
  }

  lemma {:induction false} PrimesMarksMember(primes: seq<u32>, from: nat, n: nat, nBegin: nat, high: u32,
                                             spokes: seq<u32>, primor: nat, x: int) returns (i: nat, k: nat)
    requires SievingPrimes(primes, from) && n <= |primes| && primor > 0
    requires x in PrimesMarks(primes, from, n, nBegin, high, spokes, primor)
    ensures from <= i < n && k < |spokes|
    ensures x in HitMarks(primes[i], StartOf(primes[i], nBegin), high, spokes[k], primor)
  {
    var p := primes[n - 1];
    if x in SpokesMarks(p, StartOf(p, nBegin), high, spokes, primor, |spokes|) {
      i := n - 1;
      k := SpokesMarksMember(p, nBegin, high, spokes, primor, |spokes|, x);
    } else {
      i, k := PrimesMarksMember(primes, from, n - 1, nBegin, high, spokes, primor, x);
    }
  }

  /** The scan start never decreases, and a processed interval raises it to at least its low bound. */
  lemma NBeginGrows(intervals: seq<Interval>, m: nat)
    requires 0 < |intervals| && m < |intervals|
    ensures NBegin(intervals, m) <= NBegin(intervals, m + 1)
    ensures !Skipped(intervals, m) ==> NBegin(intervals, m + 1) == Max(NBegin(intervals, m), intervals[m].low)
    ensures Skipped(intervals, m) ==> NBegin(intervals, m + 1) == NBegin(intervals, m)
  {}

  lemma {:induction false} NBeginAtLeastStart(intervals: seq<Interval>, m: nat)
    requires 0 < |intervals| && m <= |intervals|
    ensures ISqrt(intervals[|intervals| - 1].high) <= NBegin(intervals, m)
  {
    if m > 0 {
      NBeginAtLeastStart(intervals, m - 1);
      NBeginGrows(intervals, m - 1);
    }
  }

  /** An interval whose high bound is below the floor square root of the last high bound is skipped. */
  lemma SmallIntervalSkipped(intervals: seq<Interval>, m: nat, primes: seq<u32>, from: nat,
                             spokes: seq<u32>, primor: nat)
    requires 0 < |intervals| && m < |intervals|
    requires SievingPrimes(primes, from) && primor > 0
    requires intervals[m].high < ISqrt(intervals[|intervals| - 1].high)
    ensures IntervalMarks(intervals, m, primes, from, spokes, primor) == {}
  {
    NBeginAtLeastStart(intervals, m);
  }

  /**
   * Every index a worker marks lies in the bitmap only below the high bound of
   * the interval being handled, is a multiple of a sieving prime greater than
   * the scan start, hence a proper multiple when that prime is at most the
   * floor square root of the last high bound, and belongs to one of the
   * worker's spokes in the sense of HitMarksMember.
   */
  lemma {:induction false} WorkerMarksMember(intervals: seq<Interval>, n: nat, primes: seq<u32>, from: nat,
                                             spokes: seq<u32>, primor: nat, x: int)
    returns (m: nat, i: nat, k: nat)
    requires 0 < |intervals| && n <= |intervals|
    requires SievingPrimes(primes, from) && primor > 0
    requires x in WorkerMarks(intervals, n, primes, from, spokes, primor)
    ensures m < n && from <= i < |primes| && k < |spokes|
    ensures !Skipped(intervals, m)
    ensures x < intervals[m].high
    ensures x % primes[i] == 0
    ensures NBegin(intervals, m + 1) < x
    ensures primes[i] <= ISqrt(intervals[|intervals| - 1].high) ==> x >= 2 * primes[i]
    ensures x in HitMarks(primes[i], StartOf(primes[i], NBegin(intervals, m + 1)), intervals[m].high, spokes[k], primor)
  {
    if x in IntervalMarks(intervals, n - 1, primes, from, spokes, primor) {
      m := n - 1;
      var nb := NBegin(intervals, m + 1);
      i, k := PrimesMarksMember(primes, from, |primes|, nb, intervals[m].high, spokes, primor, x);
      var p: nat := primes[i];
      var h := HitMarksMember(p, nb, intervals[m].high, spokes[k], primor, x);
      NBeginAtLeastStart(intervals, m + 1);
      if p <= ISqrt(intervals[|intervals| - 1].high) {
        MultipleAbove(x, p);
      }
    } else {
      m, i, k := WorkerMarksMember(intervals, n - 1, primes, from, spokes, primor, x);
    }
  }

  // ---------------------------------------------------------------------------
  // The worker

  /** PrimeNumFunc: the functor one thread runs over the shared bitmap. */
  class PrimeNumFunc {
    const bitmap: array<bool>
    const primes: seq<u32>
    const spokes: seq<u32>
    const intervals: seq<Interval>
    const primor: u32
    const numOfSpokes: u32
    const begPrimesNum: u32

    /**
     * What the unchecked accesses and the 32-bit arithmetic need: a non-zero
     * primorial, sieving primes of at least 2 whose step p*primorial stays
     * below STEP_LIMIT, and interval bounds below BOUND_LIMIT whose high bound
     * is within the bitmap.
     */
    predicate Valid()
    {
      numOfSpokes as int == |spokes| && 0 < |intervals| && 0 < primor
      && SievingPrimes(primes, begPrimesNum as int)
      && (forall i :: begPrimesNum as int <= i < |primes| ==> primes[i] as int * primor as int < STEP_LIMIT)
      && (forall m :: 0 <= m < |intervals| ==>
            intervals[m].low < BOUND_LIMIT && intervals[m].high < BOUND_LIMIT
            && intervals[m].high <= bitmap.Length)
    }

    /** The marks of a whole run. */
    function Marks(): set<int>
      requires Valid()
    {
      WorkerMarks(intervals, |intervals|, primes, begPrimesNum as int, spokes, primor as int)
    }

    constructor (bitmap: array<bool>, primes: seq<u32>, spokes: seq<u32>, intervals: seq<Interval>,
                 primor: u32, begPrimesNum: u32)
      requires |spokes| < U32_LIMIT
      ensures this.bitmap == bitmap && this.primes == primes && this.spokes == spokes
      ensures this.intervals == intervals && this.primor == primor && this.begPrimesNum == begPrimesNum
      ensures numOfSpokes as int == |spokes|
    {
      this.bitmap := bitmap;
      this.primes := primes;
      this.spokes := spokes;
      this.intervals := intervals;
      this.primor := primor;
      this.numOfSpokes := |spokes| as u32;
      this.begPrimesNum := begPrimesNum;
    }

    /** operator(): the whole marking pass; it reads no cell and stores only true. */
    method Run()
      requires Valid()
      modifies bitmap
      ensures bitmap[..] == ApplyMarks(old(bitmap[..]), Marks())
    {
      ISqrtAtMost(intervals[|intervals| - 1].high);
      var nBegin: u32 := ISqrt(intervals[|intervals| - 1].high);
      var m := 0;
      while m < |intervals|
        invariant 0 <= m <= |intervals|
        invariant nBegin as int == NBegin(intervals, m) && nBegin < BOUND_LIMIT
        invariant bitmap[..] == ApplyMarks(old(bitmap[..]), WorkerMarks(intervals, m, primes, begPrimesNum as int, spokes, primor as int))
      {
        nBegin := ScanInterval(m, nBegin);
        ApplyMarksUnion(old(bitmap[..]), WorkerMarks(intervals, m, primes, begPrimesNum as int, spokes, primor as int),
                        IntervalMarks(intervals, m, primes, begPrimesNum as int, spokes, primor as int));
        m := m + 1;
      }
    }

    /**
     * One pass of the interval loop: an interval wholly below the scan start is
     * skipped; otherwise the start moves up to its low bound and it is marked.
     */
    method ScanInterval(m: nat, nBegin: u32) returns (next: u32)
      requires Valid() && m < |intervals| && nBegin as int == NBegin(intervals, m) && nBegin < BOUND_LIMIT
      modifies bitmap
      ensures next as int == NBegin(intervals, m + 1) && next < BOUND_LIMIT
      ensures bitmap[..] == ApplyMarks(old(bitmap[..]),
                IntervalMarks(intervals, m, primes, begPrimesNum as int, spokes, primor as int))
    {
      var high := intervals[m].high;
      var low := intervals[m].low;
      next := nBegin;
      if high >= nBegin {
        if low > nBegin {
          next := low;
        }
        MarkInterval(next, high);
      } else {
        ApplyMarksEmpty(bitmap[..]);
      }
    }

    /** The loop over the sieving primes for one interval. */
    method MarkInterval(nBegin: u32, high: u32)
      requires Valid() && nBegin < BOUND_LIMIT && high < BOUND_LIMIT && high as int <= bitmap.Length
      modifies bitmap
      ensures bitmap[..] == ApplyMarks(old(bitmap[..]),
                PrimesMarks(primes, begPrimesNum as int, |primes|, nBegin as int, high, spokes, primor as int))
    {
      var i := begPrimesNum as int;
      ApplyMarksEmpty(bitmap[..]);
      if i > |primes| {
        return;
      }
      while i < |primes|
        invariant begPrimesNum as int <= i <= |primes|
        invariant bitmap[..] == ApplyMarks(old(bitmap[..]),
                    PrimesMarks(primes, begPrimesNum as int, i, nBegin as int, high, spokes, primor as int))
      {
        var p := primes[i];
        ghost var before := bitmap[..];
        MarkPrime(p, nBegin, high);
        ApplyMarksUnion(old(bitmap[..]), PrimesMarks(primes, begPrimesNum as int, i, nBegin as int, high, spokes, primor as int),
                        SpokesMarks(p as int, StartOf(p as int, nBegin as int), high, spokes, primor as int, |spokes|));
        i := i + 1;
      }
    }

    /** The loop over this worker's spokes for one sieving prime. */
    method MarkPrime(p: u32, nBegin: u32, high: u32)
      requires Valid() && 2 <= p && p as int * primor as int < STEP_LIMIT
      requires nBegin < BOUND_LIMIT && high < BOUND_LIMIT && high as int <= bitmap.Length
      modifies bitmap
      ensures bitmap[..] == ApplyMarks(old(bitmap[..]),
                SpokesMarks(p as int, StartOf(p as int, nBegin as int), high, spokes, primor as int, |spokes|))
    {
      StartBounds(p as int, nBegin as int);
      assert p as int <= p as int * primor as int;
      var preDiv := 1 + nBegin / p;
      var start: u32 := p * preDiv;
      var k := 0;
      ApplyMarksEmpty(bitmap[..]);
      while k < numOfSpokes
        invariant 0 <= k <= numOfSpokes
        invariant bitmap[..] == ApplyMarks(old(bitmap[..]),
                    SpokesMarks(p as int, start as int, high, spokes, primor as int, k as int))
      {
        MarkSpoke(p, start, high, spokes[k]);
        ApplyMarksUnion(old(bitmap[..]), SpokesMarks(p as int, start as int, high, spokes, primor as int, k as int),
                        HitMarks(p as int, start as int, high, spokes[k], primor as int));
        k := k + 1;
      }
    }

    /** The walk by p to the first hit on the spoke, then the stride by p*primorial from it. */
    method MarkSpoke(p: u32, start: u32, high: u32, spoke: u32)
      requires 0 < primor && 2 <= p && p as int * primor as int < STEP_LIMIT
      requires high < BOUND_LIMIT && high as int <= bitmap.Length
      modifies bitmap
      ensures bitmap[..] == ApplyMarks(old(bitmap[..]), HitMarks(p as int, start as int, high, spoke, primor as int))
    {
      ghost var hit := FirstHit(p as int, start as int, high, spoke, primor as int);
      MulAtLeast(primor as int, p as int);
      var step: u32 := p * primor;
      var j: u32 := start;
      while j < high
        invariant FirstHit(p as int, j as int, high, spoke, primor as int) == hit
        invariant bitmap[..] == old(bitmap[..])
        decreases high - j
      {
        if Sub32(j, spoke) % primor == 0 {
          assert hit == Some(j as int);
          MarkStride(j, step, high);
          return;
        }
        j := j + p;
      }
      assert hit == None;
      ApplyMarksEmpty(bitmap[..]);
    }

    /** Store true at j, j + r, j + 2r, ... below high. */
    method MarkStride(j0: u32, r: u32, high: u32)
      requires 0 < r && r < STEP_LIMIT && high < BOUND_LIMIT && high as int <= bitmap.Length
      modifies bitmap
      ensures bitmap[..] == ApplyMarks(old(bitmap[..]), Stride(j0 as int, r as int, high as int))
    {
      var j: u32 := j0;
      while j < high
        invariant ApplyMarks(bitmap[..], Stride(j as int, r as int, high as int))
                  == ApplyMarks(old(bitmap[..]), Stride(j0 as int, r as int, high as int))
        decreases high - j
      {
        ApplyMarksStore(bitmap[..], j as int, Stride(j as int + r as int, r as int, high as int));
        bitmap[j] := true;
        j := j + r;
      }
      ApplyMarksEmpty(bitmap[..]);
    }
  }
}
