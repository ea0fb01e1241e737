/**
 * The read-only adapter over the search result. A dense position below the
 * number of initial primes stands for that prime; any later position stands
 * for the wheel number (pos / spokes) * primorial + spoke[pos % spokes], reported
 * only when its bitmap cell is unmarked. Either way the value is reported only
 * when it lies in one of the intervals, and 0 stands for "not reported".
 */
module Adapter {
  import opened Common
  import opened Intervals

  /** The OutOfRange exception. */
  datatype AdapterError = OutOfRange

  /** std::any_of over the intervals with the inclusive membership test. */
  predicate InSomeInterval(intervals: seq<Interval>, v: int)
  {
    exists k :: 0 <= k < |intervals| && Contains(intervals[k], v)
  }

  /**
   * The wheel number of a position past the initial primes, computed as the
   * source does: the cycle index is truncated to 32 bits and the product and
   * sum wrap modulo 2^32.
   */
  function WheelNumber(pos: nat, spokes: seq<u32>, primor: u32): u32
    requires |spokes| > 0
  {
    var spoke := pos % |spokes|;
    var index := (pos / |spokes|) % U32_LIMIT;
    (index * primor + spokes[spoke]) % U32_LIMIT
  }

  /** Without wrap-around the wheel number is cycle * primorial + spoke. */
  lemma WheelNumberExact(pos: nat, spokes: seq<u32>, primor: u32)
    requires |spokes| > 0
    requires (pos / |spokes|) * primor + spokes[pos % |spokes|] < U32_LIMIT
    ensures WheelNumber(pos, spokes, primor) == (pos / |spokes|) * primor + spokes[pos % |spokes|]
  {
    var n := |spokes|;
    var c := pos / n;
    var sp: int := spokes[pos % n];
    if primor > 0 {
      if c > 0 {
        MulAtLeast(primor, c);
      }
      ModUnique(c, 0, c, U32_LIMIT);
    }
    assert (c % U32_LIMIT) * primor == c * primor;
    ModUnique(c * primor + sp, 0, c * primor + sp, U32_LIMIT);
  }

  predicate StrictlyAscending(s: seq<u32>)
  {
    forall i, j :: 0 <= i < j < |s| ==> s[i] < s[j]
  }

  /**
   * With ascending spokes below the primorial and no wrap-around, a wheel
   * number encodes its position: the quotient by the primorial is the cycle
   * and the remainder is the spoke. So distinct positions give distinct numbers.
   */
  lemma WheelNumberDecodes(pos: nat, spokes: seq<u32>, primor: u32)
    requires |spokes| > 0 && primor > 0
    requires forall k :: 0 <= k < |spokes| ==> spokes[k] < primor
    requires (pos / |spokes|) * primor + spokes[pos % |spokes|] < U32_LIMIT
    ensures WheelNumber(pos, spokes, primor) / primor == pos / |spokes|
    ensures WheelNumber(pos, spokes, primor) % primor == spokes[pos % |spokes|]
  {
    WheelNumberExact(pos, spokes, primor);
    ModUnique(WheelNumber(pos, spokes, primor), pos / |spokes|, spokes[pos % |spokes|], primor);
  }

  lemma WheelNumberInjective(p1: nat, p2: nat, spokes: seq<u32>, primor: u32)
    requires |spokes| > 0 && primor > 0 && StrictlyAscending(spokes)
    requires forall k :: 0 <= k < |spokes| ==> spokes[k] < primor
    requires (p1 / |spokes|) * primor + spokes[p1 % |spokes|] < U32_LIMIT
    requires (p2 / |spokes|) * primor + spokes[p2 % |spokes|] < U32_LIMIT
    requires WheelNumber(p1, spokes, primor) == WheelNumber(p2, spokes, primor)
    ensures p1 == p2
  {
    var n := |spokes|;
    WheelNumberDecodes(p1, spokes, primor);
    WheelNumberDecodes(p2, spokes, primor);
    assert p1 % n == p2 % n;
    assert p1 == (p1 / n) * n + p1 % n;
    assert p2 == (p2 / n) * n + p2 % n;
  }

  /** PrimeNumbersVector: fields fixed at construction; at and size only read. */
  class PrimeNumbersVector {
    const bitmap: array<bool>
    const intervals: seq<Interval>
    const primes: seq<u32>
    const spokes: seq<u32>
    const primor: u32
    const numOfSpokes: u32
    const begPrimesNum: u32
    const max: u32
    /** The effective size, an input here (the source estimates it in floating point). */
    const size: nat

    predicate Valid()
    {
      numOfSpokes as int == |spokes| && 0 < |spokes| && 0 < |intervals|
    }

    constructor (bitmap: array<bool>, intervals: seq<Interval>, primes: seq<u32>, spokes: seq<u32>,
                 primor: u32, begPrimesNum: u32, size: nat)
      requires 0 < |intervals| && 0 < |spokes| < U32_LIMIT
      ensures Valid()
      ensures this.bitmap == bitmap && this.intervals == intervals && this.primes == primes
      ensures this.spokes == spokes && this.primor == primor && this.begPrimesNum == begPrimesNum
      ensures this.size == size
      ensures numOfSpokes as int == |spokes| && max == intervals[|intervals| - 1].high
    {
      this.bitmap := bitmap;
      this.intervals := intervals;
      this.primes := primes;
      this.spokes := spokes;
      this.primor := primor;
      this.numOfSpokes := |spokes| as u32;
      this.begPrimesNum := begPrimesNum;
      this.max := intervals[|intervals| - 1].high;
      this.size := size;
    }

    function Size(): nat
    {
      size
    }

    /** The number a wheel position stands for, 0 when its cell is marked. */
    function Candidate(pos: nat): (r: u32)
      reads bitmap
      requires Valid() && WheelNumber(pos, spokes, primor) < bitmap.Length
      ensures r == 0 || (r == WheelNumber(pos, spokes, primor) && !bitmap[r])
      ensures !bitmap[WheelNumber(pos, spokes, primor)] ==> r == WheelNumber(pos, spokes, primor)
    {
      var w := WheelNumber(pos, spokes, primor);
      if bitmap[w] then 0 else w
    }

    /**
     * at: positions from size() on are out of range; the bitmap cell of a wheel
     * position is read unchecked, so it must lie within the bitmap.
     */
    function At(pos: nat): (r: Result<u32, AdapterError>)
      reads bitmap
      requires Valid()
      requires Size() <= pos || pos < |primes| || WheelNumber(pos, spokes, primor) < bitmap.Length
      ensures r.Failure? <==> Size() <= pos
      ensures r.Failure? ==> r.error == OutOfRange
      ensures r.Success? && r.value != 0 ==> InSomeInterval(intervals, r.value)
      ensures r.Success? && pos < |primes| ==>
                r.value == (if InSomeInterval(intervals, primes[pos]) then primes[pos] else 0)
      ensures r.Success? && |primes| <= pos && r.value != 0 ==>
                r.value == WheelNumber(pos, spokes, primor) && !bitmap[r.value]
    {
      if pos < Size() then
        var cur := if pos < |primes| then primes[pos] else Candidate(pos);
        Success(if InSomeInterval(intervals, cur) then cur else 0)
      else
        Failure(OutOfRange)
    }

    /**
     * A wheel position whose number is unmarked and lies in an interval is
     * reported as that number.
     */
    lemma AtReportsUnmarked(pos: nat)
      requires Valid() && |primes| <= pos < Size()
      requires WheelNumber(pos, spokes, primor) < bitmap.Length
      requires !bitmap[WheelNumber(pos, spokes, primor)]
      requires InSomeInterval(intervals, WheelNumber(pos, spokes, primor))
      ensures At(pos) == Success(WheelNumber(pos, spokes, primor))
    {}
  }
}
