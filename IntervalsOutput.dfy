/**
 * The interval output strategy: it reads pairs of bounds out of the tags named
 * "intervals", normalises each pair, merges it into the intervals collected so
 * far (widening every entry it overlaps, appending it when it overlaps none)
 * and sorts the collection with the interval operator<.
 */
module Merge {
  import opened Common
  import opened Intervals
  import opened Tags
  import opened Xml

  const INTERVALS_TAG_NAME: string := "intervals"

  predicate AllNormalised(v: seq<Interval>)
  {
    forall i :: 0 <= i < |v| ==> Normalised(v[i])
  }

  /** Interval a holds every point of interval p. */
  predicate Covers(a: Interval, p: Interval)
  {
    a.low <= p.low && p.high <= a.high
  }

  /** A pair whose bounds come reversed is swapped so that low <= high. */
  function Normalise(low: u32, high: u32): (r: Interval)
    ensures Normalised(r)
    ensures (r.low == low && r.high == high) || (r.low == high && r.high == low)
    ensures low <= high ==> r == Interval(low, high)
  {
    if low > high then Interval(high, low) else Interval(low, high)
  }

  /** The pair a tag carries: the values of its first "low" and first "high" children, normalised. */
  function PairOf(t: Tag): (r: Interval)
    ensures Normalised(r)
  {
    Normalise(FirstNamed(t.children, "low").value, FirstNamed(t.children, "high").value)
  }

  /** Entry e takes part in merging pair p: one of the branches that clear the append flag fires. */
  predicate Triggers(e: Interval, p: Interval)
  {
    if p.low < e.low then p.high > e.high || p.high > e.low
    else p.low <= e.high
  }

  /** The new value of entry e after the merge branches for pair p. */
  function Widen(e: Interval, p: Interval): Interval
  {
    if p.low < e.low then
      if p.high > e.high then p
      else if p.high > e.low then Interval(p.low, e.high)
      else e
    else if p.low <= e.high then
      if p.high > e.high then Interval(e.low, p.high) else e
    else e
  }

  /**
   * Every entry of v after the merge branches for pair p; entries are handled
   * independently. Each entry only widens, an entry no branch fires for is
   * kept, and an entry that does fire ends up covering the pair when both are
   * normalised.
   */
  function MergeAll(v: seq<Interval>, p: Interval): (r: seq<Interval>)
    ensures |r| == |v|
    ensures forall j :: 0 <= j < |v| ==> r[j].low <= v[j].low && v[j].high <= r[j].high
    ensures forall j :: 0 <= j < |v| && !Triggers(v[j], p) ==> r[j] == v[j]
    ensures forall j :: 0 <= j < |v| && Normalised(v[j]) && Normalised(p) ==> Normalised(r[j])
    ensures forall j :: 0 <= j < |v| && Normalised(v[j]) && Normalised(p) && Triggers(v[j], p) ==>
              r[j].low == Min(v[j].low, p.low) && r[j].high == Max(v[j].high, p.high)
  {
    seq(|v|, j requires 0 <= j < |v| => Widen(v[j], p))
  }

  predicate AnyTriggers(v: seq<Interval>, p: Interval)
  {
    exists j :: 0 <= j < |v| && Triggers(v[j], p)
  }

  /** One pair processed: entries widened, and the pair appended when no entry triggered. */
  function AddPair(v: seq<Interval>, p: Interval): seq<Interval>
  {
    var w := MergeAll(v, p);
    if AnyTriggers(v, p) then w else w + [p]
  }

  /** All the pairs of a list of tags processed in order. */
  function AddTags(v: seq<Interval>, tags: seq<Tag>): seq<Interval>
    decreases |tags|
  {
    if tags == [] then v
    else AddPair(AddTags(v, tags[..|tags| - 1]), PairOf(tags[|tags| - 1]))
  }

  // ---------------------------------------------------------------------------
  // Sorting with operator<

  /** Insertion of x in front of the first element that is not below it. */
  function Insert(x: Interval, s: seq<Interval>): seq<Interval>
  {
    if s == [] then [x]
    else if Less(s[0], x) then [s[0]] + Insert(x, s[1..])
    else [x] + s
  }

  /** A sort by operator<, standing in for std::sort. */
  function SortLess(s: seq<Interval>): seq<Interval>
  {
    if s == [] then [] else Insert(s[0], SortLess(s[1..]))
  }

  predicate SortedByLow(s: seq<Interval>)
  {
    forall i, j :: 0 <= i < j < |s| ==> s[i].low < s[j].low
  }

  predicate PairwiseDisjoint(s: seq<Interval>)
  {
    forall i, j :: 0 <= i < |s| && 0 <= j < |s| && i != j ==> Disjoint(s[i], s[j])
  }

  lemma {:induction false} InsertPermutation(x: Interval, s: seq<Interval>)
    ensures multiset(Insert(x, s)) == multiset(s) + multiset{x}
  {
    if s != [] && Less(s[0], x) {
      InsertPermutation(x, s[1..]);
      assert s == [s[0]] + s[1..];
    }
  }

  /** The sort rearranges the entries and neither drops nor adds one. */
  lemma {:induction false} SortLessPermutation(s: seq<Interval>)
    ensures multiset(SortLess(s)) == multiset(s)
  {
    if s != [] {
      SortLessPermutation(s[1..]);
      InsertPermutation(s[0], SortLess(s[1..]));
      assert s == [s[0]] + s[1..];
    }
  }

  /** Every element of an insertion is the inserted one or an old one. */
  lemma {:induction false} InsertElements(x: Interval, s: seq<Interval>)
    ensures forall y :: y in Insert(x, s) ==> y == x || y in s
  {
    if s != [] && Less(s[0], x) {
      InsertElements(x, s[1..]);
    }
  }

  lemma SortedCons(a: Interval, r: seq<Interval>)
    requires SortedByLow(r)
    requires forall k :: 0 <= k < |r| ==> a.low < r[k].low
    ensures SortedByLow([a] + r)
  {
    var u := [a] + r;
    forall i, j | 0 <= i < j < |u|
      ensures u[i].low < u[j].low
    {
      assert u[j] == r[j - 1];
      if i > 0 {
        assert u[i] == r[i - 1];
      }
    }
  }

  lemma {:induction false} InsertSorted(x: Interval, s: seq<Interval>)
    requires Normalised(x) && AllNormalised(s) && SortedByLow(s)
    requires forall k :: 0 <= k < |s| ==> Disjoint(x, s[k])
    ensures SortedByLow(Insert(x, s))
  {
    if s != [] {
      LessTotalOnDisjoint(x, s[0]);
      var t := s[1..];
      if Less(s[0], x) {
        InsertSorted(x, t);
        InsertElements(x, t);
        var r := Insert(x, t);
        forall k | 0 <= k < |r|
          ensures s[0].low < r[k].low
        {
          assert r[k] in r;
          if r[k] != x {
            var m :| 0 <= m < |t| && t[m] == r[k];
            assert s[m + 1] == r[k];
          }
        }
        SortedCons(s[0], r);
      } else {
        SortedCons(x, s);
      }
    }
  }

  /**
   * On pairwise-disjoint normalised entries operator< orders by the lower bound,
   * and the sort leaves the entries ascending by low.
   */
  lemma {:induction false} SortLessAscending(s: seq<Interval>)
    requires AllNormalised(s) && PairwiseDisjoint(s)
    ensures SortedByLow(SortLess(s))
  {
    if s != [] {
      var t := s[1..];
      assert PairwiseDisjoint(t) by {
        forall i, j | 0 <= i < |t| && 0 <= j < |t| && i != j
          ensures Disjoint(t[i], t[j])
        {
          assert t[i] == s[i + 1] && t[j] == s[j + 1];
        }
      }
      SortLessAscending(t);
      var r := SortLess(t);
      SortLessPermutation(t);
      forall k | 0 <= k < |r|
        ensures Disjoint(s[0], r[k]) && Normalised(r[k])
      {
        assert r[k] in multiset(t);
        var m :| 0 <= m < |t| && t[m] == r[k];
        assert s[m + 1] == r[k];
      }
      InsertSorted(s[0], r);
    }
  }

  /** The sort keeps every entry normalised. */
  lemma SortLessNormalised(s: seq<Interval>)
    requires AllNormalised(s)
    ensures AllNormalised(SortLess(s))
  {
    var r := SortLess(s);
    SortLessPermutation(s);
    forall k | 0 <= k < |r|
      ensures Normalised(r[k])
    {
      assert r[k] in multiset(s);
    }
  }

  // ---------------------------------------------------------------------------
  // Properties of one merge

  /** Merging only widens: a stored low never increases and a stored high never decreases. */
  lemma AddPairWidens(v: seq<Interval>, p: Interval)
    ensures |AddPair(v, p)| >= |v|
    ensures forall j :: 0 <= j < |v| ==>
              AddPair(v, p)[j].low <= v[j].low && AddPair(v, p)[j].high >= v[j].high
  {}

  /** An entry none of whose merge branches fire is left as it was. */
  lemma AddPairUntouched(v: seq<Interval>, p: Interval, j: nat)
    requires j < |v| && !Triggers(v[j], p)
    ensures AddPair(v, p)[j] == v[j]
  {}

  /** Stored intervals keep low <= high. */
  lemma AddPairNormalised(v: seq<Interval>, p: Interval)
    requires AllNormalised(v) && Normalised(p)
    ensures AllNormalised(AddPair(v, p))
  {}

  /** The collection grows by at most one, and by exactly one iff no entry triggered a merge. */
  lemma AddPairGrowth(v: seq<Interval>, p: Interval)
    ensures |AddPair(v, p)| == |v| || |AddPair(v, p)| == |v| + 1
    ensures |AddPair(v, p)| == |v| + 1 <==> !AnyTriggers(v, p)
    ensures !AnyTriggers(v, p) ==> AddPair(v, p) == v + [p]
  {
    if !AnyTriggers(v, p) {
      assert MergeAll(v, p) == v;
    }
  }

  /** After a pair is processed, some stored interval holds the whole pair. */
  lemma AddPairCovers(v: seq<Interval>, p: Interval) returns (k: nat)
    ensures k < |AddPair(v, p)| && Covers(AddPair(v, p)[k], p)
  {
    if AnyTriggers(v, p) {
      var j :| 0 <= j < |v| && Triggers(v[j], p);
      k := j;
    } else {
      k := |v|;
    }
  }

  /**
   * A pair ending exactly at an entry's low bound and starting below it shares
   * that one point with the entry, yet the entry is left alone.
   */
  lemma AddPairTouchingLow(v: seq<Interval>, p: Interval, j: nat)
    requires j < |v| && Normalised(v[j])
    requires p.low < v[j].low && p.high == v[j].low
    ensures !Triggers(v[j], p)
    ensures AddPair(v, p)[j] == v[j]
  {}

  /** A pair starting exactly at an entry's high bound does extend the entry. */
  lemma AddPairTouchingHigh(v: seq<Interval>, p: Interval, j: nat)
    requires j < |v| && Normalised(v[j]) && Normalised(p)
    requires p.low == v[j].high
    ensures Triggers(v[j], p)
    ensures AddPair(v, p)[j] == Interval(v[j].low, p.high)
  {}

  /**
   * The last entry after merging and sorting need not carry the largest high
   * bound: the pairs [30,40], [10,20], [0,35] of one tag leave [0,40] before
   * [0,35], and operator< orders neither before the other.
   */
  lemma LastHighNotLargest()
    ensures SortLess(AddPair(AddPair(AddPair([], Interval(30, 40)), Interval(10, 20)), Interval(0, 35)))
            == [Interval(0, 40), Interval(0, 35)]
  {
    var v1 := AddPair([], Interval(30, 40));
    assert v1 == [Interval(30, 40)];
    var v2 := AddPair(v1, Interval(10, 20));
    assert !Triggers(v1[0], Interval(10, 20));
    assert v2 == [Interval(30, 40), Interval(10, 20)];
    var v3 := AddPair(v2, Interval(0, 35));
    assert Triggers(v2[0], Interval(0, 35));
    assert v3 == [Interval(0, 40), Interval(0, 35)];
    assert SortLess([Interval(0, 35)]) == [Interval(0, 35)];
    assert !Less(Interval(0, 35), Interval(0, 40));
  }

  /**
   * One pair can widen several entries; they then coincide but stay separate
   * entries: [2,3] and [5,6] merged with [1,10] give [1,10] twice.
   */
  lemma AddPairWidensSeveral()
    ensures AddPair([Interval(2, 3), Interval(5, 6)], Interval(1, 10))
            == [Interval(1, 10), Interval(1, 10)]
  {
    var v := [Interval(2, 3), Interval(5, 6)];
    assert Triggers(v[0], Interval(1, 10));
  }

  /** A run of tags adds at most one entry per tag and keeps every entry normalised. */
  lemma {:induction false} AddTagsBounds(v: seq<Interval>, tags: seq<Tag>)
    requires AllNormalised(v)
    ensures |v| <= |AddTags(v, tags)| <= |v| + |tags|
    ensures AllNormalised(AddTags(v, tags))
  {
    if tags != [] {
      var w := AddTags(v, tags[..|tags| - 1]);
      AddTagsBounds(v, tags[..|tags| - 1]);
      AddPairGrowth(w, PairOf(tags[|tags| - 1]));
      AddPairNormalised(w, PairOf(tags[|tags| - 1]));
    }
  }

  // ---------------------------------------------------------------------------
  // Output over the parsed document

  /** Every top-level tag named "intervals", in order, has its children processed and the result sorted. */
  function OutputSpec(v: seq<Interval>, roots: seq<Tag>): seq<Interval>
    decreases |roots|
  {
    if roots == [] then v
    else
      var w := OutputSpec(v, roots[..|roots| - 1]);
      var t := roots[|roots| - 1];
      if t.name == INTERVALS_TAG_NAME then SortLess(AddTags(w, t.children)) else w
  }

  /** The tags are handled in order: processing a + b is processing a and then b. */
  lemma {:induction false} OutputSpecSplit(v: seq<Interval>, a: seq<Tag>, b: seq<Tag>)
    ensures OutputSpec(v, a + b) == OutputSpec(OutputSpec(v, a), b)
    decreases |b|
  {
    if b == [] {
      assert a + b == a;
    } else {
      var b' := b[..|b| - 1];
      OutputSpecSplit(v, a, b');
      assert (a + b)[..|a + b| - 1] == a + b';
      assert (a + b)[|a + b| - 1] == b[|b| - 1];
    }
  }

  /** Tags with any other name are skipped. */
  lemma {:induction false} OutputSpecSkips(v: seq<Interval>, roots: seq<Tag>)
    requires forall i :: 0 <= i < |roots| ==> roots[i].name != INTERVALS_TAG_NAME
    ensures OutputSpec(v, roots) == v
    decreases |roots|
  {
    if roots != [] {
      OutputSpecSkips(v, roots[..|roots| - 1]);
    }
  }

  /** Processing the document keeps every stored interval normalised. */
  lemma {:induction false} OutputSpecNormalised(v: seq<Interval>, roots: seq<Tag>)
    requires AllNormalised(v)
    ensures AllNormalised(OutputSpec(v, roots))
    decreases |roots|
  {
    if roots != [] {
      var w := OutputSpec(v, roots[..|roots| - 1]);
      OutputSpecNormalised(v, roots[..|roots| - 1]);
      var t := roots[|roots| - 1];
      if t.name == INTERVALS_TAG_NAME {
        AddTagsBounds(w, t.children);
        SortLessNormalised(AddTags(w, t.children));
      }
    }
  }

  lemma OutputSpecPrefix(v: seq<Interval>, roots: seq<Tag>, a: nat, b: nat)
    requires a <= b <= |roots|
    requires forall i :: a <= i < b ==> roots[i].name != INTERVALS_TAG_NAME
    ensures OutputSpec(v, roots[..b]) == OutputSpec(v, roots[..a])
  {
    assert roots[..b] == roots[..a] + roots[a..b];
    OutputSpecSplit(v, roots[..a], roots[a..b]);
    OutputSpecSkips(OutputSpec(v, roots[..a]), roots[a..b]);
  }

  lemma OutputSpecStep(v: seq<Interval>, roots: seq<Tag>, n: nat)
    requires 0 < n <= |roots| && roots[n - 1].name == INTERVALS_TAG_NAME
    ensures OutputSpec(v, roots[..n]) == SortLess(AddTags(OutputSpec(v, roots[..n - 1]), roots[n - 1].children))
  {
    assert roots[..n][..n - 1] == roots[..n - 1];
  }

  /** The output strategy; the vector it fills is the intervals field. */
  class IntervalsOutput {
    var intervals: seq<Interval>

    constructor (initial: seq<Interval>)
      ensures intervals == initial
    {
      intervals := initial;
    }

    /** getIntervals: merge the pair of every tag in order, then sort. */
    method GetIntervals(tags: seq<Tag>)
      modifies this
      ensures intervals == SortLess(AddTags(old(intervals), tags))
    {
      var i := 0;
      while i < |tags|
        invariant 0 <= i <= |tags|
        invariant intervals == AddTags(old(intervals), tags[..i])
      {
        assert tags[..i + 1][..i] == tags[..i];
        var lowTag := GetChild(tags[i], "low");
        var highTag := GetChild(tags[i], "high");
        var lo, hi := GetValue(lowTag), GetValue(highTag);
        if lo > hi {
          var tmp := lo;
          lo := hi;
          hi := tmp;
        }
        assert Interval(lo, hi) == PairOf(tags[i]);
        MergePair(lo, hi);
        i := i + 1;
      }
      assert tags[..|tags|] == tags;
      intervals := SortLess(intervals);
    }

    /** The body of the outer loop of getIntervals for one normalised pair: widen, or else append. */
    method MergePair(lo: u32, hi: u32)
      modifies this
      ensures intervals == AddPair(old(intervals), Interval(lo, hi))
    {
      ghost var p := Interval(lo, hi);
      ghost var v := intervals;
      var fAdd := true;
      var j := 0;
      var q := |intervals|;
      while j < q
        invariant 0 <= j <= q == |intervals| == |v|
        invariant forall k :: 0 <= k < j ==> intervals[k] == Widen(v[k], p)
        invariant forall k :: j <= k < q ==> intervals[k] == v[k]
        invariant fAdd <==> forall k :: 0 <= k < j ==> !Triggers(v[k], p)
      {
        var e := intervals[j];
        if lo < e.low {
          if hi > e.high {
            intervals := intervals[j := Interval(lo, hi)];
            fAdd := false;
          } else if hi > e.low {
            intervals := intervals[j := Interval(lo, e.high)];
            fAdd := false;
          }
        } else if lo <= e.high {
          if hi > e.high {
            intervals := intervals[j := Interval(e.low, hi)];
          }
          fAdd := false;
        }
        j := j + 1;
      }
      assert intervals == MergeAll(v, p);
      if fAdd {
        intervals := intervals + [Interval(lo, hi)];
      }
    }

    /** output: every top-level "intervals" tag of the document, found with getTag until EMPTY_TAG. */
    method Output(doc: ReadXml)
      modifies this
      ensures intervals == OutputSpec(old(intervals), doc.tags)
    {
      ghost var v := intervals;
      ghost var roots := doc.tags;
      var tag, pos := GetTag(doc, 0, INTERVALS_TAG_NAME);
      NoMatchSkips(v, roots, 0, tag, pos);
      while tag.name != EMPTY_TAG_NAME
        invariant pos <= |roots|
        invariant tag.name == INTERVALS_TAG_NAME || tag == EmptyTag()
        invariant tag.name == INTERVALS_TAG_NAME ==>
                    0 < pos && tag == roots[pos - 1] && intervals == OutputSpec(v, roots[..pos - 1])
        invariant tag == EmptyTag() ==> intervals == OutputSpec(v, roots)
        decreases |roots| - pos + (if tag.name == EMPTY_TAG_NAME then 0 else 1)
      {
        OutputSpecStep(v, roots, pos);
        GetIntervals(tag.children);
        var pos' := pos;
        tag, pos := GetTag(doc, pos, INTERVALS_TAG_NAME);
        NoMatchSkips(v, roots, pos', tag, pos);
      }
    }
  }

  /** What GetTag's result says about the tags it passed over. */
  lemma NoMatchSkips(v: seq<Interval>, roots: seq<Tag>, from: nat, tag: Tag, pos: nat)
    requires from <= |roots|
    requires (exists i :: from <= i < |roots| && roots[i].name == INTERVALS_TAG_NAME) ==>
               from < pos <= |roots| && tag == roots[pos - 1] && tag.name == INTERVALS_TAG_NAME
               && forall i :: from <= i < pos - 1 ==> roots[i].name != INTERVALS_TAG_NAME
    requires (forall i :: from <= i < |roots| ==> roots[i].name != INTERVALS_TAG_NAME) ==>
               tag == EmptyTag() && pos == Max(from, |roots|)
    ensures pos <= |roots|
    ensures tag.name == INTERVALS_TAG_NAME || tag == EmptyTag()
    ensures tag.name == INTERVALS_TAG_NAME ==>
              from < pos && tag == roots[pos - 1] && OutputSpec(v, roots[..pos - 1]) == OutputSpec(v, roots[..from])
    ensures tag == EmptyTag() ==> OutputSpec(v, roots) == OutputSpec(v, roots[..from])
  {
    if exists i :: from <= i < |roots| && roots[i].name == INTERVALS_TAG_NAME {
      OutputSpecPrefix(v, roots, from, pos - 1);
    } else {
      OutputSpecPrefix(v, roots, from, |roots|);
      assert roots[..|roots|] == roots;
    }
  }
}
