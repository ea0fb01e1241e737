# Finding prime numbers from an XML-given set of ranges

This project is a Dafny model of the core of FindingPrimeNumbersFromXmlSetRange, a C++ program with three parts:

- a small ad-hoc tag reader takes a text of the form `<intervals><interval><low> 10 </low><high> 200 </high></interval>…</intervals>`;
- an interval collector normalises, merges and sorts the ranges it reads;
- a wheel-factorised Eratosthenes sieve marks composite numbers in a shared `bool` array and exposes the result through a read-only adapter.

The model keeps the program's structure. Each of its files models one source file:

| Dafny file | module | models |
|---|---|---|
| Common.dfy | `Common` | shared definitions: the `uint32_t` range, 32-bit unsigned subtraction, an integer square root, primality |
| Interval.dfy | `Intervals` | `interval.hpp`: the `Interval` record and its `operator<` |
| Tag.dfy | `Tags` | `tag.cpp`: a tag with a name, children and a decimal value |
| ReadXml.dfy | `Xml` | `readxml.cpp`: the tokenizer (`nextTag`, `findTag`, `getContents`), the stack-based `parseXml`, `getTag` and `findData` |
| IntervalsOutput.dfy | `Merge` | `intervalsoutput.cpp`: `getIntervals` and `output` |
| PrimeNumFunc.dfy | `Worker` | `primenumfunc.cpp`: one sieving worker over the shared bitmap |
| PrimeNumbersVector.dfy | `Adapter` | `primenumbersvector.cpp`: the position-to-number adapter |
| FindPrimes.dfy | `Wheel` | `findprimes.cpp`: the tuning table, the small primes, the primorial, the wheel spokes, their slicing per thread, and the constructor that runs it all |

## Modelling choices

**Integers.** Integers are unbounded. The source's `uint32_t` is the subtype `u32`, and its `size_t` is `usize`, which has `npos = 2^64 - 1`. Two kinds of wrap-around are written out:

- `Sub32` is the unsigned subtraction in the worker's spoke test;
- `WheelNumber` and `Product32` wrap the adapter's and the primorial's 32-bit products.

The engine requires the interval bounds to lie below `2^32 - 2^24`. Below that, the worker's increments `j += p` and `j += p * primor` cannot wrap.

**Workers.** The worker never reads the bitmap and only ever stores `true`. Its effect is therefore described as a set of marked indices (`ApplyMarks`). The threads are run one after another; `WorkersOrderFree` and `ApplyMarksIdempotent` show that neither the order nor a repetition changes the result.

**The tag reader.** The reader works on a `string` already in memory.

- `parseXml`'s position and begin flag form a `Cursor`.
- Its stack is the depth of the open path in the tag forest. Each open path runs along the last children, from the last root down.
- Tags are values. The `shared_ptr` sharing between the stack and the tree is replaced by rebuilding the path (`AppendAt`, `ReplaceTop`).
- `std::string::substr` with a start past the end throws in C++; here it is the error `SubstrOutOfRange`.
- `strToInt`'s `int` overflow is undefined behaviour in C++; here it is the error `IntOverflow`, which the parser passes on as `ValueOverflow`.

**Exceptions.** The exceptions `OutOfRange` and `AddressNotExist` become `Failure` results. `exit(1)` in the tuning table becomes `None`, which the constructor's precondition excludes.

**The sort.** `std::sort` is replaced by an insertion sort using the same `operator<`. Only what holds for any sort is proved about it: it returns a permutation, and it is ascending by `low` when the entries are pairwise disjoint. `operator<` is not a strict weak ordering on overlapping intervals (`LessNotStrictWeak`), so nothing more can be promised.

**Square roots.** `sqrtf` is replaced by the integer floor square root `ISqrt`.

**Soundness.** The model does not claim that every number `at` reports is prime. Marking stops below each interval's `high`, while `at` accepts `high` itself. What is proved instead is that every marked index is a proper multiple of a sieving prime, lies inside an interval it was marked for, and passes the unsigned spoke test for one of the worker's spokes (`WorkerMarksMember`, `HitMarksMember`).

## Model

| member | source | states |
|---|---|---|
| Common.Sub32 | primenumfunc.cpp:74 | unsigned 32-bit subtraction: `a - b`, plus `2^32` when `b > a` |
| Common.ISqrt | findprimes.cpp:121 | the integer square root that stands for `sqrtf`: `r*r <= n < (r+1)*(r+1)` |
| Common.ISqrtUnique | findprimes.cpp:121 | any `r` with `r*r <= n < (r+1)^2` is `ISqrt(n)` |
| Common.SmallestDivisorIsPrime | findprimes.cpp:129-138 | the smallest divisor `>= 2` of `n` is prime; this is why trial division by primes suffices |
| Common.SmallestDivisorSquare | findprimes.cpp:129-138 | a composite `n` has its smallest divisor `d` with `d*d <= n`; this is why trial division may stop at the square root |
| Intervals.MakeInterval | interval.hpp:21 | the two-argument constructor stores low and high as given |
| Intervals.DefaultInterval | interval.hpp:22 | the default constructor sets both bounds to 0 |
| Intervals.LessIrreflexive | interval.hpp:24-27 | `!(a < a)` |
| Intervals.LessAsymmetric | interval.hpp:24-27 | `a < b` excludes `b < a` |
| Intervals.LessTransitive | interval.hpp:24-27 | `a < b` and `b < c` give `a < c` |
| Intervals.LessTotalOnDisjoint | interval.hpp:24-27 | on disjoint intervals with `low <= high`, `<` is total and agrees with ordering by `low` |
| Intervals.LessNotStrictWeak | interval.hpp:24-27 | on overlapping intervals, incomparability is not transitive: a concrete triple |
| Tags.NewTag | tag.cpp:18 | the default tag is named `" "`, has no children and has value 0 |
| Tags.NamedTag | tag.cpp:24 | a named tag has the given name, no children and value 0 |
| Tags.AddTag | tag.cpp:46-49 | `addTag` keeps the name and value and adds exactly one child |
| Tags.AddTagAppends | tag.cpp:46-49 | the new child is last and the earlier children are unchanged |
| Tags.AddTagOrder | tag.cpp:46-49 | two `addTag` calls leave the children in insertion order |
| Tags.IndexOfName | tag.cpp:59-63 | the index found is the first at or after `from` carrying the name, or the end |
| Tags.IndexOfNameFirst | tag.cpp:59-63 | a first match at `i` is exactly what the search finds |
| Tags.IndexOfNameNone | tag.cpp:59-65 | without a match the search ends at the child count |
| Tags.GetTagFrom | tag.cpp:57-66 | `getTag(pos, name)`: the first match at index `>= pos`, with `pos` one past it; with no match, `EMPTY_TAG` and `pos` at the end |
| Tags.GetChild | tag.cpp:73-83 | `getTag(name)`: the first child with the name, else the `EMPTY_TAG` tag with value 0 |
| Tags.StrToInt | tag.cpp:110-114 | the loop over the digits from the right with place value `j`; it fails when `j` or a term overflows `int`, and otherwise adds the terms modulo `2^32` |
| Tags.AccumulateStep | tag.cpp:112-113 | one loop step adds the next left digit's term to the running value |
| Tags.Pow10Range | tag.cpp:112 | the place value `10^k` fits in `int` iff `k <= 9` |
| Tags.StrToIntFresh | tag.cpp:110-114 | on a fresh tag, a string of at most 9 digits gives its decimal value |
| Tags.StrToIntTwice | tag.cpp:100-114 | values accumulate: two calls give the sum of the two decimal values, modulo `2^32` |
| Tags.SetValue | tag.cpp:100-103 | `setValue` changes only the value, to what `strToInt` computes, or reports the overflow |
| Tags.DecimalValueBounds | tag.cpp:110-114 | a digit string of length `k` has a value below `10^k` |
| Tags.DecimalRoundTrip | tag.cpp:110-114 | reading back the decimal digits of any `n` gives `n` |
| Xml.IsDelimMembership | readxml.h:57 | the delimiter test is membership in `<>,./ \n\t\r'"` |
| Xml.Find | readxml.cpp:97-98 | `find(c, from)`: the first index `>= from` holding `c`, else npos |
| Xml.FindFirstNotOf | readxml.cpp:117 | the first non-delimiter at or after `from`, else npos |
| Xml.FindLastNotOf | readxml.cpp:118 | the last non-delimiter at or before `pos`, else npos |
| Xml.Substr | readxml.cpp:120 | `substr(pos, count)` fails iff `pos` is past the end; otherwise it returns the `min(count, size - pos)` characters from `pos` |
| Xml.NextTag | readxml.cpp:93-121 | a new position is npos, or it is past the old one and holds `'>'` |
| Xml.NextTagNoTag | readxml.cpp:97-104 | the position becomes npos, and nothing else changes, iff no `'<'` follows or no `'>'` follows it |
| Xml.NextTagKind | readxml.cpp:106-120 | the position becomes the `'>'`; the begin flag is true iff no `'/'` lies between `'<'` and `'>'`; the call fails iff only delimiters remain from the `'<'` on, so `substr` starts at npos |
| Xml.NextTagToken | readxml.cpp:117-120 | when a non-delimiter lies between `'<'` and `'>'`, the token is the trimmed text between them and has no delimiter at either end |
| Xml.SlashSearch | readxml.cpp:106-107 | the `'/'` search decides "no slash inside the brackets" |
| Xml.TokenBounds | readxml.cpp:117-120 | the trimmed bounds lie strictly inside the brackets, and their length does not wrap |
| Xml.FindTagFromFirst | readxml.cpp:140-143 | `findTag`'s loop stops at the first tag whose name and kind match, having passed only non-matching ones |
| Xml.FindTagFromFound | readxml.cpp:140-143 | a tag `findTag` stops at matches the wanted name and kind |
| Xml.FindTag | readxml.cpp:130-144 | the loop computes the recursive search; an npos start is left unchanged; any other result is a `'>'` past the start |
| Xml.GetContentsNone | readxml.cpp:157-163 | no content when there is no `'<'` or when it immediately follows |
| Xml.GetContentsText | readxml.cpp:165-171 | with a non-delimiter before the next `'<'`, the content is that text, trimmed |
| Xml.GetContentsBlank | readxml.cpp:165-174 | delimiters only before the next `'<'`, with text earlier in the file, give no content |
| Xml.ContentBounds | readxml.cpp:165-168 | the trimmed bounds of the content lie between `pos+1` and the `'<'` |
| Xml.GetContentsRunsOn | readxml.cpp:157-171 | when the text holds only delimiters up to the next `'<'`, including the part before the start, the content runs from the first non-delimiter after that `'<'` to the end of the text; with none there, `substr` throws |
| Xml.GetContentsLeadingDelimiters | readxml.cpp:165-171 | an instance of the run-on: in `"<> <a"` from position 1, the content is `"a"`, read from inside the next tag |
| Xml.AppendAt | readxml.cpp:223-225 | a child added to the open tag at depth `d` becomes the new top, and everything before it is kept |
| Xml.ReplaceTop | readxml.cpp:230 | the top of the open path is replaced in place in the tree |
| Xml.ReplaceTopBelow | readxml.cpp:230 | replacing the top changes only the last child of its parent |
| Xml.Step | readxml.cpp:212-236 | one loop iteration keeps the open path well formed and moves the position to `nextTag`'s |
| Xml.StepRoot | readxml.cpp:216-219 | a begin tag on an empty stack becomes a new root |
| Xml.StepChild | readxml.cpp:221-226 | a begin tag on a non-empty stack is appended to the children of the stack top and pushed |
| Xml.StepContents | readxml.cpp:228-231 | a new tag's content, when present, becomes its value and the current token |
| Xml.StepOpens | readxml.cpp:214-231 | a begin tag with no content only opens the tag; a failing `getContents` is the step's error |
| Xml.StepOpensWithContents | readxml.cpp:228-231 | content becomes the value through `setValue`; an overflow is the step's error |
| Xml.StepEnd | readxml.cpp:233-236 | an end tag pops the stack and is ignored on an empty one |
| Xml.StepCloses | readxml.cpp:233-236 | the exact state after an end tag |
| Xml.StepFails | readxml.cpp:212 | a failing `nextTag` fails the step |
| Xml.StepKeepsClosed | readxml.cpp:212-236 | roots that are already complete are never changed again |
| Xml.ParseLoopKeepsClosed | readxml.cpp:210-237 | the whole loop keeps every complete root |
| Xml.ParseStep | readxml.cpp:212-236 | the imperative loop body computes `Step` |
| Xml.OpenTag | readxml.cpp:214-231 | the begin-tag branch computes `Step` |
| Xml.FindAddress | readxml.cpp:190-196 | the address walk computes `AddressPos`: `findTag` for each name in turn, each from where the previous one stopped |
| Xml.ParseXml | readxml.cpp:182-238 | the method (the address walk, the start without an address, the stack loop) computes `ParseSpec` |
| Xml.GetTag | readxml.cpp:246-257 | `getTag(pos, name)` over the roots: the first match at or after `pos`, with `pos` one past it; else `EMPTY_TAG` |
| Xml.FindData | readxml.cpp:264-294 | it fails with `AddressNotExist` iff no root has the first name, and fails in no other way; otherwise it returns the value at the end of the first-child path, which is 0 when a deeper name is missing |
| Xml.DescendEmpty | readxml.cpp:280-291 | once a name is missing, every deeper step stays on `EMPTY_TAG` |
| Xml.DescendMissing | readxml.cpp:280-293 | a missing deeper name yields value 0, not an exception |
| Merge.Normalise | intervalsoutput.cpp:56-61 | a reversed pair is swapped, so `low <= high`; the bounds are the same two values |
| Merge.PairOf | intervalsoutput.cpp:53-61 | the pair read from a tag's first `low` and first `high` children is normalised |
| Merge.MergeAll | intervalsoutput.cpp:63-87 | entry by entry: the low bound never rises and the high bound never falls; an entry no branch fires for is kept; normalised entries stay normalised, and one a branch fires for ends up as the hull of itself and the pair |
| Merge.AddPairWidens | intervalsoutput.cpp:63-87 | merging only widens: no stored `low` rises and no stored `high` falls |
| Merge.AddPairUntouched | intervalsoutput.cpp:63-87 | an entry that triggers no branch is unchanged |
| Merge.AddPairNormalised | intervalsoutput.cpp:63-87 | every stored interval keeps `low <= high` |
| Merge.AddPairGrowth | intervalsoutput.cpp:89-96 | the vector grows by at most one, by exactly one iff no entry triggered, and then by the pair itself |
| Merge.AddPairCovers | intervalsoutput.cpp:63-92 | after a pair, some stored interval contains the whole pair |
| Merge.AddPairTouchingLow | intervalsoutput.cpp:65-77 | a pair ending exactly at an entry's `low` (from below) is not merged with it |
| Merge.AddPairTouchingHigh | intervalsoutput.cpp:79-85 | a pair starting exactly at an entry's `high` is merged with it |
| Merge.LastHighNotLargest | intervalsoutput.cpp:63-98 | the pairs `[30,40]`, `[10,20]`, `[0,35]`, merged in turn and sorted, give `[0,40]` before `[0,35]`: the last entry need not carry the largest high bound |
| Merge.AddPairWidensSeveral | intervalsoutput.cpp:63-87 | one pair widens two entries and leaves them as two equal entries |
| Merge.AddTagsBounds | intervalsoutput.cpp:51-97 | after `n` pairs the vector has grown by at most `n`, and every entry is normalised |
| Merge.InsertPermutation | intervalsoutput.cpp:98 | one insertion step adds exactly the element |
| Merge.SortLessPermutation | intervalsoutput.cpp:98 | the sort is a permutation |
| Merge.InsertElements | intervalsoutput.cpp:98 | an insertion introduces no other element |
| Merge.SortedCons | intervalsoutput.cpp:98 | prepending a smaller `low` keeps the order |
| Merge.InsertSorted | intervalsoutput.cpp:98 | inserting a disjoint interval keeps the order by `low` |
| Merge.SortLessAscending | intervalsoutput.cpp:98 | on pairwise disjoint normalised entries, the sort orders by `low` |
| Merge.SortLessNormalised | intervalsoutput.cpp:98 | sorting keeps every entry normalised |
| Merge.OutputSpecSplit | intervalsoutput.cpp:35-38 | the tags are processed in order: a concatenation is processed piecewise |
| Merge.OutputSpecSkips | intervalsoutput.cpp:35 | roots not named `intervals` contribute nothing |
| Merge.OutputSpecNormalised | intervalsoutput.cpp:35-38 | output keeps every stored interval normalised |
| Merge.OutputSpecPrefix | intervalsoutput.cpp:35 | skipping non-matching roots leaves the result unchanged |
| Merge.OutputSpecStep | intervalsoutput.cpp:35-38 | each matching root adds its children's pairs, then sorts |
| Merge.NoMatchSkips | intervalsoutput.cpp:35 | what one `getTag` call says about the roots it passed over |
| Merge.IntervalsOutput.constructor | intervalsoutput.cpp:19 | the collector starts from the given vector |
| Merge.IntervalsOutput.MergePair | intervalsoutput.cpp:63-96 | the in-place loop and the `fAdd` flag compute `AddPair` |
| Merge.IntervalsOutput.GetIntervals | intervalsoutput.cpp:46-99 | the vector becomes the sorted result of merging every pair in order |
| Merge.IntervalsOutput.Output | intervalsoutput.cpp:31-39 | every top-level `intervals` tag is processed in order, until `EMPTY_TAG` |
| Worker.ApplyMarksEmpty | primenumfunc.cpp:78 | no marks leave the bitmap unchanged |
| Worker.ApplyMarksUnion | primenumfunc.cpp:78 | marking `a` and then `b` is marking `a + b` |
| Worker.ApplyMarksStore | primenumfunc.cpp:78 | one store of `true`, followed by more marks, is a mark |
| Worker.ApplyMarksMonotone | primenumfunc.cpp:78 | marks never clear a cell and leave unmarked indices alone |
| Worker.ApplyMarksIdempotent | primenumfunc.cpp:72-79 | running the same marks twice equals running them once |
| Worker.ApplyMarksCommute | primenumfunc.cpp:72-79 | two workers give the same array in either order |
| Worker.UnionAllMembers | findprimes.cpp:246-258 | an index is marked by the run of all workers iff one worker marks it |
| Worker.ApplyAllUnion | findprimes.cpp:246-258 | running the workers one after another marks the union of their sets |
| Worker.WorkersOrderFree | findprimes.cpp:246-258 | any order and any repetition of the same workers gives the same array |
| Worker.StrideMember | primenumfunc.cpp:76-79 | the stride marks only `j0 + k*r` below `high` |
| Worker.FirstHitIsFirst | primenumfunc.cpp:72-75 | the walk by `p` stops at the first multiple that passes the unsigned spoke test |
| Worker.FirstHitNone | primenumfunc.cpp:72-82 | without a hit, no step of the walk passes the spoke test |
| Worker.StartBounds | primenumfunc.cpp:68 | the start `p*(1 + nBegin/p)` is the smallest multiple of `p` above `nBegin`, and it is `>= 2p` once `p <= nBegin` |
| Worker.HitMarksMember | primenumfunc.cpp:68-79 | a marked index is a multiple of `p` above `nBegin` and below `high`, and it is congruent to the spoke modulo the primorial, after the unsigned wrap when the hit lies below the spoke |
| Worker.SpokeTestWraps | primenumfunc.cpp:74 | the unsigned test accepts `j = 33` for spoke 79 with primorial 210, where the signed test would not |
| Worker.SpokesMarksMember | primenumfunc.cpp:70-83 | each index marked for a prime comes from one of the worker's spokes |
| Worker.PrimesMarksMember | primenumfunc.cpp:65-84 | each index marked for an interval comes from a prime at index `>= begPrimesNum` and from a spoke |
| Worker.NBeginGrows | primenumfunc.cpp:56-63 | `nBegin` never decreases: it becomes `max(nBegin, low)`, or is kept for a skipped interval |
| Worker.NBeginAtLeastStart | primenumfunc.cpp:49-63 | `nBegin` never falls below `isqrt` of the last interval's high |
| Worker.SmallIntervalSkipped | primenumfunc.cpp:56-59 | an interval with `high < isqrt(maxHigh)` marks nothing |
| Worker.WorkerMarksMember | primenumfunc.cpp:45-86 | every index a worker marks lies below its interval's `high` and above the scan start; it is a multiple of a sieving prime, and at least twice that prime when the prime is `<= isqrt(maxHigh)` |
| Worker.PrimeNumFunc.constructor | primenumfunc.cpp:25-33 | the fields are stored, and `numOfSpokes` is the spoke count |
| Worker.PrimeNumFunc.Run | primenumfunc.cpp:45-86 | `operator()` marks exactly the worker's mark set and nothing else |
| Worker.PrimeNumFunc.ScanInterval | primenumfunc.cpp:53-84 | one interval: its marks, and the next `nBegin` |
| Worker.PrimeNumFunc.MarkInterval | primenumfunc.cpp:65-84 | the loop over the sieving primes marks their union |
| Worker.PrimeNumFunc.MarkPrime | primenumfunc.cpp:67-83 | the loop over the spokes for one prime marks their union |
| Worker.PrimeNumFunc.MarkSpoke | primenumfunc.cpp:72-82 | the walk to the first hit, then the stride, marks exactly the hit set |
| Worker.PrimeNumFunc.MarkStride | primenumfunc.cpp:76-79 | the inner loop stores `true` at exactly the stride |
| Adapter.WheelNumberExact | primenumbersvector.cpp:91-93 | without wrap-around, the number at a wheel position is `cycle * primorial + spoke` |
| Adapter.WheelNumberDecodes | primenumbersvector.cpp:91-93 | with spokes below the primorial, the number gives back its cycle and its spoke |
| Adapter.WheelNumberInjective | primenumbersvector.cpp:91-93 | with ascending spokes, distinct positions give distinct numbers |
| Adapter.PrimeNumbersVector.constructor | primenumbersvector.cpp:26-39 | `numOfSpokes` is the spoke count, `max` is the last interval's high, and the size is stored |
| Adapter.PrimeNumbersVector.Candidate | primenumbersvector.cpp:91-99 | a wheel position yields its number when the cell is unmarked, else 0 |
| Adapter.PrimeNumbersVector.At | primenumbersvector.cpp:79-118 | `OutOfRange` iff `pos >= size()`; every value is 0 or lies in some interval; an initial-prime position yields that prime when it lies in an interval; a non-zero wheel value is the position's number and its cell is unmarked |
| Adapter.PrimeNumbersVector.AtReportsUnmarked | primenumbersvector.cpp:85-110 | an unmarked wheel number inside an interval is reported |
| Wheel.NumThreads | findprimes.cpp:71-75 | the thread count is `min(2*kernels, ranges)`, with `2*kernels` taken modulo `2^32` |
| Wheel.BegPrimesNum | findprimes.cpp:77-110 | the table exits iff there are 49 threads or more; otherwise it picks 2, 3 or 4 |
| Wheel.BegPrimesNumMonotone | findprimes.cpp:77-106 | for a fixed thread count, a larger maximum never picks fewer wheel primes |
| Wheel.BegPrimesNumThreadsNotMonotone | findprimes.cpp:77-102 | more threads can pick fewer wheel primes: for the same maximum, 2 threads pick 4 and 3 threads pick 3 |
| Wheel.BegPrimesNumNoThreads | findprimes.cpp:77-102 | zero threads fall into the middle row |
| Wheel.PrimesBelowExact | findprimes.cpp:127-151 | the list is exactly the primes below the limit, strictly ascending |
| Wheel.PrimesBelowBounds | findprimes.cpp:127 | every listed prime lies in `[2, limit)` |
| Wheel.TrialDivision | findprimes.cpp:129-139 | the inner loop decides primality: `fPrime` iff `i` is prime |
| Wheel.TrialDivisionComplete | findprimes.cpp:129-139 | no divisor among the listed primes up to `1 + isqrt(i)` means `i` is prime |
| Wheel.FindPrimesEnum | findprimes.cpp:118-153 | the list is the primes below `max(1 + isqrt(max), begPrimesNum)`; the largest wheel prime is `primes[begPrimesNum-1]` when enough primes were found, and otherwise keeps its previous value |
| Wheel.NextPrime | findprimes.cpp:127-147 | the next listed prime is the next prime |
| Wheel.AscendingOrder | findprimes.cpp:127-147 | in an ascending list, order of values is order of indices |
| Wheel.FirstPrimes | findprimes.cpp:127-147 | the first `b <= 4` listed primes are `2, 3, 5, 7` |
| Wheel.Product32Exact | findprimes.cpp:190 | without overflow, the 32-bit product is the exact product |
| Wheel.CountPrimorial | findprimes.cpp:186-192 | the primorial is the running 32-bit product of the first `begPrimesNum` primes |
| Wheel.PrimorialValues | findprimes.cpp:186-192 | from the initial 1 (findprimes.cpp line 24), the primorial is 6, 30 or 210, without overflow |
| Wheel.SpokesAboveExact | findprimes.cpp:172-178 | the spokes collected are exactly the numbers in `(nMin, primor)` with no factor `<= nMin`, ascending |
| Wheel.SpokesAboveLength | findprimes.cpp:172-178 | there are no more spokes than the primorial |
| Wheel.MarkedSelf | findprimes.cpp:162-171 | the sieve up to `i` has marked `i` iff `i` is composite |
| Wheel.MarkedStep | findprimes.cpp:162-171 | one outer step adds the multiples from `i*i` of a prime `i`, and nothing for a composite `i` |
| Wheel.MarkedRough | findprimes.cpp:162-178 | after the first loop, a number above `nMin` is marked iff it has a factor `<= nMin` |
| Wheel.MarkMultiples | findprimes.cpp:166-169 | the inner loop marks exactly the multiples of `i` from `i*i` |
| Wheel.NoMultipleBetween | findprimes.cpp:166 | the stride by `i` skips no multiple |
| Wheel.EratosthenesSieve | findprimes.cpp:160-179 | the cells hold the sieve up to `nMin`, and the spokes get exactly `SpokesAbove(nMin, primor)` appended |
| Wheel.SpokeCoprime | findprimes.cpp:160-179 | having no factor up to the largest wheel prime is being coprime to the first `b` primes, that is, to the primorial |
| Wheel.FindWheelSpokes | findprimes.cpp:199-221 | degenerate case: primorial 0 and no spokes; otherwise the primorial of `2, 3, 5, 7`, spoke 1 followed by the sieve's spokes, and an all-false bitmap of length `max(primor, max)` |
| Wheel.SliceBounds | findprimes.cpp:231-233 | slice `t` starts at `t*per` and ends at `(t+1)*per`, within the spokes |
| Wheel.SlicesDisjoint | findprimes.cpp:231-233 | slices of distinct threads do not overlap |
| Wheel.LeftoverSpokes | findprimes.cpp:231-233 | the last `numSpokes mod numThreads` spokes belong to no slice |
| Wheel.GetSpokes | findprimes.cpp:228-239 | `getSpokes(t)` is the contiguous slice `[t*per, (t+1)*per)` |
| Wheel.SharesDisjoint | findprimes.cpp:228-239 | with ascending spokes, no spoke is handed to two threads |
| Wheel.RunWorker | findprimes.cpp:250-251 | one thread's worker marks its share of the spokes |
| Wheel.MultyThreadPrimesSearching | findprimes.cpp:246-258 | the workers, run in sequence, leave the bitmap as the run of every thread's marks |
| Wheel.Configure | findprimes.cpp:59-111 | `inputDataProcessing` followed by `findWheelSpokes` (findprimes.cpp lines 199-221): the thread count, the table's choice, the primes, the largest wheel prime, the primorial (non-zero iff that prime is below the maximum), the spokes and the cleared bitmap |
| Wheel.SearchAndAdapt | findprimes.cpp:32-34 | the workers run over the cleared bitmap, and the adapter wraps it |
| Wheel.EngineWorkerInputs | findprimes.cpp:250 | the engine's state meets every worker's requirements |
| Wheel.MaxBegPrimeBelowMax | findprimes.cpp:139-146 | once `begPrimesNum` primes are found, the largest wheel prime is below the maximum, so `findWheelSpokes` (findprimes.cpp lines 203-207) takes the degenerate branch only with an uninitialised value |
| Wheel.EngineRejectsLastHighNotLargest | main.cpp:17-25 | the merged list `[0,40]`, `[0,35]` that the driver can hand to the engine falls outside the engine's precondition, for every core count: its first high 40 exceeds the bitmap's 35 cells |
| Wheel.EngineAcceptsHighWithinPrimorial | findprimes.cpp:210-220 | the intervals `[0,150]` and then eight times `[0,100]`, with 5 cores, meet the engine's precondition: the 210-cell bitmap holds an earlier high above the last |
| Wheel.FindPrimes.constructor | findprimes.cpp:20-36 | every field, as set by the constructor: the configuration, then either the degenerate state with primorial 0, no spokes, an empty bitmap and no adapter, or the searched bitmap and a valid adapter holding that bitmap, the intervals, primes, spokes, primorial, wheel size and adapter size |

## Left out

- Threads: `std::thread` creation and `join` (findprimes.cpp:246-258) are modelled as running the workers one after another. That is sound because a worker never reads the bitmap and only stores `true`. `hardware_concurrency` becomes the parameter `kernels`.
- `sqrtf` (findprimes.cpp:121 and 129, primenumfunc.cpp:49) is replaced by an exact integer square root. For large arguments, single-precision rounding can differ from it by one.
- `countEffectiveSize` (primenumbersvector.cpp:51-61) is a floating-point estimate. The adapter's size is a constructor input instead.
- File and console I/O are not part of this model: `readData` and its `exit(1)` (readxml.cpp:66-84), the console and file output strategies, and main.cpp. The reader works on a string already in memory.
- The virtual output strategies are not modelled, nor is manual memory management: `setOutput`, `output` and the `delete`s. The null adapter pointer of the degenerate case is `None`.
- `std::sort` internals: an insertion sort with the same `operator<` stands in for it, and only the permutation and the order by `low` on disjoint entries are claimed.
- `shared_ptr` aliasing between the parser's stack and the tag tree. Tags are values, and the open path is rebuilt instead.
- Characters are not bytes: the model's strings are sequences of `char`, with no encoding.
- Wheel.FindPrimes.constructor: it requires a non-empty interval list bounded below `2^32 - 2^24`, in which no interval's high exceeds the bitmap's length, the larger of the primorial and the last high (findprimes.cpp:68, 210, 216-219). A larger high would let the worker store past the end of the bitmap (primenumfunc.cpp:78). The merge can produce such a list (`Merge.LastHighNotLargest`, `Wheel.EngineRejectsLastHighNotLargest`), while an earlier high above the last one but within the primorial is admitted (`Wheel.EngineAcceptsHighWithinPrimorial`). With zero threads no worker runs, and the model still demands the bound, which the source then does not need. An empty list returns early in the source (findprimes.cpp:62-65) and leaves the maximum uninitialised. The bound keeps the worker's `j += p` and `j += p*primor` from wrapping.
- Wheel.FindPrimes.constructor: `exit(1)` for 49 threads or more is excluded by the precondition (`BegPrimesNum` returns `None` there).
- Wheel.FindPrimes.constructor: the largest wheel prime is left uninitialised when fewer than `begPrimesNum` primes are found (findprimes.cpp:143-146). Its value is the parameter `indeterminate`. The precondition admits that case only when the value reaches the maximum, so the degenerate branch is taken; otherwise `countPrimorial` would read past the primes found. With the primes found, the degenerate branch cannot be taken (`Wheel.MaxBegPrimeBelowMax`).
- Wheel.FindPrimes.constructor: in the degenerate case `numOfSpokes` is left at 0, where the source leaves it uninitialised.
- Worker.PrimeNumFunc.Run: the interval bounds must lie below `2^32 - 2^24`, and every `p*primor` below `2^24`, so that the marking loops do not wrap.
- Adapter.PrimeNumbersVector.At: the bitmap cell read at primenumbersvector.cpp:95 is unchecked in the source, so the model requires it to lie within the bitmap.
- Tags.StrToInt: the overflow of the `int` loop variables is undefined behaviour in C++. The model reports it as the error `IntOverflow` instead of predicting a value; the parser passes it on as `ValueOverflow`.
- Xml.FindData: an empty address reads `Address[0]` out of bounds in the source, so the model requires at least one name.

## Observations

These are behaviours of the code as written that a reader may not expect. Each names the members whose contracts state it.

- A pair that ends exactly at an entry's `low` is not merged with it, while a pair that starts at an entry's `high` is (`Merge.AddPairTouchingLow`, `Merge.AddPairTouchingHigh`). A pair covering several entries widens each of them, and they stay separate (`Merge.AddPairWidensSeveral`).
- `getContents` reads into the next tag when only delimiters lie before the next `'<'` and no other character occurs earlier in the text, such as right after the first tag of a document; when nothing but delimiters follows that `'<'`, `substr` throws (`Xml.GetContentsRunsOn`, `Xml.GetContentsLeadingDelimiters`). With any earlier non-delimiter, the same blank text gives no content (`Xml.GetContentsBlank`).
- `getIntervals` sorts the merged list by `low`, so its last entry need not have the largest `high`, yet the engine takes the last `high` as the maximum. For the pairs `[30,40]`, `[10,20]`, `[0,35]` the bitmap has 35 cells. With one core or more there are two threads and the wheel `2, 3`; the worker holding spoke 5 stores at index 35 (primenumfunc.cpp:78), one past the end. With zero cores no worker runs and nothing is stored (`Merge.LastHighNotLargest`, `Wheel.EngineRejectsLastHighNotLargest`).
- The degenerate branch of `findWheelSpokes`, with no wheel, is reachable only when the largest wheel prime was never assigned (`Wheel.MaxBegPrimeBelowMax`).
- The worker's unsigned spoke test also accepts numbers below the spoke, through the wrap (`Worker.SpokeTestWraps`, `Worker.HitMarksMember`).
- The tuning table is not monotone in the thread count (`Wheel.BegPrimesNumThreadsNotMonotone`).
- The thread count is 0 when the core count is 0 (`Wheel.NumThreads`). No worker then runs, and the constructor's contract leaves the bitmap all false (`Wheel.FindPrimes.constructor`, since `Runs` is then empty).
