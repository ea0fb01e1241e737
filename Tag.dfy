/**
 * A node of the parsed tag tree: a name, the tags nested in it (in document
 * order) and an unsigned value accumulated from the text it contains.
 */
module Tags {
  import opened Common

  /** Name given to the tag returned when a search finds nothing. */
  const EMPTY_TAG_NAME: string := "EMPTY_TAG"

  /** Name of a tag made by the default constructor. */
  const DEFAULT_TAG_NAME: string := " "

  /** Range of the C++ `int` used for the place value in strToInt. */
  const INT_MIN: int := -0x8000_0000
  const INT_MAX: int := 0x7fff_ffff

  datatype Tag = Tag(name: string, children: seq<Tag>, value: u32)

  /** Signed overflow of the place value or of one digit's contribution. */
  datatype ValueError = IntOverflow

  /** The default constructor. */
  function NewTag(): (t: Tag)
    ensures t.name == DEFAULT_TAG_NAME && t.children == [] && t.value == 0
  {
    Tag(DEFAULT_TAG_NAME, [], 0)
  }

  /** The constructor taking a name. */
  function NamedTag(name: string): (t: Tag)
    ensures t.name == name && t.children == [] && t.value == 0
  {
    Tag(name, [], 0)
  }

  /** What a failed search returns. */
  function EmptyTag(): Tag
  {
    NamedTag(EMPTY_TAG_NAME)
  }

  function GetInternalTags(t: Tag): seq<Tag>
  {
    t.children
  }

  function GetValue(t: Tag): u32
  {
    t.value
  }

  /** addTag: the new child goes last; everything else is kept. */
  function AddTag(t: Tag, child: Tag): (r: Tag)
    ensures r.name == t.name && r.value == t.value
    ensures |r.children| == |t.children| + 1
  {
    t.(children := t.children + [child])
  }

  /** getInternalTags after addTag: the earlier children in order, then the new one. */
  lemma AddTagAppends(t: Tag, child: Tag)
    ensures GetInternalTags(AddTag(t, child))[..|t.children|] == GetInternalTags(t)
    ensures GetInternalTags(AddTag(t, child))[|t.children|] == child
  {}

  /** Children keep insertion order: adding a, then b, lists a, then b, after the earlier ones. */
  lemma AddTagOrder(t: Tag, a: Tag, b: Tag)
    ensures GetInternalTags(AddTag(AddTag(t, a), b)) == GetInternalTags(t) + [a, b]
  {}

  // ---------------------------------------------------------------------------
  // Searching among a list of tags by name

  /**
   * Index of the first tag named `name` at or after `from`; |tags| when there
   * is none.
   */
  function IndexOfName(tags: seq<Tag>, from: nat, name: string): (r: nat)
    requires from <= |tags|
    ensures from <= r <= |tags|
    ensures r < |tags| ==> tags[r].name == name
    ensures forall i :: from <= i < r ==> tags[i].name != name
    decreases |tags| - from
  {
    if from == |tags| then from
    else if tags[from].name == name then from
    else IndexOfName(tags, from + 1, name)
  }

  /** The first tag of the list named `name`, or the empty tag. */
  function FirstNamed(tags: seq<Tag>, name: string): Tag
  {
    var i := IndexOfName(tags, 0, name);
    if i < |tags| then tags[i] else EmptyTag()
  }

  /**
   * getTag(nCurPos, sName) over a list of tags (a tag's children, or the
   * top-level tags of a document): the first tag named `name` at index
   * `pos` or later, with the position left one past it; with no such tag, the
   * empty tag, with the position at the end of the list (or unchanged when it
   * was already beyond it).
   */
  method GetTagFrom(tags: seq<Tag>, pos: nat, name: string) returns (t: Tag, newPos: nat)
    ensures (exists i :: pos <= i < |tags| && tags[i].name == name) ==>
              pos < newPos <= |tags| && t == tags[newPos - 1] && t.name == name
              && forall i :: pos <= i < newPos - 1 ==> tags[i].name != name
    ensures (forall i :: pos <= i < |tags| ==> tags[i].name != name) ==>
              t == EmptyTag() && newPos == Max(pos, |tags|)
  {
    newPos := pos;
    while newPos < |tags|
      invariant pos <= newPos
      invariant forall i :: pos <= i < newPos && i < |tags| ==> tags[i].name != name
      invariant newPos > |tags| ==> newPos == pos
    {
      if tags[newPos].name == name {
        t := tags[newPos];
        newPos := newPos + 1;
        return;
      }
      newPos := newPos + 1;
    }
    t := EmptyTag();
  }

  /** Tag::getTag(name): the first child with that name, else the empty tag. */
  method GetChild(parent: Tag, name: string) returns (t: Tag)
    ensures t == FirstNamed(parent.children, name)
    ensures (exists i :: 0 <= i < |parent.children| && parent.children[i].name == name) ==>
              t.name == name && t in parent.children
    ensures (forall i :: 0 <= i < |parent.children| ==> parent.children[i].name != name) ==>
              t == EmptyTag()
  {
    var i := 0;
    while i < |parent.children|
      invariant i <= |parent.children|
      invariant forall k :: 0 <= k < i ==> parent.children[k].name != name
    {
      if parent.children[i].name == name {
        t := parent.children[i];
        IndexOfNameFirst(parent.children, 0, name, i);
        return;
      }
      i := i + 1;
    }
    t := EmptyTag();
    IndexOfNameNone(parent.children, 0, name);
  }

  lemma {:induction false} IndexOfNameFirst(tags: seq<Tag>, from: nat, name: string, i: nat)
    requires from <= i < |tags| && tags[i].name == name
    requires forall k :: from <= k < i ==> tags[k].name != name
    ensures IndexOfName(tags, from, name) == i
    decreases i - from
  {
    if from < i {
      IndexOfNameFirst(tags, from + 1, name, i);
    }
  }

  lemma {:induction false} IndexOfNameNone(tags: seq<Tag>, from: nat, name: string)
    requires from <= |tags|
    requires forall k :: from <= k < |tags| ==> tags[k].name != name
    ensures IndexOfName(tags, from, name) == |tags|
    decreases |tags| - from
  {
    if from < |tags| {
      IndexOfNameNone(tags, from + 1, name);
    }
  }

  // ---------------------------------------------------------------------------
  // setValue / strToInt

  /** The value of one character as a digit: its code minus the code of '0'. */
  function Digit(c: char): int
  {
    c as int - '0' as int
  }

  predicate IsDigit(c: char)
  {
    '0' <= c <= '9'
  }

  function Pow10(k: nat): (r: nat)
    ensures r >= 1
  {
    if k == 0 then 1 else 10 * Pow10(k - 1)
  }

  /** Sum of every character's digit value times its place value. */
  function DecimalValue(s: string): int
  {
    if s == [] then 0 else Digit(s[0]) * Pow10(|s| - 1) + DecimalValue(s[1..])
  }

  /**
   * What strToInt computes without undefined behaviour: at most nine
   * characters (the place value itself reaches 10^|s|), and every
   * character's contribution within the range of `int`.
   */
  predicate TermsFit(s: string)
  {
    |s| <= 9 && forall i :: 0 <= i < |s| ==> INT_MIN <= Term(s, i) <= INT_MAX
  }

  /** Contribution of the character at index k: its digit times its place value. */
  function Term(s: string, k: nat): int
    requires k < |s|
  {
    Digit(s[k]) * Pow10(|s| - 1 - k)
  }

  /** Effect of strToInt on the stored value. */
  function StrToIntSpec(val: u32, s: string): Result<u32, ValueError>
  {
    if TermsFit(s) then Success((val + DecimalValue(s)) % U32_LIMIT) else Failure(IntOverflow)
  }

  /**
   * strToInt: walks the text from its last character to its first, adding
   * each digit times the running place value into the value (which wraps
   * modulo 2^32); the place value is multiplied by ten after every character.
   */
  method StrToInt(val: u32, s: string) returns (r: Result<u32, ValueError>)
    ensures r == StrToIntSpec(val, s)
  {
    var acc: u32 := val;
    var i: int := |s| - 1;
    var j: int := 1;
    while i >= 0
      invariant -1 <= i < |s|
      invariant j == Pow10(|s| - 1 - i) && j <= INT_MAX
      invariant forall k :: i < k < |s| ==> INT_MIN <= Term(s, k) <= INT_MAX
      invariant acc == (val + DecimalValue(s[i + 1..])) % U32_LIMIT
    {
      var term := Digit(s[i]) * j;
      assert term == Term(s, i);
      if term < INT_MIN || term > INT_MAX {
        r := Failure(IntOverflow);
        return;
      }
      AccumulateStep(val, s, i, acc, term);
      acc := (acc + term) % U32_LIMIT;
      if 10 * j > INT_MAX {
        r := Failure(IntOverflow);
        assert Pow10(|s| - i) == 10 * j;
        Pow10Range(|s| - i);
        return;
      }
      i, j := i - 1, 10 * j;
    }
    assert s[0..] == s;
    Pow10Range(|s|);
    r := Success(acc);
  }

  /** Adding one more digit's contribution to the wrapped value. */
  lemma AccumulateStep(val: u32, s: string, i: nat, acc: u32, term: int)
    requires i < |s|
    requires acc == (val + DecimalValue(s[i + 1..])) % U32_LIMIT
    requires term == Term(s, i)
    ensures (acc + term) % U32_LIMIT == (val + DecimalValue(s[i..])) % U32_LIMIT
  {
    DecimalValueCons(s, i);
    ModAdd(val + DecimalValue(s[i + 1..]), term, U32_LIMIT);
  }

  lemma ModAdd(a: int, b: int, m: int)
    requires m > 0
    ensures (a % m + b) % m == (a + b) % m
  {
    var q := a / m;
    assert a == q * m + a % m;
    assert a + b == (a % m + b) + q * m;
    ModShift(a % m + b, q, m);
  }

  lemma ModShift(x: int, q: int, m: int)
    requires m > 0
    ensures (x + q * m) % m == x % m
  {
    var y := x + q * m;
    var r1, r2 := x % m, y % m;
    var q1, q2 := x / m, y / m;
    assert x == q1 * m + r1;
    assert y == q2 * m + r2;
    assert (q2 - q1 - q) * m == r1 - r2;
    if q2 - q1 - q >= 1 {
      MulAtLeast(q2 - q1 - q, m);
    } else if q2 - q1 - q <= -1 {
      MulAtLeast(q1 + q - q2, m);
    }
  }

  /** Place values fit in an `int` exactly up to nine digits. */
  lemma Pow10Range(k: nat)
    ensures k <= 9 <==> Pow10(k) <= INT_MAX
  {
    if k > 9 {
      Pow10Mono(10, k);
    } else {
      Pow10Mono(k, 9);
    }
  }

  lemma DecimalValueCons(s: string, i: nat)
    requires i < |s|
    ensures DecimalValue(s[i..]) == Term(s, i) + DecimalValue(s[i + 1..])
  {
    assert s[i..][1..] == s[i + 1..];
  }

  lemma {:induction false} Pow10Mono(a: nat, b: nat)
    requires a <= b
    ensures Pow10(a) <= Pow10(b)
    decreases b
  {
    if a < b {
      Pow10Mono(a, b - 1);
    }
  }

  /** setValue: accumulates into the value (it does not replace it). */
  method SetValue(t: Tag, s: string) returns (r: Result<Tag, ValueError>)
    ensures r.Success? <==> StrToIntSpec(t.value, s).Success?
    ensures r.Success? ==> r.value == t.(value := StrToIntSpec(t.value, s).value)
  {
    var v := StrToInt(t.value, s);
    match v
    case Success(x) => r := Success(t.(value := x));
    case Failure(e) => r := Failure(e);
  }

  predicate AllDigits(s: string)
  {
    forall i :: 0 <= i < |s| ==> IsDigit(s[i])
  }

  /** A numeral of up to nine digits is within bounds: its value is below 10^|s|. */
  lemma {:induction false} DecimalValueBounds(s: string)
    requires AllDigits(s)
    ensures 0 <= DecimalValue(s) < Pow10(|s|)
  {
    if s != [] {
      DecimalValueBounds(s[1..]);
      var p := Pow10(|s| - 1);
      assert Pow10(|s|) == 10 * p;
      MulLe(Digit(s[0]), 9, p);
    }
  }

  /** Up to nine decimal digits never overflow the C++ `int` arithmetic. */
  lemma DigitsFit(s: string)
    requires AllDigits(s) && |s| <= 9
    ensures TermsFit(s)
  {
    forall i | 0 <= i < |s|
      ensures INT_MIN <= Term(s, i) <= INT_MAX
    {
      Pow10Mono(|s| - 1 - i, 8);
      assert Pow10(8) == 100_000_000;
      assert 0 <= Digit(s[i]) <= 9;
    }
  }

  /** One setValue on a fresh tag stores the decimal value of the numeral. */
  lemma StrToIntFresh(s: string)
    requires AllDigits(s) && |s| <= 9
    ensures StrToIntSpec(0, s) == Success(DecimalValue(s))
  {
    DigitsFit(s);
    DecimalValueBounds(s);
    Pow10Mono(|s|, 9);
    assert Pow10(9) == 1_000_000_000;
  }

  /** Two setValue calls store the sum of the two numerals (modulo 2^32). */
  lemma StrToIntTwice(a: string, b: string)
    requires AllDigits(a) && |a| <= 9 && AllDigits(b) && |b| <= 9
    ensures StrToIntSpec(0, a).Success?
    ensures StrToIntSpec(StrToIntSpec(0, a).value, b) == Success((DecimalValue(a) + DecimalValue(b)) % U32_LIMIT)
  {
    StrToIntFresh(a);
    DigitsFit(b);
  }

  // ---------------------------------------------------------------------------
  // The decimal reading inverts decimal writing

  function DigitChar(d: nat): (c: char)
    requires d < 10
    ensures IsDigit(c) && Digit(c) == d
  {
    ('0' as int + d) as char
  }

  /** The shortest decimal numeral of n. */
  function ToDecimal(n: nat): (s: string)
    ensures |s| >= 1 && AllDigits(s)
  {
    if n < 10 then [DigitChar(n)] else ToDecimal(n / 10) + [DigitChar(n % 10)]
  }

  /** Appending a digit multiplies by ten and adds it. */
  lemma {:induction false} DecimalValueSnoc(s: string, c: char)
    ensures DecimalValue(s + [c]) == 10 * DecimalValue(s) + Digit(c)
    decreases |s|
  {
    if s == [] {
      assert [c][1..] == [];
    } else {
      assert (s + [c])[1..] == s[1..] + [c];
      DecimalValueSnoc(s[1..], c);
      assert Pow10(|s|) == 10 * Pow10(|s| - 1);
    }
  }

  lemma {:induction false} DecimalRoundTrip(n: nat)
    ensures DecimalValue(ToDecimal(n)) == n
  {
    if n >= 10 {
      DecimalRoundTrip(n / 10);
      DecimalValueSnoc(ToDecimal(n / 10), DigitChar(n % 10));
    } else {
      assert ToDecimal(n)[1..] == [];
    }
  }
}
