/**
 * The ad-hoc tag reader: a tokenizer over the document text held in memory,
 * and the parser that builds a tree of tags with an explicit stack.
 *
 * Positions are `size_t` values: any index of the text, or `npos`, the
 * largest value, which the string searches return when they find nothing.
 */
module Xml {
  import opened Common
  import opened Tags

  /** std::string::npos: the largest size_t. */
  const NPOS: int := 0xFFFF_FFFF_FFFF_FFFF

  /** 2^64, the modulus of size_t arithmetic. */
  const SIZE_LIMIT: int := 0x1_0000_0000_0000_0000

  type usize = x: int | 0 <= x <= NPOS

  /** The delimiter set of the tokenizer: < > , . / space newline tab return ' and ". */
  const DELIMS: string := "<>,./ \n\t\r'\""

  predicate IsDelim(c: char)
  {
    c == '<' || c == '>' || c == ',' || c == '.' || c == '/' || c == ' '
    || c == '\n' || c == '\t' || c == '\r' || c == '\'' || c == '"'
  }

  /** IsDelim is membership in the delimiter set. */
  lemma IsDelimMembership(c: char)
    ensures IsDelim(c) <==> c in DELIMS
  {
    if IsDelim(c) {
      assert c in DELIMS by {
        if c == '<' { assert DELIMS[0] == c; }
        else if c == '>' { assert DELIMS[1] == c; }
        else if c == ',' { assert DELIMS[2] == c; }
        else if c == '.' { assert DELIMS[3] == c; }
        else if c == '/' { assert DELIMS[4] == c; }
        else if c == ' ' { assert DELIMS[5] == c; }
        else if c == '\n' { assert DELIMS[6] == c; }
        else if c == '\t' { assert DELIMS[7] == c; }
        else if c == '\r' { assert DELIMS[8] == c; }
        else if c == '\'' { assert DELIMS[9] == c; }
        else { assert DELIMS[10] == c; }
      }
    }
  }

  /** A non-empty token with no delimiter at either end. */
  predicate Trimmed(t: string)
  {
    |t| > 0 && !IsDelim(t[0]) && !IsDelim(t[|t| - 1])
  }

  /** Every failure the reader can run into. */
  datatype XmlError =
    | SubstrOutOfRange   // std::string::substr with a start beyond the end (std::out_of_range)
    | ValueOverflow      // strToInt on text whose place values overflow `int`
    | AddressNotExist    // findData: no top-level tag has the first name of the address

  // ---------------------------------------------------------------------------
  // The std::string operations the tokenizer uses

  /** size_t arithmetic wraps modulo 2^64. */
  function Wrap64(x: int): usize
  {
    x % SIZE_LIMIT
  }

  /** find(c, from): the first index at or after `from` holding c, else npos. */
  function Find(s: string, c: char, from: usize): (r: usize)
    requires |s| < NPOS
    ensures r == NPOS || (from <= r < |s| && s[r] == c)
    ensures forall i :: from <= i < |s| && i < r ==> s[i] != c
    decreases |s| - from
  {
    if from >= |s| then NPOS
    else if s[from] == c then from
    else Find(s, c, from + 1)
  }

  /** find_first_not_of(DELIMS, from): the first non-delimiter at or after `from`, else npos. */
  function FindFirstNotOf(s: string, from: usize): (r: usize)
    requires |s| < NPOS
    ensures r == NPOS || (from <= r < |s| && !IsDelim(s[r]))
    ensures forall i :: from <= i < |s| && i < r ==> IsDelim(s[i])
    decreases |s| - from
  {
    if from >= |s| then NPOS
    else if !IsDelim(s[from]) then from
    else FindFirstNotOf(s, from + 1)
  }

  /** find_last_not_of(DELIMS, pos): the last non-delimiter at or before `pos`, else npos. */
  function FindLastNotOf(s: string, pos: usize): (r: usize)
    requires |s| < NPOS
    ensures r == NPOS || (r <= pos && r < |s| && !IsDelim(s[r]))
    ensures forall i :: 0 <= i <= pos && i < |s| && (r == NPOS || r < i) ==> IsDelim(s[i])
  {
    LastNotBelow(s, if pos >= |s| then |s| else pos + 1)
  }

  function LastNotBelow(s: string, n: nat): (r: usize)
    requires n <= |s| < NPOS
    ensures r == NPOS || (r < n && !IsDelim(s[r]))
    ensures forall i :: 0 <= i < n && (r == NPOS || r < i) ==> IsDelim(s[i])
  {
    if n == 0 then NPOS
    else if !IsDelim(s[n - 1]) then n - 1
    else LastNotBelow(s, n - 1)
  }

  /** substr(pos, count): throws when pos is beyond the end; the count is clipped at the end. */
  function Substr(s: string, pos: usize, count: usize): (r: Result<string, XmlError>)
    ensures r.Failure? <==> pos > |s|
    ensures r.Success? ==> |r.value| == Min(count, |s| - pos)
                           && forall i :: 0 <= i < |r.value| ==> r.value[i] == s[pos + i]
  {
    if pos > |s| then Failure(SubstrOutOfRange)
    else Success(s[pos..pos + Min(count, |s| - pos)])
  }

  // ---------------------------------------------------------------------------
  // nextTag

  /** The by-reference state of nextTag: the token, the position and the begin flag. */
  datatype Cursor = Cursor(tok: string, pos: usize, begin: bool)

  /**
   * nextTag: finds the next `<` at or after the position and the next `>`
   * after it. Without both, only the position changes, to npos. Otherwise the
   * position moves to the `>`, the flag says whether the tag is a begin tag
   * (no `/` before the `>`), and the token is the text between them with the
   * delimiters trimmed from both ends (NextTagNoTag, NextTagKind, NextTagToken).
   */
  function NextTag(text: string, c: Cursor): (r: Result<Cursor, XmlError>)
    requires |text| < NPOS
    ensures r.Success? ==> r.value.pos == NPOS || (c.pos < r.value.pos < |text| && text[r.value.pos] == '>')
  {
    var b := Find(text, '<', c.pos);
    var e := Find(text, '>', b);
    if b == NPOS || e == NPOS then
      Success(c.(pos := NPOS))
    else
      var slash := Find(text, '/', b);
      var begin := e < slash || slash == NPOS;
      var tb := FindFirstNotOf(text, b);
      var te := FindLastNotOf(text, e);
      match Substr(text, tb, Wrap64(te - tb + 1))
      case Failure(err) => Failure(err)
      case Success(tok) => Success(Cursor(tok, e, begin))
  }

  /** Without a `<` at or after the position, or a `>` after it, only the position changes: to npos. */
  lemma NextTagNoTag(text: string, c: Cursor)
    requires |text| < NPOS
    ensures var b := Find(text, '<', c.pos);
      (b == NPOS || Find(text, '>', b) == NPOS) <==> NextTag(text, c) == Success(c.(pos := NPOS))
  {}

  /**
   * With a `<` at b and the next `>` at e, the position moves to e, and the
   * tag is a begin tag exactly when no `/` lies between them; the token's
   * substr fails only when nothing but delimiters follows the `<`.
   */
  lemma NextTagKind(text: string, c: Cursor, b: usize, e: usize)
    requires |text| < NPOS
    requires b == Find(text, '<', c.pos) && b != NPOS && e == Find(text, '>', b) && e != NPOS
    ensures c.pos <= b < e && text[b] == '<' && text[e] == '>'
    ensures NextTag(text, c).Failure? <==> forall i :: b <= i < |text| ==> IsDelim(text[i])
    ensures NextTag(text, c).Success? ==>
              NextTag(text, c).value.pos == e && (NextTag(text, c).value.begin <==> forall i :: b < i < e ==> text[i] != '/')
  {
    SlashSearch(text, b, e, Find(text, '/', b));
    TokenBounds(text, b, e, FindFirstNotOf(text, b), FindLastNotOf(text, e));
  }

  /**
   * When some non-delimiter lies between the `<` and the `>`, the token is
   * the text from the first to the last of them: non-empty, with no
   * delimiter at either end.
   */
  lemma NextTagToken(text: string, c: Cursor, b: usize, e: usize)
    requires |text| < NPOS
    requires b == Find(text, '<', c.pos) && b != NPOS && e == Find(text, '>', b) && e != NPOS
    requires exists i :: b < i < e && !IsDelim(text[i])
    ensures var tb, te := FindFirstNotOf(text, b), FindLastNotOf(text, e);
      b < tb <= te < e && NextTag(text, c).Success? && NextTag(text, c).value.tok == text[tb..te + 1]
      && Trimmed(NextTag(text, c).value.tok)
  {
    var tb, te := FindFirstNotOf(text, b), FindLastNotOf(text, e);
    assert b < tb <= te < e && Wrap64(te - tb + 1) == te - tb + 1 by {
      TokenBounds(text, b, e, tb, te);
    }
    var tok := text[tb..te + 1];
    assert Substr(text, tb, Wrap64(te - tb + 1)) == Success(tok);
    assert NextTag(text, c).value.tok == tok;
  }

  lemma SlashSearch(text: string, b: nat, e: nat, slash: usize)
    requires |text| < NPOS && b < e < |text| && text[b] == '<' && text[e] == '>'
    requires slash == Find(text, '/', b)
    ensures (e < slash || slash == NPOS) <==> forall i :: b < i < e ==> text[i] != '/'
  {}

  lemma TokenBounds(text: string, b: nat, e: nat, tb: usize, te: usize)
    requires |text| < NPOS && b < e < |text| && IsDelim(text[b]) && IsDelim(text[e])
    requires tb == FindFirstNotOf(text, b) && te == FindLastNotOf(text, e)
    ensures tb == NPOS <==> forall i :: b <= i < |text| ==> IsDelim(text[i])
    ensures (exists i :: b < i < e && !IsDelim(text[i])) ==>
              b < tb <= te < e && Wrap64(te - tb + 1) == te - tb + 1
  {
    if exists i :: b < i < e && !IsDelim(text[i]) {
      var i :| b < i < e && !IsDelim(text[i]);
      assert tb <= i;
      assert i <= te;
    }
  }

  // ---------------------------------------------------------------------------
  // findTag

  /** The cursor after `n` calls of nextTag. */
  function Walk(text: string, c: Cursor, n: nat): Result<Cursor, XmlError>
    requires |text| < NPOS
    decreases n
  {
    if n == 0 then Success(c)
    else match NextTag(text, c)
      case Failure(err) => Failure(err)
      case Success(d) => Walk(text, d, n - 1)
  }

  /** findTag's loop stops at a tag of the wanted name and kind, or at npos. */
  predicate Found(name: string, want: bool, c: Cursor)
  {
    (c.tok == name && c.begin == want) || c.pos == NPOS
  }

  /** The cursor at which findTag's loop stops. */
  function FindTagFrom(text: string, name: string, want: bool, c: Cursor): Result<Cursor, XmlError>
    requires |text| < NPOS
    decreases NPOS - c.pos
  {
    if Found(name, want, c) then Success(c)
    else match NextTag(text, c)
      case Failure(err) => Failure(err)
      case Success(d) => FindTagFrom(text, name, want, d)
  }

  /**
   * The loop stops at the first tag, in document order, whose name and kind
   * both match (or where the tags run out): every earlier cursor on the walk
   * matched neither.
   */
  lemma {:induction false} FindTagFromFirst(text: string, name: string, want: bool, c: Cursor) returns (k: nat)
    requires |text| < NPOS
    ensures Walk(text, c, k) == FindTagFrom(text, name, want, c)
    ensures NoneFoundBefore(text, name, want, c, k)
    decreases NPOS - c.pos
  {
    if Found(name, want, c) {
      k := 0;
    } else {
      match NextTag(text, c)
      case Failure(err) => {
        k := 1;
        assert Walk(text, c, 1) == Failure(err);
      }
      case Success(d) => {
        var k' := FindTagFromFirst(text, name, want, d);
        k := k' + 1;
        WalkShift(text, c, d, k);
        NoneFoundShift(text, name, want, c, d, k');
      }
    }
  }

  /** None of the first k cursors of the walk matches. */
  predicate NoneFoundBefore(text: string, name: string, want: bool, c: Cursor, k: nat)
    requires |text| < NPOS
  {
    forall i: nat :: i < k ==> Walk(text, c, i).Success? && !Found(name, want, Walk(text, c, i).value)
  }

  lemma NoneFoundShift(text: string, name: string, want: bool, c: Cursor, d: Cursor, k: nat)
    requires |text| < NPOS && !Found(name, want, c) && NextTag(text, c) == Success(d)
    requires NoneFoundBefore(text, name, want, d, k)
    ensures NoneFoundBefore(text, name, want, c, k + 1)
  {
    forall i: nat | i < k + 1
      ensures Walk(text, c, i).Success? && !Found(name, want, Walk(text, c, i).value)
    {
      if i > 0 {
        WalkShift(text, c, d, i);
      }
    }
  }

  /** The loop only stops at a tag it was looking for, or at npos. */
  lemma {:induction false} FindTagFromFound(text: string, name: string, want: bool, c: Cursor)
    requires |text| < NPOS
    ensures FindTagFrom(text, name, want, c).Success? ==> Found(name, want, FindTagFrom(text, name, want, c).value)
    decreases NPOS - c.pos
  {
    if !Found(name, want, c) && NextTag(text, c).Success? {
      FindTagFromFound(text, name, want, NextTag(text, c).value);
    }
  }

  lemma WalkShift(text: string, c: Cursor, d: Cursor, i: nat)
    requires |text| < NPOS && NextTag(text, c) == Success(d) && i > 0
    ensures Walk(text, c, i) == Walk(text, d, i - 1)
  {}

  /**
   * findTag: from a position that is npos nothing happens; otherwise nextTag
   * is called until a tag with the name and kind wanted comes up, or until
   * npos. Only the position is passed back.
   */
  method FindTag(text: string, name: string, pos: usize, want: bool) returns (r: Result<usize, XmlError>)
    requires |text| < NPOS
    ensures var f := FindTagFrom(text, name, want, Cursor("", pos, !want));
      (f.Failure? ==> r == Failure(f.error)) && (f.Success? ==> r == Success(f.value.pos))
    ensures pos == NPOS ==> r == Success(NPOS)
    ensures r.Success? && r.value != NPOS ==> pos < r.value < |text| && text[r.value] == '>'
  {
    if pos == NPOS {
      return Success(pos);
    }
    var c := Cursor("", pos, !want);
    while (name != c.tok || c.begin != want) && c.pos != NPOS
      invariant FindTagFrom(text, name, want, c) == FindTagFrom(text, name, want, Cursor("", pos, !want))
      invariant c == Cursor("", pos, !want) || c.pos == NPOS || (pos < c.pos < |text| && text[c.pos] == '>')
      decreases NPOS - c.pos
    {
      var next := NextTag(text, c);
      match next
      case Failure(err) => {
        return Failure(err);
      }
      case Success(d) => {
        c := d;
      }
    }
    r := Success(c.pos);
  }

  // ---------------------------------------------------------------------------
  // getContents

  /**
   * getContents: the text from one past `nBegin` up to the next `<`, trimmed
   * of delimiters; None when there is no `<`, when it follows immediately,
   * or when the trimmed text is empty (GetContentsNone, GetContentsText,
   * GetContentsBlank).
   */
  function GetContents(text: string, nBegin: usize): Result<Option<string>, XmlError>
    requires |text| < NPOS
  {
    var lo := Wrap64(nBegin + 1);
    var lt := Find(text, '<', lo);
    if lt == NPOS || lt == lo then Success(None)
    else
      var tb := FindFirstNotOf(text, lo);
      var te := FindLastNotOf(text, lt);
      if te >= tb then
        match Substr(text, tb, Wrap64(te - tb + 1))
        case Failure(err) => Failure(err)
        case Success(s) => Success(Some(s))
      else Success(None)
  }

  /** No contents without a later `<`, or when the `<` comes straight after the start. */
  lemma GetContentsNone(text: string, nBegin: usize)
    requires |text| < NPOS
    ensures var lo := Wrap64(nBegin + 1); var lt := Find(text, '<', lo);
      lt == NPOS || lt == lo ==> GetContents(text, nBegin) == Success(None)
  {}

  /** Text other than delimiters before the next `<` is returned, trimmed of delimiters. */
  lemma GetContentsText(text: string, nBegin: usize, lo: usize, lt: usize)
    requires |text| < NPOS
    requires lo == Wrap64(nBegin + 1) && lt == Find(text, '<', lo) && lt != NPOS
    requires exists i :: lo <= i < lt && !IsDelim(text[i])
    ensures var tb, te := FindFirstNotOf(text, lo), FindLastNotOf(text, lt);
      lo <= tb <= te < lt && GetContents(text, nBegin) == Success(Some(text[tb..te + 1])) && Trimmed(text[tb..te + 1])
  {
    ContentBounds(text, lo, lt, FindFirstNotOf(text, lo), FindLastNotOf(text, lt));
  }

  /** Only delimiters before the next `<`, with some other character earlier in the text: no contents. */
  lemma GetContentsBlank(text: string, nBegin: usize, lo: usize, lt: usize)
    requires |text| < NPOS
    requires lo == Wrap64(nBegin + 1) && lt == Find(text, '<', lo) && lt != NPOS && lo < lt
    requires forall i :: lo <= i < lt ==> IsDelim(text[i])
    requires exists i :: 0 <= i < lo && !IsDelim(text[i])
    ensures GetContents(text, nBegin) == Success(None)
  {
    ContentBounds(text, lo, lt, FindFirstNotOf(text, lo), FindLastNotOf(text, lt));
  }

  lemma ContentBounds(text: string, lo: usize, lt: usize, tb: usize, te: usize)
    requires |text| < NPOS && lo < lt < |text| && IsDelim(text[lt])
    requires tb == FindFirstNotOf(text, lo) && te == FindLastNotOf(text, lt)
    ensures (exists i :: lo <= i < lt && !IsDelim(text[i])) ==>
              lo <= tb <= te < lt && Wrap64(te - tb + 1) == te - tb + 1
    ensures (forall i :: lo <= i < lt ==> IsDelim(text[i])) && (exists i :: 0 <= i < lo && !IsDelim(text[i])) ==>
              te < lo && (tb == NPOS || lt < tb) && te < tb
  {
    if exists i :: lo <= i < lt && !IsDelim(text[i]) {
      var i :| lo <= i < lt && !IsDelim(text[i]);
      assert tb <= i <= te;
    }
    if (forall i :: lo <= i < lt ==> IsDelim(text[i])) && (exists i :: 0 <= i < lo && !IsDelim(text[i])) {
      var i :| 0 <= i < lo && !IsDelim(text[i]);
      assert te != NPOS && i <= te;
    }
  }

  /**
   * When nothing but delimiters lies before the next `<`, counting the text
   * before the start as well, find_last_not_of returns npos, which compares
   * above every start. The contents then run on past that `<` to the end of
   * the text; with nothing but delimiters after it either, substr is called
   * at npos and throws.
   */
  lemma GetContentsRunsOn(text: string, nBegin: usize, lo: usize, lt: usize)
    requires |text| < NPOS
    requires lo == Wrap64(nBegin + 1) && lt == Find(text, '<', lo) && lt != NPOS && lo < lt
    requires forall i :: 0 <= i < lt ==> IsDelim(text[i])
    ensures var tb := FindFirstNotOf(text, lo);
      && (tb == NPOS ==> GetContents(text, nBegin) == Failure(SubstrOutOfRange))
      && (tb != NPOS ==> lt < tb < |text| && GetContents(text, nBegin) == Success(Some(text[tb..])))
  {
    var tb := FindFirstNotOf(text, lo);
    var te := FindLastNotOf(text, lt);
    assert te == NPOS;
    if tb != NPOS {
      assert lt < tb;
      assert Wrap64(te - tb + 1) == SIZE_LIMIT - tb;
      var r := Substr(text, tb, SIZE_LIMIT - tb);
      assert r.Success? && r.value == text[tb..];
    } else {
      assert Wrap64(te - tb + 1) == 1;
    }
  }

  /**
   * An instance of GetContentsRunsOn: in "<> <a", the text after the first tag
   * is one space, yet getContents reports the contents "a".
   */
  lemma GetContentsLeadingDelimiters()
    ensures GetContents("<> <a", 1) == Success(Some("a"))
  {
    var text := "<> <a";
    assert Wrap64(1 + 1) == 2;
    assert text[2] == ' ' && text[3] == '<' && text[4] == 'a';
    assert Find(text, '<', 3) == 3;
    assert Find(text, '<', 2) == 3;
    assert FindFirstNotOf(text, 4) == 4;
    assert FindFirstNotOf(text, 3) == 4;
    assert FindFirstNotOf(text, 2) == 4;
    assert LastNotBelow(text, 0) == NPOS;
    assert LastNotBelow(text, 1) == NPOS;
    assert LastNotBelow(text, 2) == NPOS;
    assert LastNotBelow(text, 3) == NPOS;
    assert LastNotBelow(text, 4) == NPOS;
    assert FindLastNotOf(text, 3) == NPOS;
    assert Wrap64(NPOS - 4 + 1) == SIZE_LIMIT - 4;
    assert Substr(text, 4, SIZE_LIMIT - 4) == Success(text[4..5]);
    assert text[4..5] == "a";
  }

  // ---------------------------------------------------------------------------
  // The tag tree and its stack
  //
  // parseXml only ever pushes the tag it has just appended, and appends only
  // to the tag on top of the stack, so the stack always holds a prefix of the
  // rightmost path of the tree: its first entry is the last top-level tag,
  // and each further entry is the last child of the one below. The stack is
  // therefore modelled by its height.

  /** Length of the rightmost path of the forest. */
  function SpineDepth(ts: seq<Tag>): nat
  {
    if ts == [] then 0 else 1 + SpineDepth(ts[|ts| - 1].children)
  }

  /** The tag at height d of the rightmost path (the stack top when the stack holds d tags). */
  function Top(ts: seq<Tag>, d: nat): Tag
    requires 1 <= d <= SpineDepth(ts)
  {
    if d == 1 then ts[|ts| - 1] else Top(ts[|ts| - 1].children, d - 1)
  }

  /** Adds t as the last child of the tag at height d (as the last top-level tag when d is 0). */
  function AppendAt(ts: seq<Tag>, d: nat, t: Tag): (r: seq<Tag>)
    requires d <= SpineDepth(ts)
    ensures |r| == |ts| + (if d == 0 then 1 else 0)
    ensures r[..|ts| - (if d == 0 then 0 else 1)] == ts[..|ts| - (if d == 0 then 0 else 1)]
    ensures SpineDepth(r) == d + 1 + SpineDepth(t.children)
    ensures Top(r, d + 1) == t
    ensures d >= 1 ==> Top(r, d) == AddTag(Top(ts, d), t)
  {
    if d == 0 then ts + [t]
    else
      var last := ts[|ts| - 1];
      ts[..|ts| - 1] + [last.(children := AppendAt(last.children, d - 1, t))]
  }

  /** Replaces the tag at height d by t. */
  function ReplaceTop(ts: seq<Tag>, d: nat, t: Tag): (r: seq<Tag>)
    requires 1 <= d <= SpineDepth(ts)
    ensures |r| == |ts| && r[..|ts| - 1] == ts[..|ts| - 1]
    ensures SpineDepth(r) == d + SpineDepth(t.children)
    ensures Top(r, d) == t
  {
    var last := ts[|ts| - 1];
    if d == 1 then ts[..|ts| - 1] + [t]
    else ts[..|ts| - 1] + [last.(children := ReplaceTop(last.children, d - 1, t))]
  }

  /** Replacing the tag at height d + 1 by one with the same name leaves the name of the tag below, and its children but the last. */
  lemma {:induction false} ReplaceTopBelow(ts: seq<Tag>, d: nat, t: Tag)
    requires 1 <= d && d + 1 <= SpineDepth(ts)
    ensures Top(ReplaceTop(ts, d + 1, t), d).name == Top(ts, d).name
    ensures var ch := Top(ts, d).children; var ch' := Top(ReplaceTop(ts, d + 1, t), d).children;
      |ch| >= 1 && |ch'| == |ch| && ch'[..|ch| - 1] == ch[..|ch| - 1] && ch'[|ch| - 1] == t
  {
    SpineThroughTop(ts, d);
    var last := ts[|ts| - 1];
    if d > 1 {
      ReplaceTopBelow(last.children, d - 1, t);
    }
  }

  lemma {:induction false} SpineThroughTop(ts: seq<Tag>, d: nat)
    requires 1 <= d <= SpineDepth(ts)
    ensures SpineDepth(ts) == d + SpineDepth(Top(ts, d).children)
  {
    if d > 1 {
      SpineThroughTop(ts[|ts| - 1].children, d - 1);
    }
  }

  // ---------------------------------------------------------------------------
  // parseXml

  /** The loop state of parseXml: the top-level tags, the stack height and nextTag's state. */
  datatype ParseState = ParseState(roots: seq<Tag>, depth: nat, cur: Cursor)

  /** The stack holds tags of the tree. */
  predicate StackValid(st: ParseState)
  {
    st.depth <= SpineDepth(st.roots)
  }

  /**
   * One pass of parseXml's loop. A begin tag becomes a new top-level tag when
   * the stack is empty and otherwise the last child of the stack top; it is
   * pushed, and contents found after it are added to its value (the token
   * variable then holds the contents). An end tag pops the stack, or does
   * nothing when it is empty. When nextTag finds no tag the token and flag
   * of the previous pass are acted on once more.
   */
  function Step(text: string, st: ParseState): (r: Result<ParseState, XmlError>)
    requires |text| < NPOS && StackValid(st)
    ensures r.Success? ==> StackValid(r.value) && NextTag(text, st.cur).Success?
                           && r.value.cur.pos == NextTag(text, st.cur).value.pos
  {
    match NextTag(text, st.cur)
    case Failure(err) => Failure(err)
    case Success(c) =>
      if c.begin then
        var roots := if st.depth == 0 then st.roots + [NamedTag(c.tok)] else AppendAt(st.roots, st.depth, NamedTag(c.tok));
        var depth := st.depth + 1;
        assert st.depth == 0 ==> roots == AppendAt(st.roots, 0, NamedTag(c.tok));
        match GetContents(text, c.pos)
        case Failure(err) => Failure(err)
        case Success(None) => Success(ParseState(roots, depth, c))
        case Success(Some(s)) =>
          match StrToIntSpec(Top(roots, depth).value, s)
          case Failure(_) => Failure(ValueOverflow)
          case Success(v) =>
            Success(ParseState(ReplaceTop(roots, depth, Top(roots, depth).(value := v)), depth, c.(tok := s)))
      else
        Success(ParseState(st.roots, if st.depth > 0 then st.depth - 1 else 0, c))
  }

  /** A begin tag on an empty stack becomes the last top-level tag, and the only one on the stack. */
  lemma StepRoot(text: string, st: ParseState)
    requires |text| < NPOS && StackValid(st) && Step(text, st).Success?
    requires NextTag(text, st.cur).value.begin && st.depth == 0
    ensures var r, c := Step(text, st).value, NextTag(text, st.cur).value;
      r.depth == 1 && |r.roots| == |st.roots| + 1 && r.roots[..|st.roots|] == st.roots
      && r.roots[|st.roots|].name == c.tok && r.roots[|st.roots|].children == []
  {}

  /** Any other begin tag becomes the last child of the stack top and is pushed on it. */
  lemma StepChild(text: string, st: ParseState)
    requires |text| < NPOS && StackValid(st) && Step(text, st).Success?
    requires NextTag(text, st.cur).value.begin && st.depth > 0
    ensures var r, c := Step(text, st).value, NextTag(text, st.cur).value;
      r.depth == st.depth + 1 && |r.roots| == |st.roots|
      && r.roots[..|st.roots| - 1] == st.roots[..|st.roots| - 1]
      && Top(r.roots, st.depth).name == Top(st.roots, st.depth).name
      && Top(r.roots, st.depth).children == Top(st.roots, st.depth).children + [Top(r.roots, r.depth)]
      && Top(r.roots, r.depth).name == c.tok && Top(r.roots, r.depth).children == []
  {
    var c := NextTag(text, st.cur).value;
    var roots := AppendAt(st.roots, st.depth, NamedTag(c.tok));
    var d := st.depth + 1;
    match GetContents(text, c.pos)
    case Success(Some(s)) => {
      var v := StrToIntSpec(Top(roots, d).value, s).value;
      ReplaceTopBelow(roots, st.depth, Top(roots, d).(value := v));
    }
    case _ =>
  }

  /** An end tag pops the stack, and is ignored when the stack is empty; nothing else changes. */
  lemma StepEnd(text: string, st: ParseState)
    requires |text| < NPOS && StackValid(st) && Step(text, st).Success?
    requires !NextTag(text, st.cur).value.begin
    ensures var r := Step(text, st).value;
      r.roots == st.roots && r.depth == Max(st.depth - 1, 0) && r.cur == NextTag(text, st.cur).value
  {}

  /**
   * After a begin tag, the contents that follow it (if any) become its value,
   * and the token variable of the loop then holds those contents.
   */
  lemma StepContents(text: string, st: ParseState)
    requires |text| < NPOS && StackValid(st) && Step(text, st).Success?
    requires NextTag(text, st.cur).value.begin
    ensures var r, c := Step(text, st).value, NextTag(text, st.cur).value;
      var t := Top(r.roots, r.depth);
      GetContents(text, c.pos).Success?
      && (GetContents(text, c.pos).value.None? ==> t == NamedTag(c.tok) && r.cur == c)
      && (GetContents(text, c.pos).value.Some? ==>
            var s := GetContents(text, c.pos).value.value;
            StrToIntSpec(0, s).Success? && t == NamedTag(c.tok).(value := StrToIntSpec(0, s).value) && r.cur == c.(tok := s))
  {
    var c := NextTag(text, st.cur).value;
    var roots := if st.depth == 0 then st.roots + [NamedTag(c.tok)] else AppendAt(st.roots, st.depth, NamedTag(c.tok));
    StepOpens(text, st, c, roots, st.depth + 1);
    var g := GetContents(text, c.pos);
    if g.Success? && g.value.Some? {
      StepOpensWithContents(text, st, c, roots, st.depth + 1, g.value.value);
    }
  }

  /** The outcome of a pass that reads a begin tag, given the tree with the new tag pushed. */
  lemma StepOpens(text: string, st: ParseState, c: Cursor, roots: seq<Tag>, depth: nat)
    requires |text| < NPOS && StackValid(st) && NextTag(text, st.cur) == Success(c) && c.begin
    requires roots == (if st.depth == 0 then st.roots + [NamedTag(c.tok)] else AppendAt(st.roots, st.depth, NamedTag(c.tok)))
    requires depth == st.depth + 1
    ensures 1 <= depth <= SpineDepth(roots) && Top(roots, depth) == NamedTag(c.tok)
    ensures var g := GetContents(text, c.pos);
      (g.Failure? ==> Step(text, st) == Failure(g.error))
      && (g == Success(None) ==> Step(text, st) == Success(ParseState(roots, depth, c)))
  {
    assert st.depth == 0 ==> roots == AppendAt(st.roots, 0, NamedTag(c.tok));
  }

  /** The same pass when contents follow the tag: they are added to its value. */
  lemma StepOpensWithContents(text: string, st: ParseState, c: Cursor, roots: seq<Tag>, depth: nat, s: string)
    requires |text| < NPOS && StackValid(st) && NextTag(text, st.cur) == Success(c) && c.begin
    requires roots == (if st.depth == 0 then st.roots + [NamedTag(c.tok)] else AppendAt(st.roots, st.depth, NamedTag(c.tok)))
    requires depth == st.depth + 1
    requires GetContents(text, c.pos) == Success(Some(s))
    ensures 1 <= depth <= SpineDepth(roots) && Top(roots, depth) == NamedTag(c.tok)
    ensures var v := StrToIntSpec(Top(roots, depth).value, s);
      (v.Failure? ==> Step(text, st) == Failure(ValueOverflow))
      && (v.Success? ==> Step(text, st) == Success(ParseState(ReplaceTop(roots, depth, Top(roots, depth).(value := v.value)), depth, c.(tok := s))))
  {
    assert st.depth == 0 ==> roots == AppendAt(st.roots, 0, NamedTag(c.tok));
  }

  /** A pass fails when nextTag does. */
  lemma StepFails(text: string, st: ParseState)
    requires |text| < NPOS && StackValid(st) && NextTag(text, st.cur).Failure?
    ensures Step(text, st) == Failure(NextTag(text, st.cur).error)
  {}

  /** The outcome of a pass that reads an end tag. */
  lemma StepCloses(text: string, st: ParseState, c: Cursor)
    requires |text| < NPOS && StackValid(st) && NextTag(text, st.cur) == Success(c) && !c.begin
    ensures Step(text, st) == Success(ParseState(st.roots, if st.depth > 0 then st.depth - 1 else 0, c))
  {}

  /** parseXml's loop runs while the token is not an end tag named like the address's last entry, and not at npos. */
  predicate Continues(back: string, c: Cursor)
  {
    (back != c.tok || c.begin) && c.pos != NPOS
  }

  /** The loop's result: the top-level tags once the loop condition fails. */
  function ParseLoop(text: string, back: string, st: ParseState): Result<seq<Tag>, XmlError>
    requires |text| < NPOS && StackValid(st)
    decreases NPOS - st.cur.pos
  {
    if !Continues(back, st.cur) then Success(st.roots)
    else match Step(text, st)
      case Failure(err) => Failure(err)
      case Success(next) => ParseLoop(text, back, next)
  }

  /** Number of top-level tags that are closed: all of them but the stack's bottom entry. */
  function Closed(st: ParseState): nat
  {
    if st.depth == 0 || st.roots == [] then |st.roots| else |st.roots| - 1
  }

  /**
   * One pass of the loop keeps the closed top-level tags as they were, and
   * never reopens one.
   */
  lemma StepKeepsClosed(text: string, st: ParseState)
    requires |text| < NPOS && StackValid(st) && Step(text, st).Success?
    ensures var r := Step(text, st).value;
      Closed(st) <= Closed(r) <= |r.roots| && r.roots[..Closed(st)] == st.roots[..Closed(st)]
  {
    var r := Step(text, st).value;
    var c := NextTag(text, st.cur).value;
    if c.begin && st.depth == 0 {
      StepRoot(text, st);
      assert r.roots[..Closed(st)] == r.roots[..|st.roots|];
    } else if c.begin {
      StepChild(text, st);
    } else {
      StepEnd(text, st);
    }
  }

  /** The loop never changes a top-level tag once it is closed. */
  lemma {:induction false} ParseLoopKeepsClosed(text: string, back: string, st: ParseState)
    requires |text| < NPOS && StackValid(st)
    ensures var r := ParseLoop(text, back, st);
      r.Success? ==> Closed(st) <= |r.value| && r.value[..Closed(st)] == st.roots[..Closed(st)]
    decreases NPOS - st.cur.pos
  {
    if Continues(back, st.cur) && Step(text, st).Success? {
      var next := Step(text, st).value;
      StepKeepsClosed(text, st);
      ParseLoopKeepsClosed(text, back, next);
      var r := ParseLoop(text, back, next);
      if r.Success? {
        assert r.value[..Closed(st)] == r.value[..Closed(next)][..Closed(st)];
        assert next.roots[..Closed(st)] == next.roots[..Closed(next)][..Closed(st)];
      }
    }
  }

  /** findTag for each entry of the address in turn, each from where the previous one stopped. */
  function AddressPos(text: string, address: seq<string>, pos: usize): (r: Result<usize, XmlError>)
    requires |text| < NPOS
    decreases |address|
  {
    if address == [] then Success(pos)
    else match FindTagFrom(text, address[0], true, Cursor("", pos, false))
      case Failure(err) => Failure(err)
      case Success(c) => AddressPos(text, address[1..], c.pos)
  }

  /**
   * Where the loop starts: the name that ends it, and nextTag's state. With an
   * address, the position after looking it up; without one, the first tag of
   * the text, whose name becomes the address (the token is cleared, the flag
   * kept).
   */
  function ParseStart(text: string, address: seq<string>): Result<(string, Cursor), XmlError>
    requires |text| < NPOS
  {
    if address == [] then
      match NextTag(text, Cursor("", 0, true))
      case Failure(err) => Failure(err)
      case Success(c) => Success((c.tok, c.(tok := "")))
    else
      match AddressPos(text, address, 0)
      case Failure(err) => Failure(err)
      case Success(p) => Success((address[|address| - 1], Cursor("", p, true)))
  }

  /** What parseXml leaves in m_tagVc. */
  function ParseSpec(text: string, address: seq<string>): Result<seq<Tag>, XmlError>
    requires |text| < NPOS
  {
    match ParseStart(text, address)
    case Failure(err) => Failure(err)
    case Success((back, c)) =>
      if c.pos == NPOS then Success([]) else ParseLoop(text, back, ParseState([], 0, c))
  }

  /** The address walk of parseXml: findTag for each name in turn, from where the previous one stopped. */
  method FindAddress(text: string, address: seq<string>) returns (r: Result<usize, XmlError>)
    requires |text| < NPOS
    ensures r == AddressPos(text, address, 0)
  {
    var pos: usize := 0;
    var i := 0;
    while i < |address|
      invariant 0 <= i <= |address|
      invariant AddressPos(text, address, 0) == AddressPos(text, address[i..], pos)
    {
      assert address[i..][1..] == address[i + 1..];
      var f := FindTag(text, address[i], pos, true);
      if f.Failure? {
        return Failure(f.error);
      }
      pos := f.value;
      i := i + 1;
    }
    assert address[|address|..] == [];
    r := Success(pos);
  }

  /**
   * parseXml: goes to the tag the address names (or takes the first tag of
   * the text as the address when it is empty), then reads tags until the end
   * tag with the address's last name or the end of the text, building the
   * tree with a stack.
   */
  method ParseXml(text: string, address: seq<string>) returns (r: Result<seq<Tag>, XmlError>)
    requires |text| < NPOS
    ensures r == ParseSpec(text, address)
  {
    var back: string;
    var c: Cursor;
    if |address| > 0 {
      var pos := FindAddress(text, address);
      if pos.Failure? {
        return Failure(pos.error);
      }
      back, c := address[|address| - 1], Cursor("", pos.value, true);
    } else {
      var first := NextTag(text, Cursor("", 0, true));
      if first.Failure? {
        return Failure(first.error);
      }
      back, c := first.value.tok, first.value.(tok := "");
    }
    if c.pos == NPOS {
      return Success([]);
    }

    var st := ParseState([], 0, c);
    while Continues(back, st.cur)
      invariant StackValid(st)
      invariant ParseLoop(text, back, st) == ParseSpec(text, address)
      decreases NPOS - st.cur.pos
    {
      var next := ParseStep(text, st);
      if next.Failure? {
        return Failure(next.error);
      }
      st := next.value;
    }
    r := Success(st.roots);
  }

  /**
   * One pass of parseXml's loop body: nextTag, then either a new tag (with
   * the contents after it added to its value by setValue) pushed on the
   * stack, or a pop.
   */
  method ParseStep(text: string, st: ParseState) returns (r: Result<ParseState, XmlError>)
    requires |text| < NPOS && StackValid(st)
    ensures r == Step(text, st)
  {
    var next := NextTag(text, st.cur);
    if next.Failure? {
      StepFails(text, st);
      return Failure(next.error);
    }
    var c := next.value;
    if c.begin {
      r := OpenTag(text, st, c);
    } else {
      StepCloses(text, st, c);
      var depth := st.depth;
      if depth > 0 {
        depth := depth - 1;
      }
      r := Success(ParseState(st.roots, depth, c));
    }
  }

  /** The begin-tag branch of the loop body: create the tag, push it, read its contents. */
  method OpenTag(text: string, st: ParseState, c: Cursor) returns (r: Result<ParseState, XmlError>)
    requires |text| < NPOS && StackValid(st) && NextTag(text, st.cur) == Success(c) && c.begin
    ensures r == Step(text, st)
  {
    var roots: seq<Tag>;
    if st.depth == 0 {
      roots := st.roots + [NamedTag(c.tok)];
    } else {
      roots := AppendAt(st.roots, st.depth, NamedTag(c.tok));
    }
    var depth := st.depth + 1;
    StepOpens(text, st, c, roots, depth);
    var contents := GetContents(text, c.pos);
    if contents.Failure? {
      return Failure(contents.error);
    }
    if contents.value.None? {
      return Success(ParseState(roots, depth, c));
    }
    var s := contents.value.value;
    StepOpensWithContents(text, st, c, roots, depth, s);
    var t := SetValue(Top(roots, depth), s);
    if t.Failure? {
      return Failure(ValueOverflow);
    }
    r := Success(ParseState(ReplaceTop(roots, depth, t.value), depth, c.(tok := s)));
  }


  // ---------------------------------------------------------------------------
  // The parsed document

  /** A ReadXml object after construction: its top-level tags (the text itself is released). */
  datatype ReadXml = ReadXml(tags: seq<Tag>)

  /** ReadXml::getTag(pos, name): the top-level search, the same as Tag::getTag(pos, name). */
  method GetTag(doc: ReadXml, pos: nat, name: string) returns (t: Tag, newPos: nat)
    ensures (exists i :: pos <= i < |doc.tags| && doc.tags[i].name == name) ==>
              pos < newPos <= |doc.tags| && t == doc.tags[newPos - 1] && t.name == name
              && forall i :: pos <= i < newPos - 1 ==> doc.tags[i].name != name
    ensures (forall i :: pos <= i < |doc.tags| ==> doc.tags[i].name != name) ==>
              t == EmptyTag() && newPos == Max(pos, |doc.tags|)
  {
    t, newPos := GetTagFrom(doc.tags, pos, name);
  }

  /** Following a path of names down from a tag, each step taking the first child of that name. */
  function Descend(t: Tag, path: seq<string>): Tag
    decreases |path|
  {
    if path == [] then t else Descend(FirstNamed(t.children, path[0]), path[1..])
  }

  /** Step k of a path finds no child of the wanted name. */
  predicate MissingAt(t: Tag, path: seq<string>, k: nat)
  {
    k < |path|
    && forall i :: 0 <= i < |Descend(t, path[..k]).children| ==> Descend(t, path[..k]).children[i].name != path[k]
  }

  /**
   * findData: the value of the tag the address leads to. The first name picks
   * the first top-level tag of that name (its absence is an error); each
   * further name picks the first child of that name.
   */
  method FindData(doc: ReadXml, address: seq<string>) returns (r: Result<u32, XmlError>)
    requires |address| >= 1
    ensures (forall i :: 0 <= i < |doc.tags| ==> doc.tags[i].name != address[0]) <==> r == Failure(AddressNotExist)
    ensures r.Success? ==> r.value == Descend(FirstNamed(doc.tags, address[0]), address[1..]).value
    ensures (exists i :: 0 <= i < |doc.tags| && doc.tags[i].name == address[0]) ==>
              r == Success(Descend(FirstNamed(doc.tags, address[0]), address[1..]).value)
    ensures (exists i :: 0 <= i < |doc.tags| && doc.tags[i].name == address[0]) ==>
              forall k :: MissingAt(FirstNamed(doc.tags, address[0]), address[1..], k) ==> r == Success(0)
  {
    var k := 0;
    while k < |doc.tags| && doc.tags[k].name != address[0]
      invariant k <= |doc.tags|
      invariant forall i :: 0 <= i < k ==> doc.tags[i].name != address[0]
    {
      k := k + 1;
    }
    if k == |doc.tags| {
      IndexOfNameNone(doc.tags, 0, address[0]);
      return Failure(AddressNotExist);
    }
    IndexOfNameFirst(doc.tags, 0, address[0], k);
    var t := doc.tags[k];
    var i := 1;
    while i < |address|
      invariant 1 <= i <= |address|
      invariant Descend(t, address[i..]) == Descend(FirstNamed(doc.tags, address[0]), address[1..])
    {
      assert address[i..][1..] == address[i + 1..];
      t := GetChild(t, address[i]);
      i := i + 1;
    }
    r := Success(t.value);
    forall k | MissingAt(FirstNamed(doc.tags, address[0]), address[1..], k)
      ensures r == Success(0)
    {
      DescendMissing(FirstNamed(doc.tags, address[0]), address[1..], k);
    }
  }

  /** The empty tag has no children, so descending from it stays on it. */
  lemma {:induction false} DescendEmpty(path: seq<string>)
    ensures Descend(EmptyTag(), path) == EmptyTag()
    decreases |path|
  {
    if path != [] {
      DescendEmpty(path[1..]);
    }
  }

  /** A name of the address that is not found turns the result into 0 rather than an error. */
  lemma {:induction false} DescendMissing(t: Tag, path: seq<string>, k: nat)
    requires k < |path|
    requires forall i :: 0 <= i < |Descend(t, path[..k]).children| ==> Descend(t, path[..k]).children[i].name != path[k]
    ensures Descend(t, path) == EmptyTag() && Descend(t, path).value == 0
    decreases k
  {
    if k == 0 {
      assert path[..0] == [];
      assert Descend(t, path[..0]) == t;
      IndexOfNameNone(t.children, 0, path[0]);
      DescendEmpty(path[1..]);
    } else {
      assert path[..k][1..] == path[1..][..k - 1];
      assert path[..k][0] == path[0];
      assert Descend(t, path[..k]) == Descend(FirstNamed(t.children, path[0]), path[1..][..k - 1]);
      DescendMissing(FirstNamed(t.children, path[0]), path[1..], k - 1);
    }
  }
}
