/** The print buffer and the printing functions, writing into memory that grows or was preallocated. */
module Printer {
  import opened Text
  import opened StringCodec
  import opened Numbers
  import opened Values
  import opened Grammar
  import opened Rendering
  import opened Nodes
  import Form = PrintedForm

  /** printbuffer */
  class PrintBuffer {
    var buffer: array?<Byte>
    var length: nat
    var offset: nat
    var depth: nat
    const noalloc: bool
    const format: bool
    const hooks: Heap
    /** whether a byte behind the end of a block has been copied */
    ghost var overread: bool

    constructor (buffer: array?<Byte>, length: nat, noalloc: bool, format: bool, hooks: Heap)
      ensures this.buffer == buffer && this.length == length && offset == depth == 0
      ensures this.noalloc == noalloc && this.format == format && this.hooks == hooks && !overread
    {
      this.buffer, this.length, this.noalloc, this.format, this.hooks := buffer, length, noalloc, format, hooks;
      offset, depth := 0, 0;
      overread := false;
    }

    /** The offset lies inside the block, unless the block is empty. */
    ghost predicate Ready()
      reads `buffer, `length, `offset, hooks`live
    {
      && length <= INT_MAX && this !in hooks.live && hooks !in hooks.live
      && (buffer != null ==>
            && length <= buffer.Length && (!noalloc ==> length == buffer.Length && buffer in hooks.live)
            && (offset < length || length == offset == 0))
    }

    /** A request for `needed` bytes that grows an empty block by hand, and so copies a byte that is not there. */
    ghost predicate CopiesNothing(needed: nat)
      reads `buffer, `length, hooks`requests
    {
      && buffer != null && length == 0 && !noalloc && !hooks.reallocates
      && needed + 1 <= INT_MAX && hooks.grants(hooks.requests)
    }

    /** Every block except the one that is printed into. */
    ghost function Others(): set<object>
      reads `buffer, hooks`live
    {
      hooks.live - Opt(buffer)
    }

    /** How long a text may become, with its terminator and one spare byte. */
    ghost function Limit(): nat
      reads `length
    {
      if noalloc then length else INT_MAX
    }

    /** Everything below the offset is the text emitted so far. */
    ghost predicate Emitted(s: Bytes)
      reads `buffer, `length, `offset, buffer
    {
      buffer != null && offset == |s| <= length <= buffer.Length && buffer[..offset] == s
    }

    /** The text s is complete, up to a tail behind the offset that ends in the first NUL. */
    ghost predicate Holds(s: Bytes)
      reads `buffer, `length, `offset, buffer
    {
      && buffer != null && length <= buffer.Length && offset <= |s| < length
      && buffer[..|s|] == s && buffer[|s|] == 0 && 0 !in s[offset..]
    }
  }

  /** cjson_min */
  function Min(a: nat, b: nat): nat {
    if a < b then a else b
  }

  /** What every printing function keeps: the other blocks, the limit, and a buffer that is the old one or a new one. */
  twostate predicate Kept(p: PrintBuffer)
    reads p, p.hooks
  {
    && p.Ready() && p.Others() == old(p.Others()) && p.Limit() == old(p.Limit())
    && p.hooks.requests >= old(p.hooks.requests)
    && (p.buffer != null ==> p.length >= old(p.length)) && (old(p.length) > 0 ==> p.overread == old(p.overread))
    && (p.buffer == null || p.buffer == old(p.buffer) || fresh(p.buffer))
    && (p.noalloc ==> p.buffer == old(p.buffer) && p.hooks.live == old(p.hooks.live)
                         && p.hooks.requests == old(p.hooks.requests))
  }

  /** A block that is too short gets twice the bytes that are asked for, as far as an int goes. */
  function Grown(length: nat, total: nat): nat {
    if total <= length then length else if 2 * total <= 0x7FFF_FFFF then 2 * total else 0x7FFF_FFFF
  }

  /**
   ensure. It fails exactly when the buffer would have to exceed its limit or memory is refused; otherwise the block
   has `needed` bytes and one more behind the offset, and the text below the offset is unchanged. Without realloc only
   offset + 1 bytes are copied, and the one byte too many is not there exactly when the block is empty.
   */
  method Ensure(p: PrintBuffer, needed: nat) returns (ok: bool)
    requires p.Ready()
    modifies p`buffer, p`length, p`overread, p.hooks`requests, p.hooks`live
    ensures Kept(p) && p.overread == (old(p.overread) || old(p.CopiesNothing(needed)))
    ensures ok <==> old(p.buffer) != null && p.offset + needed + 1 <= p.Limit()
                    && p.hooks.Granted(old(p.hooks.requests), p.hooks.requests)
    ensures ok ==> p.buffer != null && p.offset + needed + 1 <= p.length
                      && p.buffer[..p.offset] == old(p.buffer[..p.offset])
                   && p.length == Grown(old(p.length), p.offset + needed + 1)
  {
    if p.buffer == null {
      return false;
    }
    if p.length > 0 && p.offset >= p.length {
      return false;
    }
    if needed > INT_MAX {
      return false;
    }
    var total := needed + p.offset + 1;
    if total <= p.length {
      return true;
    }
    if p.noalloc {
      return false;
    }
    var newsize: nat;
    if total > INT_MAX / 2 {
      if total <= INT_MAX {
        newsize := INT_MAX;
      } else {
        return false;
      }
    } else {
      newsize := total * 2;
    }
    ok := Grow(p, newsize);
  }

  /** The reallocation at the end of ensure. */
  method Grow(p: PrintBuffer, newsize: nat) returns (ok: bool)
    requires p.Ready() && p.buffer != null && !p.noalloc && p.offset < newsize <= INT_MAX && p.length < newsize
    modifies p`buffer, p`length, p`overread, p.hooks`requests, p.hooks`live
    ensures Kept(p) && p.hooks.requests == old(p.hooks.requests) + 1
    ensures p.overread <==> old(p.overread) || (!p.hooks.reallocates && p.hooks.grants(old(p.hooks.requests))
                            && old(p.length) == 0)
    ensures ok <==> p.hooks.grants(old(p.hooks.requests))
    ensures ok ==> p.buffer != null && p.length == newsize && p.buffer[..p.offset] == old(p.buffer[..p.offset])
  {
    var newbuffer;
    if p.hooks.reallocates {
      newbuffer := p.hooks.Realloc(p.buffer, newsize);
      if newbuffer == null {
        p.hooks.Free(p.buffer);
        p.length := 0;
        p.buffer := null;
        return false;
      }
    } else {
      newbuffer := p.hooks.NewBytes(newsize);
      if newbuffer == null {
        p.hooks.Free(p.buffer);
        p.length := 0;
        p.buffer := null;
        return false;
      }
      p.overread := p.overread || p.offset + 1 > p.buffer.Length;
      CopyBytes(newbuffer, 0, p.buffer, Min(p.offset + 1, p.buffer.Length));
      p.hooks.Free(p.buffer);
    }
    p.length := newsize;
    p.buffer := newbuffer;
    ok := true;
  }

  /** update_offset */
  method UpdateOffset(p: PrintBuffer, ghost s: Bytes)
    requires p.Ready() && p.Holds(s)
    modifies p`offset
    ensures p.Ready() && p.Emitted(s) && p.offset < p.length && p.buffer[p.offset] == 0
  {
    assert p.buffer[p.offset..][|s| - p.offset] == p.buffer[|s|];
    var n := StrLen(p.buffer, p.offset);
    assert p.buffer[p.offset..|s|] == s[p.offset..];
    CStrIs(p.buffer[p.offset..], |s| - p.offset);
    p.offset := p.offset + n;
  }

  // ---------- strings ----------

  /** The outcome of printing up to the text s: it fits into the limit and memory is granted, or nothing is promised. */
  twostate predicate Printed(p: PrintBuffer, ok: bool, s: Bytes)
    reads p, p.hooks, p.buffer
  {
    && Kept(p)
    && (ok <==> |s| + 2 <= old(p.Limit()) && p.hooks.Granted(old(p.hooks.requests), p.hooks.requests))
    && (ok ==> p.Holds(s))
  }

  /** strcpy to the offset. */
  method StoreString(p: PrintBuffer, text: Bytes, ghost s: Bytes)
    requires p.Ready() && p.Emitted(s) && p.offset + |text| < p.length && 0 !in text
    modifies p.buffer
    ensures p.Holds(s + text)
  {
    var i := 0;
    while i < |text|
      invariant i <= |text| && p.buffer[..p.offset + i] == s + text[..i]
    {
      PutByte(p.buffer, p.offset + i, text[i]);
      assert text[..i + 1] == text[..i] + [text[i]];
      i := i + 1;
    }
    assert text[..i] == text;
    PutNul(p.buffer, p.offset + i);
    Behind(s, text);
  }

  /** The first pass of print_string_ptr: the length of the string, and how many bytes escaping adds. */
  method MeasureEscapes(input: array<Byte>, ghost t: Bytes) returns (n: nat, extra: nat)
    requires Spells(input, t)
    ensures n == |t| && extra == EscapeExtra(t)
  {
    n, extra := 0, 0;
    assert forall k | 0 <= k < |t| :: input[k] == input[..|t|][k] != 0;
    while input[n] != NUL
      invariant n <= |t| && extra == EscapeExtra(t[..n])
      decreases |t| - n
    {
      ExtraSnoc(t, n);
      var b := input[n];
      if b == QUOTE || b == BACKSLASH || b == BS || b == FF || b == LF || b == CR || b == TAB {
        extra := extra + 1;
      } else if b < 32 {
        extra := extra + 5;
      }
      n := n + 1;
    }
    assert t[..n] == t;
  }

  /** Stores the bytes of a short text in front of `at + |text|`. */
  method PutBytes(a: array<Byte>, at: nat, text: Bytes)
    requires at + |text| <= a.Length
    modifies a
    ensures a[..at + |text|] == old(a[..at]) + text
  {
    var i := 0;
    while i < |text|
      invariant i <= |text| && a[..at + i] == old(a[..at]) + text[..i]
    {
      PutByte(a, at + i, text[i]);
      assert text[..i + 1] == text[..i] + [text[i]];
      i := i + 1;
    }
    assert text[..i] == text;
  }

  /** The body of the escaping loop; sprintf leaves a terminator behind its four digits. */
  method WriteEscape(out: array<Byte>, at: nat, b: Byte) returns (next: nat)
    requires b != NUL && at + |EscapeByte(b)| < out.Length
    modifies out
    ensures next == at + |EscapeByte(b)| && out[..next] == old(out[..at]) + EscapeByte(b)
  {
    if b > 31 && b != QUOTE && b != BACKSLASH {
      PutByte(out, at, b);
      next := at + 1;
      return;
    }
    PutByte(out, at, BACKSLASH);
    next := at + 1;
    var code: Byte := if b == BACKSLASH || b == QUOTE then b else if b == BS then 98 else if b == FF then 102
                      else if b == LF then 110 else if b == CR then 114 else if b == TAB then 116 else 117;
    PutByte(out, next, code);
    next := next + 1;
    if code == 117 {
      PutBytes(out, next, [48, 48, LowHexDigit(b / 16), LowHexDigit(b % 16)]);
      PutNul(out, next + 4);
      next := next + 4;
    }
  }

  /** The escaping loop of print_string_ptr. */
  method WriteEscapes(out: array<Byte>, at: nat, input: array<Byte>, ghost t: Bytes)
    requires Spells(input, t) && out != input && at + |Escape(t)| < out.Length
    modifies out
    ensures out[..at + |Escape(t)|] == old(out[..at]) + Escape(t)
  {
    hide EscapeByte, Escape;
    var i: nat, o := 0, at;
    ghost var pre := out[..at];
    assert forall k | 0 <= k < |t| :: input[k] == input[..|t|][k] != 0;
    assert t[..0] == [] && Escape([]) == [] by { EscapeSize([]); }
    while input[i] != NUL
      invariant i <= |t| && o == at + |Escape(t[..i])| <= at + |Escape(t)| && out[..o] == pre + Escape(t[..i])
      decreases |t| - i
    {
      EscapeSnoc(t[..i], t[i]);
      EscapeConcat(t[..i + 1], t[i + 1..]);
      assert t[..i + 1] == t[..i] + [t[i]] && t == t[..i + 1] + t[i + 1..];
      o := WriteEscape(out, o, input[i]);
      i := i + 1;
    }
    assert t[..i] == t;
  }

  /** print_string_ptr; the length that the first pass computes is the length that the second pass writes. */
  method PrintStringPtr(input: array?<Byte>, p: PrintBuffer, ghost s: Bytes, ghost t: Bytes) returns (ok: bool)
    requires p.Ready() && p.Emitted(s)
    requires if input == null then t == [] else Spells(input, t) && input != p.buffer
    modifies p`buffer, p`length, p`overread, p.buffer, p.hooks`requests, p.hooks`live
    ensures p.overread == (old(p.overread) || old(p.CopiesNothing(|Quoted(Escape(t))| + 1)))
    ensures Printed(p, ok, s + Quoted(Escape(t)))
  {
    hide Spells, EscapeExtra, Escape;
    EscapeSize(t);
    if input == null {
      assert Quoted(Escape(t)) == [QUOTE, QUOTE] by { EmptyLiteral(); }
      ok := Ensure(p, 3);
      if ok {
        StoreString(p, [QUOTE, QUOTE], s);
      }
      return;
    }
    var n, extra := MeasureEscapes(input, t);
    ok := Ensure(p, n + extra + 3);
    if ok {
      WriteQuoted(input, p, n, extra, s, t);
    }
  }

  lemma EmptyLiteral()
    ensures Quoted(Escape([])) == [QUOTE, QUOTE]
  {
  }

  /** The second pass: the fast path when nothing is escaped, and the loop. */
  method WriteQuoted(input: array<Byte>, p: PrintBuffer, n: nat, extra: nat, ghost s: Bytes, ghost t: Bytes)
    requires p.Ready() && p.Emitted(s) && Spells(input, t) && input != p.buffer
    requires n == |t| && extra == EscapeExtra(t) && p.offset + n + extra + 4 <= p.length
    modifies p.buffer
    ensures p.Holds(s + Quoted(Escape(t)))
  {
    hide EscapeExtra, Escape, Quoted;
    var out := p.buffer;
    EscapeSize(t);
    EscapeNulFree(t);
    QuotedParts(s, Escape(t));
    PutByte(out, p.offset, QUOTE);
    if extra == 0 {
      CopyBytes(out, p.offset + 1, input, n);
    } else {
      WriteEscapes(out, p.offset + 1, input, t);
    }
    var end := p.offset + 1 + (n + extra);
    assert out[..end] == s + [QUOTE] + Escape(t);
    PutByte(out, end, QUOTE);
    PutNul(out, end + 1);
    Behind(s, Quoted(Escape(t)));
  }

  lemma QuotedParts(s: Bytes, x: Bytes)
    ensures s + Quoted(x) == (s + [QUOTE] + x) + [QUOTE] && |Quoted(x)| == |x| + 2
    ensures 0 !in x ==> 0 !in Quoted(x)
  {
  }

  // ---------- numbers, words and raw text ----------

  /** print_number on plain numbers, for which sprintf is PrintInt and its 15 digits recover the number. */
  method PrintNumber(item: Node, p: PrintBuffer, ghost s: Bytes) returns (ok: bool)
    requires p.Ready() && p.Emitted(s) && IsPlain(item.valuedouble)
    modifies p`buffer, p`length, p`overread, p`offset, p.buffer, p.hooks`requests, p.hooks`live
    ensures p.overread == (old(p.overread) || old(p.CopiesNothing(|PrintInt(item.valuedouble.Floor)| + 1)))
    ensures Printed(p, ok, s + PrintInt(item.valuedouble.Floor))
  {
    hide PrintInt, IsLexeme, NumberValue;
    var text := PrintInt(item.valuedouble.Floor);
    PrintIntRoundTrip(item.valuedouble.Floor);
    ok := Ensure(p, |text| + 1);
    if !ok {
      return;
    }
    PutBytes(p.buffer, p.offset, text);
    PutNul(p.buffer, p.offset + |text|);
    p.offset := p.offset + |text|;
  }

  method PrintWord(word: Bytes, p: PrintBuffer, ghost s: Bytes) returns (ok: bool)
    requires p.Ready() && p.Emitted(s) && 0 !in word
    modifies p`buffer, p`length, p`overread, p.buffer, p.hooks`requests, p.hooks`live
    ensures p.overread == (old(p.overread) || old(p.CopiesNothing(|word| + 1)))
    ensures Printed(p, ok, s + word)
  {
    ok := Ensure(p, |word| + 1);
    if ok {
      StoreString(p, word, s);
    }
  }

  method PrintRaw(text: array<Byte>, p: PrintBuffer, ghost s: Bytes, ghost t: Bytes) returns (ok: bool)
    requires p.Ready() && p.Emitted(s) && Spells(text, t) && text != p.buffer
    modifies p`buffer, p`length, p`overread, p.buffer, p.hooks`requests, p.hooks`live
    ensures p.overread == (old(p.overread) || old(p.CopiesNothing(|t| + 1)))
    ensures Printed(p, ok, s + t)
  {
    hide Spells;
    SpellsStrLen(text, t);
    var n := StrLen(text, 0);
    ok := Ensure(p, n + 1);
    if !ok {
      return;
    }
    StoreRaw(text, n, p, s, t);
  }

  /** memcpy of a string with its terminator. */
  method StoreRaw(text: array<Byte>, n: nat, p: PrintBuffer, ghost s: Bytes, ghost t: Bytes)
    requires p.Emitted(s) && Spells(text, t) && text != p.buffer && n == |t| && p.offset + n < p.length
    modifies p.buffer
    ensures p.Holds(s + t)
  {
    CopyBytes(p.buffer, p.offset, text, n + 1);
    RawIsThere(p.buffer[..p.offset + n + 1], text[..n + 1], s, t);
    Behind(s, t);
  }

  lemma RawIsThere(after: Bytes, copied: Bytes, s: Bytes, t: Bytes)
    requires after == s + copied && |copied| == |t| + 1 && copied[..|t|] == t && copied[|t|] == 0
    ensures after[..|s + t|] == s + t && after[|s + t|] == 0
  {
  }

  lemma SpellsStrLen(a: array<Byte>, s: Bytes)
    requires Spells(a, s)
    ensures NUL in a[0..] && CStr(a[0..]) == s
  {
    assert a[0..][|s|] == 0 && a[0..][..|s|] == s;
    CStrIs(a[0..], |s|);
  }

  // ---------- arrays ----------

  /** A step on the way to a longer text: when it fails, no text as long as e fits or memory was refused. */
  twostate predicate Step(p: PrintBuffer, ok: bool, e: Bytes)
    reads p, p.hooks, p.buffer
  {
    && Kept(p)
    && (ok ==> p.Emitted(e) && p.hooks.Granted(old(p.hooks.requests), p.hooks.requests))
    && (!ok && p.hooks.Granted(old(p.hooks.requests), p.hooks.requests) ==> |e| + 2 > old(p.Limit()))
  }

  /** Stores punctuation, with or without a terminator behind it, and moves the offset. */
  method Emit(p: PrintBuffer, text: Bytes, spare: nat, terminate: bool, ghost s: Bytes) returns (ok: bool)
    requires p.Ready() && p.Emitted(s) && spare <= 1
    modifies p`buffer, p`length, p`overread, p`offset, p.buffer, p.hooks`requests, p.hooks`live
    ensures p.overread == (old(p.overread) || old(p.CopiesNothing(|text| + spare)))
    ensures Step(p, ok, s + text)
  {
    ok := Ensure(p, |text| + spare);
    if ok {
      PutBytes(p.buffer, p.offset, text);
      if terminate {
        PutNul(p.buffer, p.offset + |text|);
      }
      p.offset := p.offset + |text|;
    }
  }

  ghost predicate AllPrintable(es: seq<Value>) {
    forall k | 0 <= k < |es| :: Printable(es[k])
  }

  /** What stands between an element and the next one. */
  function Between(last: bool, format: bool): Bytes {
    if last then [] else [COMMA] + Fmt(format, [SPACE])
  }

  lemma PrintableParts(v: Value)
    requires Printable(v)
    ensures v.Number? ==> IsPlain(v.n)
    ensures v.Array? ==> AllPrintable(v.elems)
    ensures v.Object? ==> MembersPrintable(v.members)
  {
  }

  /** The size of the first request that printing a value makes. */
  ghost function FirstRequest(v: Value, format: bool): nat {
    match v
    case Array(_) => 1
    case Object(_) => if format then 3 else 2
    case _ => |Render(v, format, 0)| + 1
  }

  /**
   print_value. The text it leaves in the buffer is what was there followed by the rendering of the value, and it
   succeeds exactly when that text, its terminator and one spare byte fit and memory is granted.
   */
  method PrintValue(item: Node, p: PrintBuffer, ghost t: Tree, ghost v: Value, ghost s: Bytes) returns (ok: bool)
    requires p.Ready() && p.Emitted(s) && Foot(t) <= p.Others()
    requires t.node == item && Shaped(t) && Means(t, v) && Printable(v)
    modifies p`buffer, p`length, p`overread, p`offset, p`depth, p.buffer, p.hooks`requests, p.hooks`live
    ensures p.overread == (old(p.overread) || old(p.CopiesNothing(FirstRequest(v, p.format))))
    ensures Printed(p, ok, s + Render(v, p.format, old(p.depth)))
    ensures ok ==> p.depth == old(p.depth)
    decreases t, 3
  {
    hide Foot, FootAll, Linked, ShapedAll, MeanAll, NamedAll, RenderElems, RenderMembers, Spells, Escape, Quoted,
      PrintInt, Printable;
    PartsOfTree(t, v);
    PrintableParts(v);
    match item.kind {
      case NullKind => ok := PrintWord(NULL_WORD, p, s);
      case FalseKind => ok := PrintWord(FALSE_WORD, p, s);
      case TrueKind => ok := PrintWord(TRUE_WORD, p, s);
      case NumberKind => ok := PrintNumber(item, p, s);
      case RawKind => ok := PrintRaw(item.valuestring, p, s, v.s);
      case StringKind => ok := PrintStringPtr(item.valuestring, p, s, v.s);
      case ArrayKind => ok := PrintArray(item, p, t, v.elems, s);
      case ObjectKind => ok := PrintObject(item, p, t, v.members, s);
      case Invalid =>
    }
  }

  /** One turn of the loop of print_array. */
  method PrintElement(p: PrintBuffer, current: Node, ghost ks: seq<Tree>, ghost i: nat, ghost es: seq<Value>,
                      ghost e: Bytes)
    returns (ok: bool)
    requires p.Ready() && p.Emitted(e) && FootAll(ks) <= p.Others()
    requires i < |ks| && current == ks[i].node && Linked(ks) && ShapedAll(ks) && MeanAll(ks, es) && AllPrintable(es)
    modifies p`buffer, p`length, p`overread, p`offset, p`depth, p.buffer, p.hooks`requests, p.hooks`live
    ensures Step(p, ok, (e + Render(es[i], p.format, old(p.depth))) + Between(i + 1 == |ks|, p.format))
    ensures ok ==> p.depth == old(p.depth)
    decreases ks, 0
  {
    hide Foot, Shaped, Means, Render, FootAll, Printable;
    FootSplit(ks, i);
    assert LinkedAt(ks, i);
    ghost var r := Render(es[i], p.format, p.depth);
    ok := PrintValue(current, p, ks[i], es[i], e);
    if !ok {
      return;
    }
    UpdateOffset(p, e + r);
    assert (e + r) + [] == e + r;
    if current.next != null {
      label L:
      ok := Emit(p, if p.format then [COMMA, SPACE] else [COMMA], 1, true, e + r);
      GrantedSplit(p.hooks, old(p.hooks.requests), old@L(p.hooks.requests), p.hooks.requests);
    }
  }

  lemma RenderElemsStep(es: seq<Value>, i: nat, format: bool, depth: nat)
    requires i < |es|
    ensures RenderElems(es[i..], format, depth)
         == (Render(es[i], format, depth) + Between(i + 1 == |es|, format)) + RenderElems(es[i + 1..], format, depth)
  {
    hide Render;
    var rest := es[i + 1..];
    assert es[i..][0] == es[i] && es[i..][1..] == rest;
    if rest != [] {
      MoreElems(rest, format, depth);
    }
  }

  /** The text before the rest of a list, one turn later. */
  lemma RegroupTurn(e: Bytes, x: Bytes, b: Bytes, rest: Bytes)
    ensures e + ((x + b) + rest) == ((e + x) + b) + rest && |((e + x) + b)| <= |e + ((x + b) + rest)|
  {
  }

  /** The loop of print_array. */
  method PrintElements(p: PrintBuffer, first: Node?, ghost ks: seq<Tree>, ghost es: seq<Value>,
                       ghost e0: Bytes) returns (ok: bool)
    requires p.Ready() && p.Emitted(e0) && FootAll(ks) <= p.Others()
    requires first == First(ks) && Linked(ks) && ShapedAll(ks) && MeanAll(ks, es) && AllPrintable(es)
    modifies p`buffer, p`length, p`overread, p`offset, p`depth, p.buffer, p.hooks`requests, p.hooks`live
    ensures Step(p, ok, e0 + RenderElems(es, p.format, old(p.depth)))
    ensures ok ==> p.depth == old(p.depth)
    decreases ks, 1
  {
    hide ShapedAll, MeanAll, RenderElems, Render, FootAll, AllPrintable;
    ghost var d := p.depth;
    ghost var full := e0 + RenderElems(es, p.format, d);
    ghost var i, e := 0, e0;
    var current := first;
    MeanLength(ks, es);
    RestsInFoot(ks);
    assert es[0..] == es;
    while current != null
      invariant i <= |ks| && current == (if i < |ks| then ks[i].node else null)
      invariant Kept(p) && p.hooks.Granted(old(p.hooks.requests), p.hooks.requests) && p.depth == d
      invariant p.Emitted(e) && full == e + RenderElems(es[i..], p.format, d)
      invariant Linked(ks) && ShapedAll(ks) && MeanAll(ks, es)
      decreases |ks| - i
    {
      RenderElemsStep(es, i, p.format, d);
      ghost var x, b := Render(es[i], p.format, d), Between(i + 1 == |ks|, p.format);
      RegroupTurn(e, x, b, RenderElems(es[i + 1..], p.format, d));
      label L:
      ok := PrintElement(p, current, ks, i, es, e);
      GrantedSplit(p.hooks, old(p.hooks.requests), old@L(p.hooks.requests), p.hooks.requests);
      if !ok {
        return;
      }
      assert LinkedAt(ks, i);
      current := current.next;
      i, e := i + 1, (e + x) + b;
    }
    NoRendering(p.format, d);
    assert es[i..] == [] && e + [] == e;
    ok := true;
  }

  lemma Bracketed(s: Bytes, open: Bytes, body: Bytes, close: Bytes)
    ensures s + (open + body + close) == ((s + open) + body) + close
    ensures |s + (open + body + close)| == |s| + |open| + |body| + |close|
  {
  }

  /** print_array */
  method PrintArray(item: Node, p: PrintBuffer, ghost t: Tree, ghost es: seq<Value>, ghost s: Bytes) returns (ok: bool)
    requires p.Ready() && p.Emitted(s) && FootAll(t.kids) <= p.Others()
    requires item.child == First(t.kids) && Linked(t.kids) && ShapedAll(t.kids) && MeanAll(t.kids, es)
             && AllPrintable(es)
    modifies p`buffer, p`length, p`overread, p`offset, p`depth, p.buffer, p.hooks`requests, p.hooks`live
    ensures p.overread == (old(p.overread) || old(p.CopiesNothing(1)))
    ensures Printed(p, ok, s + ([LBRACKET] + RenderElems(es, p.format, old(p.depth) + 1) + [RBRACKET]))
    ensures ok ==> p.depth == old(p.depth)
    decreases t.kids, 3
  {
    hide Linked, ShapedAll, MeanAll, RenderElems, FootAll, AllPrintable;
    RestsInFoot(t.kids);
    ghost var body := RenderElems(es, p.format, p.depth + 1);
    Bracketed(s, [LBRACKET], body, [RBRACKET]);
    ok := Emit(p, [LBRACKET], 0, false, s);
    if !ok {
      return;
    }
    p.depth := p.depth + 1;
    label L:
    ok := PrintArrayTail(item, p, t, es, s + [LBRACKET]);
    GrantedSplit(p.hooks, old(p.hooks.requests), old@L(p.hooks.requests), p.hooks.requests);
  }

  /** What follows the opening bracket. */
  method PrintArrayTail(item: Node, p: PrintBuffer, ghost t: Tree, ghost es: seq<Value>,
                        ghost s: Bytes) returns (ok: bool)
    requires p.Ready() && p.Emitted(s) && FootAll(t.kids) <= p.Others() && p.depth > 0
    requires item.child == First(t.kids) && Linked(t.kids) && ShapedAll(t.kids) && MeanAll(t.kids, es)
             && AllPrintable(es)
    modifies p`buffer, p`length, p`overread, p`offset, p`depth, p.buffer, p.hooks`requests, p.hooks`live
    ensures Printed(p, ok, (s + RenderElems(es, p.format, old(p.depth))) + [RBRACKET])
    ensures ok ==> p.depth == old(p.depth) - 1
    decreases t.kids, 2
  {
    hide Linked, ShapedAll, MeanAll, RenderElems, FootAll, AllPrintable;
    ghost var e := s + RenderElems(es, p.format, p.depth);
    ok := PrintElements(p, item.child, t.kids, es, s);
    if !ok {
      return;
    }
    label L:
    ok := PrintWord([RBRACKET], p, e);
    GrantedSplit(p.hooks, old(p.hooks.requests), old@L(p.hooks.requests), p.hooks.requests);
    if ok {
      p.depth := p.depth - 1;
    }
  }

  // ---------- objects ----------

  ghost predicate MembersPrintable(ms: seq<Member>) {
    forall k | 0 <= k < |ms| :: Printable(ms[k].value)
  }

  /** What stands behind a member. */
  function BehindMember(last: bool, format: bool): Bytes {
    (if last then [] else [COMMA]) + Fmt(format, [LF])
  }

  /** The indentation of a member. */
  method PrintIndent(p: PrintBuffer, ghost e: Bytes) returns (ok: bool)
    requires p.Ready() && p.Emitted(e)
    modifies p`buffer, p`length, p`overread, p`offset, p.buffer, p.hooks`requests, p.hooks`live
    ensures Step(p, ok, e + Fmt(p.format, Tabs(p.depth)))
  {
    if p.format {
      ok := Emit(p, Tabs(p.depth), 0, false, e);
    } else {
      assert e + [] == e;
      ok := true;
    }
  }

  /** The name of a member with its colon. */
  method PrintKey(current: Node, p: PrintBuffer, ghost key: Bytes, ghost e: Bytes) returns (ok: bool)
    requires p.Ready() && p.Emitted(e) && Spells(current.name, key) && current.name in p.Others()
    modifies p`buffer, p`length, p`overread, p`offset, p.buffer, p.hooks`requests, p.hooks`live
    ensures Step(p, ok, e + RenderKey(key, p.format, p.depth))
  {
    hide Spells, Quoted, Escape, Tabs;
    ghost var e1 := e + Fmt(p.format, Tabs(p.depth));
    KeyParts(e, Fmt(p.format, Tabs(p.depth)), Quoted(Escape(key)), [COLON], Fmt(p.format, [TAB]));
    ok := PrintIndent(p, e);
    if !ok {
      return;
    }
    label L:
    ok := PrintName(current, p, key, e1);
    GrantedSplit(p.hooks, old(p.hooks.requests), old@L(p.hooks.requests), p.hooks.requests);
  }

  lemma KeyParts(e: Bytes, indent: Bytes, name: Bytes, colon: Bytes, tab: Bytes)
    ensures e + (indent + name + colon + tab) == ((e + indent) + name) + (colon + tab)
    ensures |e + (indent + name + colon + tab)| == |e| + |indent| + |name| + |colon| + |tab|
  {
  }

  method PrintName(current: Node, p: PrintBuffer, ghost key: Bytes, ghost e: Bytes) returns (ok: bool)
    requires p.Ready() && p.Emitted(e) && Spells(current.name, key) && current.name in p.Others()
    modifies p`buffer, p`length, p`overread, p`offset, p.buffer, p.hooks`requests, p.hooks`live
    ensures Step(p, ok, (e + Quoted(Escape(key))) + ([COLON] + Fmt(p.format, [TAB])))
  {
    hide Spells, Quoted, Escape;
    ok := PrintStringPtr(current.name, p, e, key);
    if !ok {
      return;
    }
    UpdateOffset(p, e + Quoted(Escape(key)));
    label L:
    ok := Emit(p, [COLON] + Fmt(p.format, [TAB]), 0, false, e + Quoted(Escape(key)));
    GrantedSplit(p.hooks, old(p.hooks.requests), old@L(p.hooks.requests), p.hooks.requests);
  }

  /** The value of a member and what stands behind it. */
  method PrintMemberValue(current: Node, p: PrintBuffer, ghost t: Tree, ghost v: Value,
                          ghost e: Bytes) returns (ok: bool)
    requires p.Ready() && p.Emitted(e) && Foot(t) <= p.Others()
    requires t.node == current && Shaped(t) && Means(t, v) && Printable(v)
    modifies p`buffer, p`length, p`overread, p`offset, p`depth, p.buffer, p.hooks`requests, p.hooks`live
    ensures Step(p, ok, (e + Render(v, p.format, old(p.depth))) + BehindMember(current.next == null, p.format))
    ensures ok ==> p.depth == old(p.depth)
    decreases t, 4
  {
    hide Foot, Shaped, Means, Render, Printable;
    ghost var r := Render(v, p.format, p.depth);
    ok := PrintValue(current, p, t, v, e);
    if !ok {
      return;
    }
    UpdateOffset(p, e + r);
    label L:
    ok := Emit(p, (if current.next != null then [COMMA] else []) + (if p.format then [LF] else []), 1, true, e + r);
    GrantedSplit(p.hooks, old(p.hooks.requests), old@L(p.hooks.requests), p.hooks.requests);
  }

  /** One turn of the loop of print_object. */
  method PrintMember(p: PrintBuffer, current: Node, ghost ks: seq<Tree>, ghost i: nat, ghost ms: seq<Member>,
                     ghost e: Bytes)
    returns (ok: bool)
    requires p.Ready() && p.Emitted(e) && FootAll(ks) <= p.Others()
    requires i < |ks| && current == ks[i].node && Linked(ks) && ShapedAll(ks) && NamedAll(ks, ms)
             && MembersPrintable(ms)
    modifies p`buffer, p`length, p`overread, p`offset, p`depth, p.buffer, p.hooks`requests, p.hooks`live
    ensures Step(p, ok, ((e + RenderKey(ms[i].key, p.format, old(p.depth))) + Render(ms[i].value, p.format,
            old(p.depth)))
                        + BehindMember(i + 1 == |ks|, p.format))
    ensures ok ==> p.depth == old(p.depth)
    decreases ks, 0
  {
    hide Foot, Means, Render, RenderKey, FootAll, Printable, Spells;
    FootSplit(ks, i);
    assert LinkedAt(ks, i);
    NameInFoot(ks[i], ms[i].key);
    FootOfRest(ks[i]);
    ok := PrintKey(current, p, ms[i].key, e);
    if !ok {
      return;
    }
    label L:
    ok := PrintMemberValue(current, p, ks[i], ms[i].value, e + RenderKey(ms[i].key, p.format, p.depth));
    GrantedSplit(p.hooks, old(p.hooks.requests), old@L(p.hooks.requests), p.hooks.requests);
  }

  lemma NameInFoot(t: Tree, key: Bytes)
    requires Shaped(t) && KeyIs(t, Some(key))
    ensures t.name != null && t.node.name == t.name && t.name in Foot(t) && Spells(t.node.name, key)
  {
  }

  lemma RenderMembersStep(ms: seq<Member>, i: nat, format: bool, depth: nat)
    requires i < |ms|
    ensures RenderMembers(ms[i..], format, depth)
         == (RenderKey(ms[i].key, format, depth) + Render(ms[i].value, format, depth) + BehindMember(i + 1 == |ms|,
           format))
            + RenderMembers(ms[i + 1..], format, depth)
  {
    hide Render, RenderKey;
    assert ms[i..][0] == ms[i] && ms[i..][1..] == ms[i + 1..];
    var k, x := RenderKey(ms[i].key, format, depth), Render(ms[i].value, format, depth);
    var c: Bytes := if i + 1 == |ms| then [] else [COMMA];
    RegroupBehind(k + x, c, Fmt(format, [LF]), RenderMembers(ms[i + 1..], format, depth));
  }

  lemma RegroupBehind(x: Bytes, c: Bytes, line: Bytes, rest: Bytes)
    ensures x + c + line + rest == (x + (c + line)) + rest
  {
  }

  lemma RegroupMemberText(e: Bytes, k: Bytes, x: Bytes, b: Bytes, rest: Bytes)
    ensures e + ((k + x + b) + rest) == (((e + k) + x) + b) + rest
    ensures |((e + k) + x) + b| <= |e + ((k + x + b) + rest)|
  {
  }

  /** The loop of print_object. */
  method PrintMembers(p: PrintBuffer, first: Node?, ghost ks: seq<Tree>, ghost ms: seq<Member>,
                      ghost e0: Bytes) returns (ok: bool)
    requires p.Ready() && p.Emitted(e0) && FootAll(ks) <= p.Others()
    requires first == First(ks) && Linked(ks) && ShapedAll(ks) && NamedAll(ks, ms) && MembersPrintable(ms)
    modifies p`buffer, p`length, p`overread, p`offset, p`depth, p.buffer, p.hooks`requests, p.hooks`live
    ensures Step(p, ok, e0 + RenderMembers(ms, p.format, old(p.depth)))
    ensures ok ==> p.depth == old(p.depth)
    decreases ks, 1
  {
    hide ShapedAll, NamedAll, RenderMembers, RenderKey, Render, FootAll, MembersPrintable, BehindMember;
    ghost var d := p.depth;
    ghost var full := e0 + RenderMembers(ms, p.format, d);
    ghost var i, e := 0, e0;
    var current := first;
    NamedLength(ks, ms);
    RestsInFoot(ks);
    assert ms[0..] == ms;
    while current != null
      invariant i <= |ks| && current == (if i < |ks| then ks[i].node else null)
      invariant Kept(p) && p.hooks.Granted(old(p.hooks.requests), p.hooks.requests) && p.depth == d
      invariant p.Emitted(e) && full == e + RenderMembers(ms[i..], p.format, d)
      invariant Linked(ks) && ShapedAll(ks) && NamedAll(ks, ms)
      decreases |ks| - i
    {
      RenderMembersStep(ms, i, p.format, d);
      ghost var k, x := RenderKey(ms[i].key, p.format, d), Render(ms[i].value, p.format, d);
      ghost var b := BehindMember(i + 1 == |ks|, p.format);
      RegroupMemberText(e, k, x, b, RenderMembers(ms[i + 1..], p.format, d));
      label L:
      ok := PrintMember(p, current, ks, i, ms, e);
      GrantedSplit(p.hooks, old(p.hooks.requests), old@L(p.hooks.requests), p.hooks.requests);
      if !ok {
        return;
      }
      assert LinkedAt(ks, i);
      current := current.next;
      i, e := i + 1, ((e + k) + x) + b;
    }
    NoRendering(p.format, d);
    assert ms[i..] == [] && e + [] == e;
    ok := true;
  }

  /** print_object */
  method PrintObject(item: Node, p: PrintBuffer, ghost t: Tree, ghost ms: seq<Member>,
                     ghost s: Bytes) returns (ok: bool)
    requires p.Ready() && p.Emitted(s) && FootAll(t.kids) <= p.Others()
    requires item.child == First(t.kids) && Linked(t.kids) && ShapedAll(t.kids) && NamedAll(t.kids, ms)
             && MembersPrintable(ms)
    modifies p`buffer, p`length, p`overread, p`offset, p`depth, p.buffer, p.hooks`requests, p.hooks`live
    ensures p.overread == (old(p.overread) || old(p.CopiesNothing(if p.format then 3 else 2)))
    ensures Printed(p, ok, s + Render(Object(ms), p.format, old(p.depth)))
    ensures ok ==> p.depth == old(p.depth)
    decreases t.kids, 3
  {
    hide Linked, ShapedAll, NamedAll, Render, RenderMembers, FootAll, MembersPrintable, Tabs, Fmt;
    RestsInFoot(t.kids);
    var open := [LBRACE] + Fmt(p.format, [LF]);
    ObjectText(s, open, ms, p.format, p.depth);
    ok := Emit(p, open, 1, false, s);
    if !ok {
      return;
    }
    p.depth := p.depth + 1;
    label L:
    ok := PrintObjectTail(item, p, t, ms, s + open);
    GrantedSplit(p.hooks, old(p.hooks.requests), old@L(p.hooks.requests), p.hooks.requests);
  }

  /** The rendering of an object behind a text: the opening, the members and the rest. */
  lemma ObjectText(s: Bytes, open: Bytes, ms: seq<Member>, format: bool, depth: nat)
    requires open == [LBRACE] + Fmt(format, [LF])
    ensures |open| == (if format then 2 else 1)
    ensures s + Render(Object(ms), format, depth)
         == ((s + open) + RenderMembers(ms, format, depth + 1)) + (Fmt(format, Tabs(depth)) + [RBRACE])
  {
    hide RenderMembers, Tabs;
    Braced(s, [LBRACE], Fmt(format, [LF]), RenderMembers(ms, format, depth + 1), Fmt(format, Tabs(depth)), [RBRACE]);
  }

  lemma Braced(s: Bytes, open: Bytes, line: Bytes, body: Bytes, indent: Bytes, close: Bytes)
    ensures s + (open + line + body + indent + close) == ((s + (open + line)) + body) + (indent + close)
  {
  }

  /** What follows the opening brace. */
  method PrintObjectTail(item: Node, p: PrintBuffer, ghost t: Tree, ghost ms: seq<Member>,
                         ghost s: Bytes) returns (ok: bool)
    requires p.Ready() && p.Emitted(s) && FootAll(t.kids) <= p.Others() && p.depth > 0
    requires item.child == First(t.kids) && Linked(t.kids) && ShapedAll(t.kids) && NamedAll(t.kids, ms)
             && MembersPrintable(ms)
    modifies p`buffer, p`length, p`overread, p`offset, p`depth, p.buffer, p.hooks`requests, p.hooks`live
    ensures Printed(p, ok, (s + RenderMembers(ms, p.format, old(p.depth))) + (Fmt(p.format,
            Tabs(old(p.depth) - 1)) + [RBRACE]))
    ensures ok ==> p.depth == old(p.depth) - 1
    decreases t.kids, 2
  {
    hide Linked, ShapedAll, NamedAll, RenderMembers, FootAll, MembersPrintable;
    ghost var e := s + RenderMembers(ms, p.format, p.depth);
    ok := PrintMembers(p, item.child, t.kids, ms, s);
    if !ok {
      return;
    }
    label L:
    ok := PrintWord((if p.format then Tabs(p.depth - 1) else []) + [RBRACE], p, e);
    GrantedSplit(p.hooks, old(p.hooks.requests), old@L(p.hooks.requests), p.hooks.requests);
    if ok {
      p.depth := p.depth - 1;
    }
  }

  // ---------- whole texts ----------

  /** What the printing functions take: nothing, or an item that denotes v and whose blocks are live. */
  ghost predicate Input(h: Heap, item: Node?, t: Option<Tree>, v: Value)
    reads h`live
    reads match t case None => {} case Some(u) => Foot(u)
  {
    h !in h.live &&
    match t
    case None => item == null
    case Some(u) =>
      FootOfRest(u);
      u.node == item && Foot(u) <= h.live && Shaped(u) && Means(u, v) && Printable(v)
  }

  const DEFAULT_BUFFER_SIZE: nat := 256

  /**
   print, behind cJSON_Print and cJSON_PrintUnformatted: a new block with exactly the rendering and its terminator,
   when the text fits an int with two bytes to spare and memory is granted; otherwise nothing stays allocated.
   */
  method Print(h: Heap, item: Node?, format: bool, ghost t: Option<Tree>,
               ghost v: Value) returns (printed: array?<Byte>)
    requires Input(h, item, t, v)
    modifies h`requests, h`live
    ensures h.requests >= old(h.requests)
    ensures printed != null <==> item != null && |Render(v, format, 0)| + 2 <= INT_MAX
                                 && h.Granted(old(h.requests), h.requests)
    ensures printed != null ==> fresh(printed) && printed[..] == Render(v, format, 0) + [NUL]
                                   && h.live == old(h.live) + {printed}
    ensures printed != null ==> printed[..] == Form.TextOf(v, format, []) + [0]
    ensures printed == null ==> h.live == old(h.live)
  {
    hide Foot, Shaped, Means, Render, Printable, FirstRequest, Form.TextOf;
    Form.RenderIsText(v, format, 0, []);
    printed := null;
    if t.Some? {
      FootOfRest(t.value);
    }
    var buffer := h.NewBytes(DEFAULT_BUFFER_SIZE);
    if buffer == null {
      return;
    }
    var p := new PrintBuffer(buffer, DEFAULT_BUFFER_SIZE, false, format, h);
    label L:
    var ok := PrintItem(item, p, t, v);
    GrantedSplit(h, old(h.requests), old@L(h.requests), h.requests);
    if !ok {
      if p.buffer != null {
        h.Free(p.buffer);
      }
      return;
    }
    assert !p.overread;
    UpdateOffset(p, Render(v, format, 0));
    printed := Trim(p, Render(v, format, 0));
  }

  /** The end of print: the text moves to a block of its own size. */
  method Trim(p: PrintBuffer, ghost s: Bytes) returns (printed: array?<Byte>)
    requires p.Ready() && p.Emitted(s) && p.offset < p.length && p.buffer[p.offset] == 0 && !p.noalloc
    modifies p.hooks`requests, p.hooks`live, p`buffer
    ensures p.hooks.requests == old(p.hooks.requests) + 1
    ensures printed != null <==> p.hooks.grants(old(p.hooks.requests))
    ensures printed != null ==> fresh(printed) && printed[..] == s + [NUL]
                                   && p.hooks.live == old(p.Others()) + {printed}
    ensures printed == null ==> p.hooks.live == old(p.Others())
  {
    if p.hooks.reallocates {
      printed := p.hooks.Realloc(p.buffer, p.offset + 1);
      if printed == null {
        p.hooks.Free(p.buffer);
        return;
      }
      p.buffer := null;
    } else {
      printed := p.hooks.NewBytes(p.offset + 1);
      if printed == null {
        p.hooks.Free(p.buffer);
        return;
      }
      CopyBytes(printed, 0, p.buffer, Min(p.length, p.offset + 1));
      assert printed[0..p.offset + 1] == printed[..];
      printed[p.offset] := NUL;
      p.hooks.Free(p.buffer);
    }
  }

  /**
   The calls of cJSON_PrintBuffered in which ensure copies the first byte of an empty block: a first size of zero,
   hooks without realloc, a first request of representable size, and memory granted twice.
   */
  ghost predicate CopiesFromNothing(h: Heap, r: nat, prebuffer: int, v: Value, format: bool) {
    prebuffer == 0 && !h.reallocates && FirstRequest(v, format) + 1 <= INT_MAX && h.grants(r) && h.grants(r + 1)
  }

  /** Printing null into a first block of no bytes is such a call. */
  lemma NullCopiesFromNothing(h: Heap, r: nat)
    requires !h.reallocates && h.Granted(r, r + 2)
    ensures CopiesFromNothing(h, r, 0, Null, false)
  {
  }

  /**
   cJSON_PrintBuffered: as print, but the block keeps the size it has grown to. `overread` says whether a byte behind
   the end of a block has been copied; what that byte was has no influence on the text.
   */
  method PrintBuffered(h: Heap, item: Node?, prebuffer: int, format: bool, ghost t: Option<Tree>, ghost v: Value)
    returns (printed: array?<Byte>, ghost overread: bool)
    requires Input(h, item, t, v) && prebuffer <= INT_MAX
    modifies h`requests, h`live
    ensures h.requests >= old(h.requests)
    ensures overread <==> item != null && CopiesFromNothing(h, old(h.requests), prebuffer, v, format)
    ensures var r := Render(v, format, 0);
            && (printed != null <==> prebuffer >= 0 && item != null && |r| + 2 <= INT_MAX
                                     && h.Granted(old(h.requests), h.requests))
            && (printed != null ==> fresh(printed) && |r| < printed.Length && printed[..|r|] == r && printed[|r|] == 0
                                    && h.live == old(h.live) + {printed} && r == Form.TextOf(v, format, []))
            && (printed == null ==> h.live == old(h.live))
  {
    hide Foot, Shaped, Means, Render, Printable, FirstRequest, Form.TextOf;
    Form.RenderIsText(v, format, 0, []);
    printed, overread := null, false;
    if t.Some? {
      FootOfRest(t.value);
    }
    if prebuffer < 0 {
      return;
    }
    var buffer := h.NewBytes(prebuffer);
    if buffer == null {
      return;
    }
    var p := new PrintBuffer(buffer, prebuffer, false, format, h);
    label L:
    var ok := PrintItem(item, p, t, v);
    GrantedSplit(h, old(h.requests), old@L(h.requests), h.requests);
    overread := p.overread;
    if !ok {
      if p.buffer != null {
        h.Free(p.buffer);
      }
      return;
    }
    printed := p.buffer;
  }

  /** print_value on an item that may be missing, into an untouched buffer. */
  method PrintItem(item: Node?, p: PrintBuffer, ghost t: Option<Tree>, ghost v: Value) returns (ok: bool)
    requires Input(p.hooks, item, t, v) && p.Ready() && p.buffer != null && p.offset == 0
    requires t.Some? ==> Foot(t.value) <= p.Others()
    modifies p`buffer, p`length, p`overread, p`offset, p`depth, p.buffer, p.hooks`requests, p.hooks`live
    ensures ok ==> item != null && p.depth == old(p.depth)
    ensures p.overread == (old(p.overread) || (item != null && old(p.CopiesNothing(FirstRequest(v, p.format)))))
    ensures if item != null then Printed(p, ok, Render(v, p.format, old(p.depth))) else Kept(p)
  {
    hide Foot, Shaped, Means, Render, Printable, FirstRequest;
    if item == null {
      return false;
    }
    FootOfRest(t.value);
    assert [] + Render(v, p.format, p.depth) == Render(v, p.format, p.depth);
    ok := PrintValue(item, p, t.value, v, []);
  }

  /**
   cJSON_PrintPreallocated: true exactly when the caller's block has two bytes more than the rendering; then it holds
   the text that the growing printers produce. No memory is requested.
   */
  method PrintPreallocated(h: Heap, item: Node?, buf: array?<Byte>, len: int, format: bool, ghost t: Option<Tree>,
                           ghost v: Value)
    returns (ok: bool)
    requires Input(h, item, t, v) && len <= INT_MAX && (buf != null ==> len <= buf.Length)
    requires t.Some? && buf != null ==> buf !in Foot(t.value)
    modifies h`requests, h`live, buf
    ensures h.requests == old(h.requests) && h.live == old(h.live)
    ensures var r := Render(v, format, 0);
            && (ok <==> item != null && buf != null && |r| + 2 <= len)
            && (ok ==> buf[..|r|] == r == Form.TextOf(v, format, []) && buf[|r|] == 0)
  {
    hide Foot, Shaped, Means, Render, Printable, Form.TextOf;
    Form.RenderIsText(v, format, 0, []);
    if t.Some? {
      FootOfRest(t.value);
    }
    if len < 0 || buf == null {
      return false;
    }
    var p := new PrintBuffer(buf, len, true, format, h);
    ok := PrintItem(item, p, t, v);
  }
}
