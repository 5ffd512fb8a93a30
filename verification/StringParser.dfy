/** The parse buffer, the whitespace loop with its step back, and parse_string with its two passes. */
module StringParser {
  import opened Text
  import opened StringCodec
  import opened Grammar
  import opened Nodes
  import Standard = StringStandard

  /** parse_buffer. `content` is the block behind the text; its first `length` bytes are the text and its NUL. */
  class ParseBuffer {
    const content: array<Byte>
    const length: nat
    const hooks: Heap
    /** how strtod rounds */
    const round: real -> real
    var offset: nat
    var depth: nat

    constructor (content: array<Byte>, length: nat, hooks: Heap, round: real -> real)
      ensures this.content == content && this.length == length && this.hooks == hooks && this.round == round
              && offset == depth == 0
    {
      this.content, this.length, this.hooks, this.round := content, length, hooks, round;
      offset, depth := 0, 0;
    }

    ghost predicate Ready()
      reads content
    {
      length <= content.Length && Terminated(content[..length])
    }

    ghost function Text(): Bytes
      requires Ready()
      reads content
    {
      content[..length]
    }

    /** The buffer itself is not a block of the heap that the parser manages. */
    ghost predicate Apart()
      reads hooks`live
    {
      this !in hooks.live && hooks !in hooks.live
    }
  }

  /** buffer_skip_whitespace */
  method SkipWhitespace(b: ParseBuffer)
    requires b.Ready() && b.offset < b.length
    modifies b`offset
    ensures b.offset == SkipGap(b.Text(), old(b.offset)) < b.length
  {
    ghost var c := b.Text();
    ghost var start := b.offset;
    while b.offset < b.length && b.content[b.offset] <= 32
      invariant start <= b.offset <= b.length
      invariant SkipGap(c, start) == if b.offset < b.length then SkipGap(c, b.offset) else b.length - 1
      decreases b.length - b.offset
    {
      assert c[b.offset] == b.content[b.offset];
      b.offset := b.offset + 1;
    }
    if b.offset == b.length {
      b.offset := b.offset - 1;
    } else {
      assert c[b.offset] == b.content[b.offset];
    }
  }

  // ---------- pass one ----------

  /** The first loop of parse_string: where the literal ends, and how many bytes the escapes will save. */
  method MeasureString(b: ParseBuffer, start: nat) returns (closed: bool, end: nat, skipped: nat)
    requires b.Ready() && start <= b.length
    ensures closed <==> ScanString(b.Text(), start).Some?
    ensures closed ==> ScanString(b.Text(), start) == Some(end) && skipped == Skips(b.Text(), start, end)
  {
    ghost var c := b.Text();
    end, skipped := start, 0;
    while end < b.length && b.content[end] != QUOTE
      invariant start <= end <= b.length && ScanString(c, start) == ScanString(c, end)
      invariant ScanString(c, end).Some? ==>
                  var e := ScanString(c, end).value; Skips(c, start, e) == skipped + Skips(c, end, e)
      decreases b.length - end
    {
      assert c[end] == b.content[end];
      if b.content[end] == BACKSLASH {
        if end + 1 >= b.length {
          return false, end, skipped;
        }
        skipped := skipped + 1;
        end := end + 1;
      }
      end := end + 1;
    }
    closed := end < b.length;
  }

  // ---------- pass two ----------

  /** The bytes start..end of the block are the literal s. */
  ghost predicate HoldsLiteral(content: array<Byte>, start: nat, s: Bytes)
    reads content
  {
    start + |s| < content.Length && content[start..start + |s|] == s && content[start + |s|] == QUOTE
  }

  lemma LiteralByte(content: array<Byte>, start: nat, s: Bytes, k: nat)
    requires HoldsLiteral(content, start, s) && k <= |s|
    ensures start + k < content.Length && content[start + k] == if k < |s| then s[k] else QUOTE
  {
    assert k < |s| ==> content[start..start + |s|][k] == s[k];
  }

  lemma LiteralPart(content: array<Byte>, start: nat, s: Bytes, k: nat, n: nat)
    requires HoldsLiteral(content, start, s) && k + n <= |s|
    ensures start + k + n <= content.Length && content[start + k..start + k + n] == s[k..k + n]
  {
    var a, b := content[start + k..start + k + n], s[k..k + n];
    forall j | 0 <= j < n ensures a[j] == b[j] {
      LiteralByte(content, start, s, k + j);
    }
  }

  /** The accumulator of parse_hex4 after i of the digits w. */
  ghost function HexSoFar(w: Bytes, i: nat): nat
    requires i <= |w| == 4 && forall j | 0 <= j < i :: HexDigit(w[j]).Some?
  {
    if i == 0 then 0
    else
      var h := HexSoFar(w, i - 1) + HexDigit(w[i - 1]).value;
      if i < 4 then h * 16 else h
  }

  lemma HexOfFour(w: Bytes)
    requires |w| == 4 && forall j | 0 <= j < 4 :: HexDigit(w[j]).Some?
    ensures HexSoFar(w, 4) == Hex4(w, 0)
  {
    assert HexSoFar(w, 1) == HexDigit(w[0]).value * 16;
    assert HexSoFar(w, 2) == (HexSoFar(w, 1) + HexDigit(w[1]).value) * 16;
    assert HexSoFar(w, 3) == (HexSoFar(w, 2) + HexDigit(w[2]).value) * 16;
  }

  /** The number that four digits write. */
  lemma FourDigits(w: Bytes)
    requires |w| == 4
    ensures forall n | Standard.IsHexNumber(w, n) :: Hex4(w, 0) == n
    ensures Hex4(w, 0) != 0 ==> Standard.IsHexNumber(w, Hex4(w, 0))
  {
    assert w[0..0 + 4] == w;
    forall n | Standard.IsHexNumber(w, n) ensures Hex4(w, 0) == n {
      Standard.Hex4ReadsBack(w, 0, n);
    }
    Standard.Hex4ReadsBack(w, 0, Hex4(w, 0));
  }

  /** parse_hex4: the number that four digits of either case write, or 0. */
  method ParseHex4(content: array<Byte>, at: nat, ghost w: Bytes) returns (h: nat)
    requires at + 4 <= content.Length && |w| == 4 && content[at..at + 4] == w
    ensures h == Hex4(w, 0)
    ensures forall n | Standard.IsHexNumber(w, n) :: h == n
    ensures h != 0 ==> Standard.IsHexNumber(w, h)
  {
    FourDigits(w);
    h := 0;
    var i: nat := 0;
    while i < 4
      invariant i <= 4
      invariant forall j | 0 <= j < i :: HexDigit(w[j]).Some?
      invariant h == HexSoFar(w, i)
    {
      assert content[at + i] == content[at..at + 4][i] == w[i];
      match HexDigit(content[at + i]) {
        case None =>
          return 0;
        case Some(d) =>
          h := h + d;
      }
      if i < 3 {
        h := h * 16;
      }
      i := i + 1;
    }
    HexOfFour(w);
  }

  /** parse_hex4 at index k of the literal. */
  method LiteralHex4(content: array<Byte>, start: nat, ghost s: Bytes, k: nat) returns (h: nat)
    requires HoldsLiteral(content, start, s) && k + 4 <= |s|
    ensures h == Hex4(s, k)
  {
    hide Hex4, Standard.IsHexNumber;
    ghost var w := s[k..k + 4];
    LiteralPart(content, start, s, k, 4);
    h := ParseHex4(content, start + k, w);
    Hex4OfSlice(s, k);
  }

  lemma Hex4OfSlice(s: Bytes, k: nat)
    requires k + 4 <= |s|
    ensures Hex4(s[k..k + 4], 0) == Hex4(s, k)
  {
    var w := s[k..k + 4];
    assert w[0] == s[k] && w[1] == s[k + 1] && w[2] == s[k + 2] && w[3] == s[k + 3];
  }

  /** utf16_literal_to_utf8 up to the encoding: the code point of the \u sequence at p and its length, or 0. */
  method ReadUtf16Literal(content: array<Byte>, start: nat, ghost s: Bytes, n: nat, p: nat) returns (sequence: nat,
                          codepoint: nat)
    requires HoldsLiteral(content, start, s) && n == |s| && p < n
    ensures match Utf16Literal(s, p)
            case None => sequence == 0
            case Some(u) => sequence == u.length && codepoint == u.cp
  {
    hide HoldsLiteral, Hex4;
    codepoint := 0;
    if n - p < 6 {
      return 0, 0;
    }
    var first := LiteralHex4(content, start, s, p + 2);
    if 0xDC00 <= first <= 0xDFFF {
      return 0, 0;
    }
    if 0xD800 <= first <= 0xDBFF {
      if n - (p + 6) < 6 {
        return 0, 0;
      }
      LiteralByte(content, start, s, p + 6);
      LiteralByte(content, start, s, p + 7);
      if content[start + p + 6] != BACKSLASH || content[start + p + 7] != 117 {
        return 0, 0;
      }
      var second := LiteralHex4(content, start, s, p + 8);
      if second < 0xDC00 || second > 0xDFFF {
        return 0, 0;
      }
      JoinIsMasked(first, second);
      return 12, 0x10000 + (first % 0x400 * 0x400 + second % 0x400);
    }
    return 6, first;
  }

  lemma JoinIsMasked(high: nat, low: nat)
    requires IsHigh(high) && IsLow(low)
    ensures Join(high, low) == 0x10000 + (high % 0x400 * 0x400 + low % 0x400)
  {
  }

  /** The n continuation bytes of cp, and what is left of cp after n shifts by six. */
  ghost function Continuation(cp: nat, n: nat): Bytes {
    if n == 0 then [] else Continuation(cp / 0x40, n - 1) + [0x80 + cp % 0x40]
  }

  ghost function Shifted(cp: nat, n: nat): nat {
    if n == 0 then cp else Shifted(cp / 0x40, n - 1)
  }

  lemma ShiftedBy(cp: nat, n: nat)
    requires n <= 3
    ensures Shifted(cp,
            n) == if n == 0 then cp else if n == 1 then cp / 0x40 else if n == 2 then cp / 0x1000 else cp / 0x40000
  {
    if n > 0 {
      ShiftedBy(cp / 0x40, n - 1);
    }
  }

  lemma ContinuationStep(cp: nat, n: nat)
    requires n > 0
    ensures Continuation(cp, n) == Continuation(cp / 0x40, n - 1) + [0x80 + cp % 0x40]
    ensures Continuation(cp, 0) == []
  {
  }

  lemma ContinuationOf(cp: nat)
    ensures Continuation(cp, 0) == [] && Continuation(cp, 1) == [0x80 + cp % 0x40]
    ensures Continuation(cp, 2) == [0x80 + cp / 0x40 % 0x40, 0x80 + cp % 0x40]
    ensures Continuation(cp, 3) == [0x80 + cp / 0x1000 % 0x40, 0x80 + cp / 0x40 % 0x40, 0x80 + cp % 0x40]
  {
    hide Continuation;
    var a := cp / 0x40;
    var b := a / 0x40;
    assert cp / 0x1000 == b;
    ContinuationStep(cp, 1);
    ContinuationStep(cp, 2);
    ContinuationStep(cp, 3);
    ContinuationStep(a, 1);
    ContinuationStep(a, 2);
    ContinuationStep(b, 1);
    ContinuationStep(b / 0x40, 1);
  }

  /** The encoding loop of utf16_literal_to_utf8: n continuation bytes behind `out`, from the last one back. */
  method WriteContinuation(codepoint: nat, n: nat, output: array<Byte>, out: nat) returns (cp: nat)
    requires out + n < output.Length
    modifies output
    ensures cp == Shifted(codepoint, n) && output[..out] == old(output[..out])
    ensures output[out + 1..out + 1 + n] == Continuation(codepoint, n)
  {
    cp := codepoint;
    var k: nat := n;
    assert output[out + 1 + k..out + 1 + n] == [] && Continuation(cp, n) + [] == Continuation(cp, n);
    while k > 0
      invariant k <= n && Shifted(cp, k) == Shifted(codepoint, n) && output[..out] == old(output[..out])
      invariant Continuation(codepoint, n) == Continuation(cp, k) + output[out + 1 + k..out + 1 + n]
    {
      output[out + k] := 0x80 + cp % 0x40;
      assert output[out + k..out + 1 + n] == [0x80 + cp % 0x40] + output[out + 1 + k..out + 1 + n];
      assert Continuation(cp, k) == Continuation(cp / 0x40, k - 1) + [0x80 + cp % 0x40];
      cp := cp / 0x40;
      k := k - 1;
    }
    assert [] + output[out + 1..out + 1 + n] == output[out + 1..out + 1 + n];
  }

  /** The mark of the first byte, and how many continuation bytes follow. */
  method Utf8Length(codepoint: nat) returns (n: nat, mark: nat)
    requires codepoint <= 0x10FFFF
    ensures |Utf8(codepoint)| == n + 1 && mark + Shifted(codepoint, n) < 256
    ensures Utf8(codepoint) == [mark + Shifted(codepoint, n)] + Continuation(codepoint, n)
  {
    if codepoint < 0x80 {
      n, mark := 0, 0;
    } else if codepoint < 0x800 {
      n, mark := 1, 0xC0;
    } else if codepoint < 0x10000 {
      n, mark := 2, 0xE0;
    } else {
      n, mark := 3, 0xF0;
    }
    hide Continuation, Shifted;
    ShiftedBy(codepoint, n);
    ContinuationOf(codepoint);
  }

  method WriteUtf8(codepoint: nat, output: array<Byte>, out: nat) returns (out2: nat)
    requires codepoint <= 0x10FFFF && out + |Utf8(codepoint)| <= output.Length
    modifies output
    ensures out2 == out + |Utf8(codepoint)| && output[..out2] == old(output[..out]) + Utf8(codepoint)
    ensures Standard.IsScalar(codepoint) ==>
              Standard.FirstCharacter(output[out..out2]) == Some(Standard.Character(codepoint, out2 - out))
  {
    hide Utf8, Shifted, Continuation, Standard.FirstCharacter;
    var n, mark := Utf8Length(codepoint);
    var cp := WriteContinuation(codepoint, n, output, out);
    output[out] := mark + cp;
    out2 := out + 1 + n;
    assert output[..out2] == output[..out] + ([output[out]] + output[out + 1..out2]);
    assert output[out..out2] == output[..out2][out..] == Utf8(codepoint) + [];
    if Standard.IsScalar(codepoint) {
      Standard.Utf8Reads(codepoint, []);
    }
  }

  /** On 32-bit words, the masks and shifts of the source are the sums and quotients written above. */
  lemma BitForms(cp: bv32, high: bv32, low: bv32)
    ensures (cp | 0x80) & 0xBF == 0x80 + cp % 0x40 && cp >> 6 == cp / 0x40
    ensures cp < 0x20 ==> (cp | 0xC0) & 0xFF == 0xC0 + cp
    ensures cp < 0x10 ==> (cp | 0xE0) & 0xFF == 0xE0 + cp
    ensures cp < 0x08 ==> (cp | 0xF0) & 0xFF == 0xF0 + cp
    ensures cp < 0x80 ==> cp & 0x7F == cp
    ensures ((high & 0x3FF) << 10) | (low & 0x3FF) == high % 0x400 * 0x400 + low % 0x400
  {
  }

  // ---------- the second loop ----------

  /** One turn of the second loop; length 0 is the jump to `fail`. */
  method DecodeOne(content: array<Byte>, start: nat, ghost s: Bytes, n: nat, p: nat, output: array<Byte>, out: nat)
    returns (length: nat, out2: nat)
    requires HoldsLiteral(content, start, s) && n == |s| && p < n && content != output && out <= output.Length
    requires DecodeTurn(s, p).Some? ==> out + |DecodeTurn(s, p).value.bytes| <= output.Length
    modifies output
    ensures match DecodeTurn(s, p)
            case None => length == 0
            case Some(t) => length == t.length && out2 == out + |t.bytes|
                            && output[..out2] == old(output[..out]) + t.bytes
  {
    hide HoldsLiteral;
    LiteralByte(content, start, s, p);
    LiteralByte(content, start, s, p + 1);
    out2 := out;
    if content[start + p] != BACKSLASH {
      output[out] := content[start + p];
      return 1, out + 1;
    }
    var x := content[start + p + 1];
    if x == 117 {
      var sequence, codepoint := ReadUtf16Literal(content, start, s, n, p);
      if sequence == 0 {
        return 0, out;
      }
      out2 := WriteUtf8(codepoint, output, out);
      return sequence, out2;
    }
    var decoded: Byte;
    if x == 98 {
      decoded := BS;
    } else if x == 102 {
      decoded := FF;
    } else if x == 110 {
      decoded := LF;
    } else if x == 114 {
      decoded := CR;
    } else if x == 116 {
      decoded := TAB;
    } else if x == QUOTE || x == BACKSLASH || x == SLASH {
      decoded := x;
    } else {
      return 0, out;
    }
    output[out] := decoded;
    return 2, out + 1;
  }

  /** How far the second loop has come: what is written, what is left, and the room for it. */
  ghost predicate Decoding(s: Bytes, p: nat, q: nat, written: Bytes) {
    && InPhase(s, p, q) && |written| + Spare(s, q) <= Spare(s, 0) && Spare(s, q) >= 0
    && Unescape(s, 0) == Prepend(written, Unescape(s, p))
  }

  lemma DecodingStart(s: Bytes)
    requires RawSpan(s, 0, |s|)
    ensures Decoding(s, 0, 0, [])
  {
    SpareIsNat(s, 0);
    if Unescape(s, 0).Ok? {
      assert [] + Unescape(s, 0).value == Unescape(s, 0).value;
    }
  }

  lemma DecodingStep(s: Bytes, p: nat, q: nat, written: Bytes) returns (q2: nat)
    requires Decoding(s, p, q, written) && p < |s|
    ensures match DecodeTurn(s, p)
            case None => Unescape(s, 0) == Err(p)
            case Some(t) => |written| + |t.bytes| <= Spare(s, 0) && Decoding(s, p + t.length, q2, written + t.bytes)
  {
    hide DecodeTurn, Spare, InPhase;
    q2 := q;
    if DecodeTurn(s, p).Some? {
      q2 := TurnFits(s, p, q);
      var t := DecodeTurn(s, p).value;
      var r := Unescape(s, p + t.length);
      if r.Ok? {
        assert written + (t.bytes + r.value) == (written + t.bytes) + r.value;
      }
    }
  }

  lemma DecodingEnd(s: Bytes, p: nat, q: nat, written: Bytes)
    requires Decoding(s, p, q, written) && p >= |s|
    ensures Unescape(s, 0) == Ok(written) && |written| <= Spare(s, 0)
  {
    assert written + [] == written;
  }

  /**
   The second loop of parse_string. The block has the length that the first loop computed; every byte written and
   every byte read is inside its block, whether the literal decodes or not.
   */
  method DecodeString(content: array<Byte>, start: nat, ghost s: Bytes, n: nat, output: array<Byte>)
    returns (ok: bool, p: nat, out: nat)
    requires HoldsLiteral(content, start, s) && n == |s| && content != output
    requires RawSpan(s, 0, n) && output.Length == Spare(s, 0) + 2
    modifies output
    ensures ok <==> Unescape(s, 0).Ok?
    ensures ok ==> out + 1 < output.Length && output[..out] == Unescape(s, 0).value
    ensures !ok ==> Unescape(s, 0) == Err(p)
  {
    hide DecodeTurn, HoldsLiteral, Spare, InPhase, Unescape, RawSpan, Decoding;
    DecodingStart(s);
    ghost var q := 0;
    p, out := 0, 0;
    while p < n
      invariant out <= output.Length && Decoding(s, p, q, output[..out])
      decreases if p <= n then n - p else 0
    {
      ghost var q2 := DecodingStep(s, p, q, output[..out]);
      var length, out2 := DecodeOne(content, start, s, n, p, output, out);
      if length == 0 {
        return false, p, out;
      }
      p, q, out := p + length, q2, out2;
    }
    DecodingEnd(s, p, q, output[..out]);
    ok := true;
  }

  // ---------- parse_string ----------

  /** The measured literal, seen from the block. */
  lemma MeasuredLiteral(b: ParseBuffer, start: nat, end: nat)
    requires b.Ready() && start <= end && ScanString(b.Text(), start) == Some(end)
    ensures HoldsLiteral(b.content, start, b.Text()[start..end])
    ensures var s := b.Text()[start..end];
            RawSpan(s, 0, |s|) && Spare(s, 0) == end - start - Skips(b.Text(), start, end) && Spare(s, 0) >= 0
  {
    var c := b.Text();
    var s := c[start..end];
    assert b.content[start..end] == s;
    SpanOfSlice(c, start, s, 0);
    SpareIsNat(s, 0);
  }

  /** A block that starts with u and a NUL holds the C string of u. */
  lemma SpellsDecoded(a: array<Byte>, u: Bytes)
    requires |u| < a.Length && a[..|u|] == u && a[|u|] == 0
    ensures Spells(a, CStr(u))
  {
    var t := CStr(u);
    assert a[..|t|] == u[..|t|];
    assert |t| < |u| ==> a[|t|] == u[|t|];
  }

  /**
   parse_string. It succeeds exactly when the text at the offset is a literal that decodes and the block is granted;
   then the item owns one new block with the decoded string. Otherwise nothing stays allocated and the item is
   untouched.
   */
  method ParseStringInto(b: ParseBuffer, item: Node) returns (ok: bool)
    requires b.Ready() && b.Apart() && b.offset < b.length
    modifies b`offset, b.hooks`requests, b.hooks`live, item`kind, item`valuestring
    ensures b.Ready() && b.Apart() && b.offset <= b.length && b.hooks.requests >= old(b.hooks.requests)
    ensures ok <==> ParseString(b.Text(), old(b.offset)).Ok? && b.hooks.Granted(old(b.hooks.requests), b.hooks.requests)
    ensures ok ==>
              var p := ParseString(b.Text(), old(b.offset)).value;
              && b.offset == p.end && item.kind == StringKind && item.valuestring != null && fresh(item.valuestring)
              && b.hooks.live == old(b.hooks.live) + {item.valuestring}
              && Spells(item.valuestring, LiteralText(p.x))
    ensures !ok ==> item.kind == old(item.kind) && item.valuestring == old(item.valuestring)
                       && b.hooks.live == old(b.hooks.live)
    ensures !ok && b.hooks.Granted(old(b.hooks.requests), b.hooks.requests) ==>
              ParseString(b.Text(), old(b.offset)) == Err(b.offset)
  {
    hide RawSpan, Skips, ScanString, Unescape, Spare, HoldsLiteral, Spells, Terminated, CStr;
    ghost var c := b.Text();
    var start := b.offset + 1;
    assert c[b.offset] == b.content[b.offset];
    if b.content[b.offset] != QUOTE {
      b.offset := start;
      return false;
    }
    var closed, end, skipped := MeasureString(b, start);
    if !closed {
      b.offset := start;
      return false;
    }
    ghost var s := c[start..end];
    MeasuredLiteral(b, start, end);
    // the literal with its opening quote, less the skipped backslashes, and a terminator
    var output := b.hooks.NewBytes(end - (start - 1) - skipped + 1);
    if output == null {
      b.offset := start;
      return false;
    }
    var decoded, p, out := DecodeString(b.content, start, s, end - start, output);
    if !decoded {
      b.hooks.Free(output);
      b.offset := start + p;
      UnescapeErr(s, 0);
      return false;
    }
    output[out] := NUL;
    SpellsDecoded(output, Unescape(s, 0).value);
    item.kind := StringKind;
    item.valuestring := output;
    b.offset := end + 1;
    ok := true;
  }
}
