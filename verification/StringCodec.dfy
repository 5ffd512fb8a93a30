/**
 String literals: the bytes between two quotes, how parse_string decodes them in two passes, and how print_string_ptr
 escapes a C string.
 */
module StringCodec {
  import opened Text

  // ---------- pass one: where the literal ends ----------

  /** Walking from k, a backslash taking the next byte with it, ends exactly at e without meeting a bare quote. */
  predicate RawSpan(c: Bytes, k: nat, e: nat)
    requires e <= |c|
    decreases if k <= e then e - k else 0
  {
    if k >= e then k == e
    else if c[k] == QUOTE then false
    else RawSpan(c, if c[k] == BACKSLASH then k + 2 else k + 1, e)
  }

  /** How many backslashes that walk counts (skipped_bytes). */
  function Skips(c: Bytes, k: nat, e: nat): nat
    requires e <= |c|
    decreases if k <= e then e - k else 0
  {
    if k >= e then 0
    else if c[k] == BACKSLASH then 1 + Skips(c, k + 2, e)
    else Skips(c, k + 1, e)
  }

  /** The index of the closing quote, if the literal is closed before the buffer ends. */
  function ScanString(c: Bytes, k: nat): (e: Option<nat>)
    ensures e.Some? ==> k <= e.value < |c| && c[e.value] == QUOTE && RawSpan(c, k, e.value)
    decreases if k <= |c| then |c| - k else 0
  {
    if k >= |c| then None
    else if c[k] == QUOTE then Some(k)
    else if c[k] == BACKSLASH then (if k + 1 >= |c| then None else ScanString(c, k + 2))
    else ScanString(c, k + 1)
  }

  /** The walk finds the first place it can stop. */
  lemma {:induction false} ScanFinds(c: Bytes, k: nat, e: nat)
    requires k <= e < |c| && c[e] == QUOTE && RawSpan(c, k, e)
    ensures ScanString(c, k) == Some(e)
    decreases e - k
  {
    if k < e {
      ScanFinds(c, if c[k] == BACKSLASH then k + 2 else k + 1, e);
    }
  }

  /** The walk only sees the bytes of the literal, so it may be read off the literal alone. */
  lemma {:induction false} SpanOfSlice(c: Bytes, i: nat, raw: Bytes, k: nat)
    requires At(c, i, raw) && k <= |raw| + 1
    ensures RawSpan(c, i + k, i + |raw|) == RawSpan(raw, k, |raw|)
    ensures Skips(c, i + k, i + |raw|) == Skips(raw, k, |raw|)
    decreases |raw| + 1 - k
  {
    if k < |raw| {
      AtIndex(c, i, raw, k);
      SpanOfSlice(c, i, raw, if raw[k] == BACKSLASH then k + 2 else k + 1);
    }
  }

  // ---------- pass two: decoding ----------

  function HexDigit(b: Byte): Option<nat> {
    if 48 <= b <= 57 then Some(b - 48)
    else if 65 <= b <= 70 then Some(b - 55)
    else if 97 <= b <= 102 then Some(b - 87)
    else None
  }

  /** parse_hex4: four hexadecimal digits, or 0 when any of them is not one. */
  function Hex4(s: Bytes, k: nat): (h: nat)
    requires k + 4 <= |s|
    ensures h < 0x10000
    ensures h != 0 ==> forall j | k <= j < k + 4 :: HexDigit(s[j]).Some?
  {
    match (HexDigit(s[k]), HexDigit(s[k + 1]), HexDigit(s[k + 2]), HexDigit(s[k + 3]))
    case (Some(a), Some(b), Some(c), Some(d)) => 4096 * a + 256 * b + 16 * c + d
    case _ => 0
  }

  /** Section 3 of RFC 3629: one to four octets, six payload bits in each continuation octet. */
  function Utf8(cp: nat): (u: Bytes)
    requires cp <= 0x10FFFF
    ensures 1 <= |u| <= 4
  {
    if cp < 0x80 then [cp]
    else if cp < 0x800 then [0xC0 + cp / 0x40, 0x80 + cp % 0x40]
    else if cp < 0x10000 then [0xE0 + cp / 0x1000, 0x80 + cp / 0x40 % 0x40, 0x80 + cp % 0x40]
    else [0xF0 + cp / 0x40000, 0x80 + cp / 0x1000 % 0x40, 0x80 + cp / 0x40 % 0x40, 0x80 + cp % 0x40]
  }

  predicate IsHigh(unit: nat) {
    0xD800 <= unit <= 0xDBFF
  }

  predicate IsLow(unit: nat) {
    0xDC00 <= unit <= 0xDFFF
  }

  /** The code point of a surrogate pair (section 7 of RFC 8259, by way of UTF-16). */
  function Join(high: nat, low: nat): (cp: nat)
    requires IsHigh(high) && IsLow(low)
    ensures 0x10000 <= cp <= 0x10FFFF
  {
    0x10000 + (high - 0xD800) * 0x400 + (low - 0xDC00)
  }

  datatype Literal = Literal(cp: nat, length: nat)

  /**
   The code point of the \u sequence at p and how many bytes it spans, or None for a surrogate without its partner.
   */
  function Utf16Literal(s: Bytes, p: nat): (r: Option<Literal>)
    requires p <= |s|
    ensures r.Some? ==> r.value.cp <= 0x10FFFF && (r.value.length == 6 || r.value.length == 12)
                           && p + r.value.length <= |s|
  {
    if |s| - p < 6 then None
    else
      var first := Hex4(s, p + 2);
      if IsLow(first) then None
      else if IsHigh(first) then
        if |s| - (p + 6) < 6 || s[p + 6] != BACKSLASH || s[p + 7] != 117 then None
        else
          var second := Hex4(s, p + 8);
          if IsLow(second) then Some(Literal(Join(first, second), 12)) else None
      else Some(Literal(first, 6))
  }

  /** What the letter of a two-byte escape stands for. */
  function ShortEscape(x: Byte): Option<Byte> {
    if x == 98 then Some(BS)
    else if x == 102 then Some(FF)
    else if x == 110 then Some(LF)
    else if x == 114 then Some(CR)
    else if x == 116 then Some(TAB)
    else if x == QUOTE || x == BACKSLASH || x == SLASH then Some(x)
    else None
  }

  function Prepend(a: Bytes, r: Result<Bytes>): Result<Bytes> {
    if r.Ok? then Ok(a + r.value) else r
  }

  /** What one turn of the second pass writes, and how many bytes it steps over. */
  datatype Turn = Turn(bytes: Bytes, length: nat)

  /**
   One turn of the second pass over the literal s, at p. The byte behind the literal is its closing quote, and the
   pass may read it (and step over it) as the letter of an escape.
   */
  function DecodeTurn(s: Bytes, p: nat): (r: Option<Turn>)
    requires p < |s|
    ensures r.Some? ==> r.value.length > 0
  {
    if s[p] != BACKSLASH then Some(Turn([s[p]], 1))
    else
      var x := if p + 1 < |s| then s[p + 1] else QUOTE;
      if x == 117 then
        match Utf16Literal(s, p)
        case None => None
        case Some(u) => Some(Turn(Utf8(u.cp), u.length))
      else
        match ShortEscape(x)
        case None => None
        case Some(b) => Some(Turn([b], 2))
  }

  /** The second pass over the literal s from p on: the decoded bytes, or where it gives up. */
  function Unescape(s: Bytes, p: nat): Result<Bytes>
    decreases if p <= |s| then |s| - p else 0
  {
    if p >= |s| then Ok([])
    else
      match DecodeTurn(s, p)
      case None => Err(p)
      case Some(t) => Prepend(t.bytes, Unescape(s, p + t.length))
  }

  /** The pass gives up inside the literal. */
  lemma {:induction false} UnescapeErr(s: Bytes, p: nat)
    requires Unescape(s, p).Err?
    ensures p <= Unescape(s, p).at < |s|
    decreases if p <= |s| then |s| - p else 0
  {
    hide DecodeTurn;
    if DecodeTurn(s, p).Some? {
      UnescapeErr(s, p + DecodeTurn(s, p).value.length);
    }
  }

  // ---------- the two passes agree on space ----------

  /**
   Let pass one walk n bytes further. It ends at a boundary q, which is p + n, or one byte short of it when a
   backslash there straddles p + n. It has counted at most one backslash for every two bytes.
   */
  lemma {:induction false} Walk(s: Bytes, p: nat, n: nat) returns (q: nat)
    requires p + n <= |s| && RawSpan(s, p, |s|)
    ensures p <= q <= p + n && RawSpan(s, q, |s|)
    ensures q == p + n || (q + 1 == p + n && s[q] == BACKSLASH)
    ensures 2 * Skips(s, p, |s|) <= 2 * Skips(s, q, |s|) + (q - p)
    decreases n
  {
    if n == 0 {
      q := p;
    } else if s[p] != BACKSLASH {
      q := Walk(s, p + 1, n - 1);
    } else if n == 1 {
      q := p;
    } else {
      q := Walk(s, p + 2, n - 2);
    }
  }

  /** Over four hexadecimal digits pass one counts nothing and stays in step. */
  lemma WalkDigits(s: Bytes, p: nat)
    requires p + 4 <= |s| && RawSpan(s, p, |s|) && Hex4(s, p) != 0
    ensures RawSpan(s, p + 4, |s|) && Skips(s, p, |s|) == Skips(s, p + 4, |s|)
  {
    assert HexDigit(s[p]).Some? && HexDigit(s[p + 1]).Some? && HexDigit(s[p + 2]).Some? && HexDigit(s[p + 3]).Some?;
    assert RawSpan(s, p + 1, |s|) && RawSpan(s, p + 2, |s|) && RawSpan(s, p + 3, |s|);
    assert Skips(s, p, |s|) == Skips(s, p + 1, |s|) == Skips(s, p + 2, |s|) == Skips(s, p + 3, |s|);
  }

  /** Pass two at p and pass one at q are in step, or pass one stands on the backslash just before p. */
  ghost predicate InPhase(s: Bytes, p: nat, q: nat) {
    q <= |s| && RawSpan(s, q, |s|) && (p == q || (p == q + 1 && q < |s| && s[q] == BACKSLASH) || (q == |s| && p >= q))
  }

  /** The bytes pass one still has to walk, less the backslashes it will count. */
  ghost function Spare(s: Bytes, q: nat): int {
    |s| - q - Skips(s, q, |s|)
  }

  lemma SpareIsNat(s: Bytes, q: nat)
    requires q <= |s| && RawSpan(s, q, |s|)
    ensures Spare(s, q) >= 0
  {
    var r := Walk(s, q, |s| - q);
  }

  /**
   However far the passes have drifted apart, a turn of pass two writes no more bytes than pass one sets aside for the
   bytes it walks meanwhile, and the passes end up in step again or at most one byte apart.
   */
  lemma TurnFits(s: Bytes, p: nat, q: nat) returns (q2: nat)
    requires InPhase(s, p, q) && p < |s| && DecodeTurn(s, p).Some?
    ensures var t := DecodeTurn(s, p).value;
            InPhase(s, p + t.length, q2) && |t.bytes| + Spare(s, q2) <= Spare(s, q) && Spare(s, q2) >= 0
  {
    var x := if p + 1 < |s| then s[p + 1] else QUOTE;
    if s[p] != BACKSLASH {
      q2 := p + 1;
    } else if x == 117 {
      q2 := UnitFits(s, p, q);
    } else if p + 1 >= |s| {
      assert !RawSpan(s, p + 2, |s|);
      assert p == q + 1 && Skips(s, q, |s|) == 1 + Skips(s, p + 1, |s|);
      q2 := |s|;
    } else if p != q && x == BACKSLASH {
      q2 := p + 1;
    } else {
      if p != q {
        assert RawSpan(s, p + 1, |s|);
      }
      q2 := p + 2;
    }
    SpareIsNat(s, q2);
  }

  /** The same for a turn over a \u sequence: a malformed one writes one byte for six. */
  lemma UnitFits(s: Bytes, p: nat, q: nat) returns (q2: nat)
    requires InPhase(s, p, q) && p + 1 < |s| && s[p] == BACKSLASH && s[p + 1] == 117 && Utf16Literal(s, p).Some?
    ensures var u := Utf16Literal(s, p).value;
            InPhase(s, p + u.length, q2) && |Utf8(u.cp)| + Spare(s, q2) <= Spare(s, q)
  {
    var u := Utf16Literal(s, p).value;
    if p != q {
      assert RawSpan(s, p + 1, |s|);
    }
    assert RawSpan(s, p + 2, |s|) && Skips(s, q, |s|) == 1 + Skips(s, p + 2, |s|);
    if u.cp == 0 {
      q2 := Walk(s, p + 2, 4);
    } else {
      WalkDigits(s, p + 2);
      if u.length == 12 {
        assert RawSpan(s, p + 8, |s|) && Skips(s, p + 6, |s|) == 1 + Skips(s, p + 8, |s|);
        WalkDigits(s, p + 8);
      }
      q2 := p + u.length;
    }
  }

  lemma PhaseSpare(s: Bytes, p: nat, q: nat)
    requires InPhase(s, p, q)
    ensures Spare(s, q) >= 0
  {
    SpareIsNat(s, q);
  }

  /** What pass two still writes fits in what pass one sets aside, whatever the literal. */
  lemma {:induction false} DecodedFits(s: Bytes, p: nat, q: nat)
    requires InPhase(s, p, q) && Unescape(s, p).Ok?
    ensures |Unescape(s, p).value| <= Spare(s, q)
    decreases if p <= |s| then |s| - p else 0
  {
    hide DecodeTurn, InPhase, Spare;
    if p >= |s| {
      PhaseSpare(s, p, q);
    } else {
      var q2 := TurnFits(s, p, q);
      DecodedFits(s, p + DecodeTurn(s, p).value.length, q2);
    }
  }

  /**
   The block that parse_string allocates, length minus skipped bytes plus two, holds the decoded bytes and their
   terminator with a byte to spare.
   */
  lemma AllocationSuffices(s: Bytes)
    requires RawSpan(s, 0, |s|) && Unescape(s, 0).Ok?
    ensures |Unescape(s, 0).value| + 1 < |s| + 2 - Skips(s, 0, |s|)
  {
    DecodedFits(s, 0, 0);
  }

  // ---------- escaping ----------

  function LowHexDigit(d: nat): Byte
    requires d < 16
  {
    if d < 10 then 48 + d else 87 + d
  }

  /** How print_string_ptr spells one byte. */
  function EscapeByte(b: Byte): (e: Bytes)
    ensures 1 <= |e| <= 6
  {
    if b > 31 && b != QUOTE && b != BACKSLASH then [b]
    else if b == QUOTE || b == BACKSLASH then [BACKSLASH, b]
    else if b == BS then [BACKSLASH, 98]
    else if b == FF then [BACKSLASH, 102]
    else if b == LF then [BACKSLASH, 110]
    else if b == CR then [BACKSLASH, 114]
    else if b == TAB then [BACKSLASH, 116]
    else [BACKSLASH, 117, 48, 48, LowHexDigit(b / 16), LowHexDigit(b % 16)]
  }

  function Escape(t: Bytes): Bytes {
    if t == [] then [] else EscapeByte(t[0]) + Escape(t[1..])
  }

  /** The first pass of print_string_ptr: how many bytes escaping adds. */
  function EscapeExtra(t: Bytes): nat {
    if t == [] then 0 else ExtraOf(t[0]) + EscapeExtra(t[1..])
  }

  function ExtraOf(b: Byte): nat {
    if b == QUOTE || b == BACKSLASH || b == BS || b == FF || b == LF || b == CR || b == TAB then 1
    else if b < 32 then 5 else 0
  }

  lemma {:induction false} ExtraSnoc(t: Bytes, n: nat)
    requires n < |t|
    ensures EscapeExtra(t[..n + 1]) == EscapeExtra(t[..n]) + ExtraOf(t[n])
  {
    if n > 0 {
      ExtraSnoc(t[1..], n - 1);
      assert t[..n + 1][1..] == t[1..][..n] && t[..n][1..] == t[1..][..n - 1];
    } else {
      assert t[..1][1..] == [];
    }
  }

  /** The estimate of the first pass is exact, and the fast path taken at zero copies what the loop would write. */
  lemma {:induction false} EscapeSize(t: Bytes)
    ensures |Escape(t)| == |t| + EscapeExtra(t)
    ensures EscapeExtra(t) == 0 ==> Escape(t) == t
  {
    if t != [] {
      EscapeSize(t[1..]);
      assert t == [t[0]] + t[1..];
    }
  }

  lemma EscapeSnoc(t: Bytes, b: Byte)
    ensures Escape(t + [b]) == Escape(t) + EscapeByte(b)
  {
    hide EscapeByte;
    if t == [] {
      assert [b][1..] == [];
    } else {
      EscapeSnoc(t[1..], b);
      assert (t + [b])[1..] == t[1..] + [b];
    }
  }

  lemma {:induction false} EscapeConcat(t: Bytes, u: Bytes)
    ensures Escape(t + u) == Escape(t) + Escape(u)
  {
    hide EscapeByte;
    if t == [] {
      assert t + u == u;
    } else {
      EscapeConcat(t[1..], u);
      assert (t + u)[1..] == t[1..] + u;
    }
  }

  /** A string literal as the parser accepts it. */
  ghost predicate IsRaw(raw: Bytes) {
    0 !in raw && RawSpan(raw, 0, |raw|) && Unescape(raw, 0).Ok?
  }

  /** The walk of pass one over a \u sequence with four digits. */
  lemma WalkBack(s: Bytes, p: nat)
    requires p + 6 <= |s| && s[p] == BACKSLASH && s[p + 1] == 117 && Hex4(s, p + 2) != 0
    requires RawSpan(s, p + 6, |s|)
    ensures RawSpan(s, p, |s|)
  {
    assert HexDigit(s[p + 2]).Some? && HexDigit(s[p + 3]).Some? && HexDigit(s[p + 4]).Some? && HexDigit(s[p + 5]).Some?;
    assert RawSpan(s, p + 5, |s|);
    assert RawSpan(s, p + 4, |s|);
    assert RawSpan(s, p + 3, |s|);
    assert RawSpan(s, p + 2, |s|);
  }

  /** Both passes read one escaped byte back. */
  lemma StepOverEscape(s: Bytes, p: nat, b: Byte)
    requires b != 0 && At(s, p, EscapeByte(b)) && RawSpan(s, p + |EscapeByte(b)|, |s|)
    ensures RawSpan(s, p, |s|)
    ensures Unescape(s, p) == Prepend([b], Unescape(s, p + |EscapeByte(b)|))
  {
    var e := EscapeByte(b);
    forall k | 0 <= k < |e| ensures s[p + k] == e[k] {
      AtIndex(s, p, e, k);
    }
    assert s[p] == e[0];
    if |e| == 2 {
      assert s[p + 1] == e[1];
    } else if |e| == 6 {
      assert s[p + 1] == e[1] && s[p + 2] == e[2] && s[p + 3] == e[3] && s[p + 4] == e[4] && s[p + 5] == e[5];
      assert Hex4(s, p + 2) == b;
      WalkBack(s, p);
      assert Utf16Literal(s, p) == Some(Literal(b, 6));
    }
  }

  lemma {:induction false} UnescapeEscape(s: Bytes, p: nat, t: Bytes)
    requires p <= |s| && s[p..] == Escape(t) && 0 !in t
    ensures Unescape(s, p) == Ok(t) && RawSpan(s, p, |s|)
    decreases |t|
  {
    hide EscapeByte, DecodeTurn, ExtraOf;
    if t != [] {
      var b, rest := t[0], t[1..];
      var e := EscapeByte(b);
      var q := p + |e|;
      assert t == [b] + rest;
      assert Escape(t) == e + Escape(rest);
      assert s[q..] == s[p..][|e|..] == Escape(rest);
      assert s[p..q] == s[p..][..|e|] == e;
      UnescapeEscape(s, q, rest);
      StepOverEscape(s, p, b);
    }
  }

  lemma {:induction false} EscapeNulFree(t: Bytes)
    requires 0 !in t
    ensures 0 !in Escape(t)
  {
    if t != [] {
      EscapeNulFree(t[1..]);
    }
  }

  /** parse_string undoes print_string_ptr on every C string. */
  lemma StringRoundTrip(t: Bytes)
    requires 0 !in t
    ensures IsRaw(Escape(t)) && Unescape(Escape(t), 0) == Ok(t)
  {
    assert Escape(t)[0..] == Escape(t);
    UnescapeEscape(Escape(t), 0, t);
    EscapeNulFree(t);
  }
}
