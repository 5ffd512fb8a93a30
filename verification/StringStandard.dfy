/**
 String literals as the standards write them: the grammar of section 7 of RFC 8259, surrogate pairs joined to one code
 point, and the octets of section 3 of RFC 3629. The decoder meets this reading.
 */
module StringStandard {
  import opened Text
  import opened StringCodec

  // ---------- what the standards say ----------

  /** 0123456789ABCDEF and 0123456789abcdef. */
  const UPPER_DIGITS: Bytes := [48, 49, 50, 51, 52, 53, 54, 55, 56, 57, 65, 66, 67, 68, 69, 70]
  const LOWER_DIGITS: Bytes := [48, 49, 50, 51, 52, 53, 54, 55, 56, 57, 97, 98, 99, 100, 101, 102]

  /** A hexadecimal digit and its value. */
  predicate IsHexDigit(b: Byte, v: nat) {
    v < 16 && (b == UPPER_DIGITS[v] || b == LOWER_DIGITS[v])
  }

  /** Four hexadecimal digits, in any mixture of cases, and the number they write. */
  predicate IsHexNumber(d: Bytes, n: nat) {
    && |d| == 4 && n < 0x10000
    && IsHexDigit(d[0], n / 0x1000) && IsHexDigit(d[1], n / 0x100 % 0x10)
    && IsHexDigit(d[2], n / 0x10 % 0x10) && IsHexDigit(d[3], n % 0x10)
  }

  /** The letters of the two-character escapes of section 7 of RFC 8259, and what they stand for. */
  const ESCAPES: map<Byte, Byte> :=
    map[34 := 34, 92 := 92, 47 := 47, 98 := 8, 102 := 12, 110 := 10, 114 := 13, 116 := 9]

  datatype Character = Character(cp: nat, length: nat)

  predicate IsTail(b: Byte) {
    0x80 <= b < 0xC0
  }

  /** The bits of an octet below its mark. */
  function Payload(b: Byte, mark: nat): nat
    requires mark <= b
  {
    b as int - mark
  }

  /** The character that a text starts with, by the table of section 3 of RFC 3629. */
  function FirstCharacter(u: Bytes): (c: Option<Character>)
    ensures c.Some? ==> 1 <= c.value.length <= |u|
  {
    if |u| >= 1 && u[0] < 0x80 then Some(Character(u[0], 1))
    else if |u| >= 2 && 0xC0 <= u[0] < 0xE0 && IsTail(u[1]) then
      InRange(Payload(u[0], 0xC0) * 0x40 + Payload(u[1], 0x80), 0x80, 2)
    else if |u| >= 3 && 0xE0 <= u[0] < 0xF0 && IsTail(u[1]) && IsTail(u[2]) then
      InRange(Payload(u[0], 0xE0) * 0x1000 + Payload(u[1], 0x80) * 0x40 + Payload(u[2], 0x80), 0x800, 3)
    else if |u| >= 4 && 0xF0 <= u[0] < 0xF8 && IsTail(u[1]) && IsTail(u[2]) && IsTail(u[3]) then
      InRange(Payload(u[0], 0xF0) * 0x40000 + Payload(u[1], 0x80) * 0x1000 + Payload(u[2], 0x80) * 0x40
              + Payload(u[3], 0x80), 0x10000, 4)
    else None
  }

  /** A code point that is no surrogate. */
  predicate IsScalar(cp: nat) {
    cp <= 0x10FFFF && !(0xD800 <= cp <= 0xDFFF)
  }

  /** No longer forms than needed, and only characters. */
  function InRange(cp: nat, least: nat, length: nat): Option<Character> {
    if least <= cp && IsScalar(cp) then Some(Character(cp, length)) else None
  }

  /** The code points of a text in UTF-8, or None when it is none. */
  function Characters(u: Bytes): Option<seq<nat>> {
    if u == [] then Some([])
    else
      match FirstCharacter(u)
      case None => None
      case Some(c) => Cons(c.cp, Characters(u[c.length..]))
  }

  /** A code point above 0xFFFF and its two halves in UTF-16 (section 2.1 of RFC 2781). */
  predicate IsPair(high: nat, low: nat, cp: nat) {
    0x10000 <= cp <= 0x10FFFF && high == 0xD800 + (cp - 0x10000) / 0x400 && low == 0xDC00 + (cp - 0x10000) % 0x400
  }

  datatype AnyGlyph = Plain(cp: nat, octets: Bytes) | Short(letter: Byte) | Unit(unit: nat, digits: Bytes)

  predicate IsGlyph(g: AnyGlyph) {
    match g
    case Plain(cp, u) =>
      cp >= 0x20 && cp != 0x22 && cp != 0x5C && FirstCharacter(u) == Some(Character(cp, |u|))
    case Short(x) => x in ESCAPES
    case Unit(n, d) => IsHexNumber(d, n)
  }

  /** One `char` of the grammar: an unescaped code point, a two-character escape, or \u and four digits. */
  type Glyph = g: AnyGlyph | IsGlyph(g) witness Plain(0x20, [0x20])

  function GlyphSpelling(g: Glyph): Bytes {
    match g
    case Plain(_, u) => u
    case Short(x) => [92, x]
    case Unit(_, d) => [92, 117] + d
  }

  predicate IsHalf(g: Glyph) {
    g.Unit? && 0xD800 <= g.unit <= 0xDFFF
  }

  /** The code point of a glyph that is not half of a pair. */
  function CodePoint(g: Glyph): nat {
    match g
    case Plain(cp, _) => cp
    case Short(x) => ESCAPES[x]
    case Unit(n, _) => n
  }

  /** The text that a literal stands for: surrogates come in pairs. */
  ghost predicate StandsFor(gs: seq<Glyph>, cps: seq<nat>) {
    if gs == [] then cps == []
    else if IsHalf(gs[0]) then
      && |gs| > 1 && gs[1].Unit? && cps != [] && IsPair(gs[0].unit, gs[1].unit, cps[0])
      && StandsFor(gs[2..], cps[1..])
    else cps != [] && cps[0] == CodePoint(gs[0]) && StandsFor(gs[1..], cps[1..])
  }

  // ---------- the codec computes it ----------

  /** The digits that parse_hex4 takes are those of the two tables. */
  lemma HexDigitIs(b: Byte, v: nat)
    ensures HexDigit(b) == Some(v) <==> IsHexDigit(b, v)
  {
  }

  /**
   Four digits of either case read back as the number they write, and everything else reads as 0.
   */
  lemma Hex4ReadsBack(s: Bytes, k: nat, n: nat)
    requires k + 4 <= |s|
    ensures IsHexNumber(s[k..k + 4], n) ==> Hex4(s, k) == n
    ensures n != 0 && Hex4(s, k) == n ==> IsHexNumber(s[k..k + 4], n)
  {
    hide IsHexDigit, HexDigit, Hex4;
    var d := s[k..k + 4];
    assert d[0] == s[k] && d[1] == s[k + 1] && d[2] == s[k + 2] && d[3] == s[k + 3];
    DigitsOfHex4(s, k);
    if n != 0 && Hex4(s, k) == n {
      HexDigitIs(s[k], HexDigit(s[k]).value);
      HexDigitIs(s[k + 1], HexDigit(s[k + 1]).value);
      HexDigitIs(s[k + 2], HexDigit(s[k + 2]).value);
      HexDigitIs(s[k + 3], HexDigit(s[k + 3]).value);
      Split(HexDigit(s[k]).value, HexDigit(s[k + 1]).value, HexDigit(s[k + 2]).value, HexDigit(s[k + 3]).value);
    }
    if IsHexNumber(d, n) {
      HexDigitIs(s[k], n / 0x1000);
      HexDigitIs(s[k + 1], n / 0x100 % 0x10);
      HexDigitIs(s[k + 2], n / 0x10 % 0x10);
      HexDigitIs(s[k + 3], n % 0x10);
      SplitOf(n);
    }
  }

  lemma DigitsOfHex4(s: Bytes, k: nat)
    requires k + 4 <= |s|
    ensures var (a, b, c, d) := (HexDigit(s[k]), HexDigit(s[k + 1]), HexDigit(s[k + 2]), HexDigit(s[k + 3]));
            Hex4(s, k) == if a.Some? && b.Some? && c.Some? && d.Some?
              then 4096 * a.value + 256 * b.value + 16 * c.value + d.value else 0
    ensures forall j | k <= j < k + 4 && HexDigit(s[j]).Some? :: HexDigit(s[j]).value < 16
  {
  }

  lemma SplitOf(n: nat)
    ensures n == n / 0x1000 * 4096 + n / 0x100 % 0x10 * 256 + n / 0x10 % 0x10 * 16 + n % 0x10
  {
    var a, b, c := n / 0x10, n / 0x100, n / 0x1000;
    assert n == a * 0x10 + n % 0x10;
    assert b == a / 0x10 && a == b * 0x10 + a % 0x10;
    assert c == b / 0x10 && b == c * 0x10 + b % 0x10;
  }

  lemma Split(a: nat, b: nat, c: nat, d: nat)
    requires a < 16 && b < 16 && c < 16 && d < 16
    ensures var n := 4096 * a + 256 * b + 16 * c + d;
            n < 0x10000 && n / 0x1000 == a && n / 0x100 % 0x10 == b && n / 0x10 % 0x10 == c && n % 0x10 == d
  {
    var n := 4096 * a + 256 * b + 16 * c + d;
    assert n / 0x10 == 256 * a + 16 * b + c;
    assert n / 0x100 == 16 * a + b;
  }

  /** The escapes with one letter are those of the table. */
  lemma ShortEscapeIs(x: Byte)
    ensures ShortEscape(x) == if x in ESCAPES then Some(ESCAPES[x]) else None
  {
  }

  /** Joining undoes the division of a code point into its halves, for every pair of halves. */
  lemma JoinIs(high: nat, low: nat, cp: nat)
    ensures IsPair(high, low, cp) <==> IsHigh(high) && IsLow(low) && Join(high, low) == cp
  {
  }

  /** Two, three and four digits of base 64, put together and taken apart. */
  lemma TwoSixes(a: nat, b: nat)
    requires b < 0x40
    ensures var n := a * 0x40 + b; n / 0x40 == a && n % 0x40 == b
  {
  }

  lemma ThreeSixes(a: nat, b: nat, c: nat)
    requires b < 0x40 && c < 0x40
    ensures var n := a * 0x1000 + b * 0x40 + c; n / 0x1000 == a && n / 0x40 % 0x40 == b && n % 0x40 == c
  {
    TwoSixes(a * 0x40 + b, c);
    TwoSixes(a, b);
    assert a * 0x1000 <= a * 0x1000 + b * 0x40 + c < (a + 1) * 0x1000;
  }

  lemma FourSixes(a: nat, b: nat, c: nat, d: nat)
    requires b < 0x40 && c < 0x40 && d < 0x40
    ensures var n := a * 0x40000 + b * 0x1000 + c * 0x40 + d;
            n / 0x40000 == a && n / 0x1000 % 0x40 == b && n / 0x40 % 0x40 == c && n % 0x40 == d
  {
    ThreeSixes(a * 0x40 + b, c, d);
    TwoSixes(a, b);
    assert a * 0x40000 <= a * 0x40000 + b * 0x1000 + c * 0x40 + d < (a + 1) * 0x40000;
  }

  lemma SixesOf(n: nat)
    ensures n == n / 0x40 * 0x40 + n % 0x40
    ensures n == n / 0x1000 * 0x1000 + n / 0x40 % 0x40 * 0x40 + n % 0x40
    ensures n == n / 0x40000 * 0x40000 + n / 0x1000 % 0x40 * 0x1000 + n / 0x40 % 0x40 * 0x40 + n % 0x40
  {
    var a, b, c := n / 0x40, n / 0x1000, n / 0x40000;
    assert n == a * 0x40 + n % 0x40;
    assert b == a / 0x40 && a == b * 0x40 + a % 0x40;
    assert c == b / 0x40 && b == c * 0x40 + b % 0x40;
  }

  /** The encoder writes what the table of RFC 3629 reads as the code point. */
  lemma Utf8Reads(cp: nat, rest: Bytes)
    requires IsScalar(cp)
    ensures FirstCharacter(Utf8(cp) + rest) == Some(Character(cp, |Utf8(cp)|))
  {
    var u := Utf8(cp) + rest;
    assert forall k | 0 <= k < |Utf8(cp)| :: u[k] == Utf8(cp)[k];
    SixesOf(cp);
  }

  /** A character has one form only. */
  lemma Utf8Unique(u: Bytes, cp: nat)
    requires FirstCharacter(u) == Some(Character(cp, |u|))
    ensures cp <= 0x10FFFF && u == Utf8(cp)
  {
    if |u| == 2 {
      TwoSixes(Payload(u[0], 0xC0), Payload(u[1], 0x80));
    } else if |u| == 3 {
      ThreeSixes(Payload(u[0], 0xE0), Payload(u[1], 0x80), Payload(u[2], 0x80));
    } else if |u| == 4 {
      FourSixes(Payload(u[0], 0xF0), Payload(u[1], 0x80), Payload(u[2], 0x80), Payload(u[3], 0x80));
    }
  }

  function Spell(gs: seq<Glyph>): Bytes {
    if gs == [] then [] else GlyphSpelling(gs[0]) + Spell(gs[1..])
  }

  /** The code unit of a \u escape. */
  function Code(g: Glyph): nat
    requires g.Unit?
  {
    g.unit
  }

  predicate LowFirst(gs: seq<Glyph>) {
    gs != [] && gs[0].Unit? && IsLow(Code(gs[0]))
  }

  /** The code points of a literal in the way the decoder finds them, or None when it has an unpaired surrogate. */
  function CodePoints(gs: seq<Glyph>): (r: Option<seq<nat>>) {
    if gs == [] then Some([])
    else
      var rest := gs[1..];
      match gs[0]
      case Plain(cp, _) => Cons(cp, CodePoints(rest))
      case Short(x) => Cons(ESCAPES[x], CodePoints(rest))
      case Unit(n, _) =>
        if IsLow(n) then None
        else if IsHigh(n) then
          if LowFirst(rest) then Cons(Join(n, Code(rest[0])), CodePoints(rest[1..])) else None
        else Cons(n, CodePoints(rest))
  }

  function Cons(cp: nat, r: Option<seq<nat>>): Option<seq<nat>> {
    if r.Some? then Some([cp] + r.value) else None
  }

  /** The UTF-8 form of a text; no octets for numbers that are not code points. */
  function Utf8All(cps: seq<nat>): Bytes {
    if cps == [] then []
    else (if cps[0] <= 0x10FFFF then Utf8(cps[0]) else []) + Utf8All(cps[1..])
  }

  lemma PrependTwice(a: Bytes, b: Bytes, r: Result<Bytes>)
    ensures Prepend(a, Prepend(b, r)) == Prepend(a + b, r)
    ensures Prepend([], r) == r
  {
    if r.Ok? {
      assert a + (b + r.value) == a + b + r.value;
      assert [] + r.value == r.value;
    }
  }

  /** Bytes that are neither quote nor backslash are copied. */
  lemma {:induction false} CopyPlain(s: Bytes, p: nat, u: Bytes)
    requires At(s, p, u) && QUOTE !in u && BACKSLASH !in u
    ensures Unescape(s, p) == Prepend(u, Unescape(s, p + |u|))
    ensures RawSpan(s, p + |u|, |s|) ==> RawSpan(s, p, |s|)
    decreases |u|
  {
    var r := Unescape(s, p + |u|);
    if u == [] {
      PrependTwice([], [], r);
    } else {
      var b, rest := u[0], u[1..];
      AtIndex(s, p, u, 0);
      assert s[p + 1..p + |u|] == s[p..p + |u|][1..] == rest;
      CopyPlain(s, p + 1, rest);
      assert u == [b] + rest && s[p] == b;
      PrependTwice([b], rest, r);
    }
  }

  lemma PlainDigit(b: Byte, v: nat)
    requires IsHexDigit(b, v)
    ensures b != QUOTE && b != BACKSLASH
  {
  }

  lemma UnitBytes(s: Bytes, p: nat, g: Glyph)
    requires g.Unit? && At(s, p, GlyphSpelling(g))
    ensures p + 6 <= |s| && |g.digits| == 4 && s[p] == BACKSLASH && s[p + 2] == g.digits[0] && s[p + 3] == g.digits[1]
    ensures s[p + 4] == g.digits[2] && s[p + 5] == g.digits[3]
  {
    hide At, IsHexDigit;
    var e := GlyphSpelling(g);
    AtIndex(s, p, e, 0);
    AtIndex(s, p, e, 2);
    AtIndex(s, p, e, 3);
    AtIndex(s, p, e, 4);
    AtIndex(s, p, e, 5);
  }

  /** Pass one walks over a \u sequence whatever its value. */
  lemma WalkUnit(s: Bytes, p: nat, g: Glyph)
    requires g.Unit? && At(s, p, GlyphSpelling(g)) && RawSpan(s, p + 6, |s|)
    ensures RawSpan(s, p, |s|)
  {
    hide IsHexDigit, At;
    var d := g.digits;
    UnitBytes(s, p, g);
    PlainDigit(d[0], g.unit / 0x1000);
    PlainDigit(d[1], g.unit / 0x100 % 0x10);
    PlainDigit(d[2], g.unit / 0x10 % 0x10);
    PlainDigit(d[3], g.unit % 0x10);
    assert RawSpan(s, p + 5, |s|);
    assert RawSpan(s, p + 4, |s|);
    assert RawSpan(s, p + 3, |s|);
  }

  /** The unit that pass two reads at p is the unit spelled there. */
  lemma UnitAt(s: Bytes, p: nat, g: Glyph)
    requires g.Unit? && At(s, p, GlyphSpelling(g))
    ensures p + 6 <= |s| && s[p] == BACKSLASH && s[p + 1] == 117 && Hex4(s, p + 2) == Code(g)
  {
    AtConcat(s, p, [BACKSLASH, 117], g.digits);
    AtIndex(s, p, [BACKSLASH, 117], 0);
    AtIndex(s, p, [BACKSLASH, 117], 1);
    Hex4ReadsBack(s, p + 2, g.unit);
  }

  lemma Utf8IsPlain(g: Glyph)
    requires g.Plain?
    ensures g.cp <= 0x10FFFF && g.octets == Utf8(g.cp) && QUOTE !in g.octets && BACKSLASH !in g.octets
  {
    Utf8Unique(g.octets, g.cp);
  }

  /** What stands at p tells whether a low surrogate follows. */
  lemma LowUnitAt(s: Bytes, p: nat, gs: seq<Glyph>)
    requires p <= |s| && s[p..] == Spell(gs)
    ensures (|s| - p >= 6 && s[p] == BACKSLASH && s[p + 1] == 117 && IsLow(Hex4(s, p + 2))) <==> LowFirst(gs)
  {
    if gs != [] {
      var g := gs[0];
      AtHead(s, p, gs);
      match g {
        case Plain(_, u) =>
          Utf8IsPlain(g);
          AtIndex(s, p, u, 0);
        case Short(x) =>
          AtIndex(s, p, [BACKSLASH, x], 1);
        case Unit(_, _) =>
          UnitAt(s, p, g);
      }
    }
  }

  lemma AtHead(s: Bytes, p: nat, gs: seq<Glyph>)
    requires p <= |s| && gs != [] && s[p..] == Spell(gs)
    ensures At(s, p, GlyphSpelling(gs[0])) && p + |GlyphSpelling(gs[0])| <= |s|
    ensures s[p + |GlyphSpelling(gs[0])|..] == Spell(gs[1..])
  {
    var e := GlyphSpelling(gs[0]);
    assert s[p..p + |e|] == s[p..][..|e|] == e;
    assert s[p + |e|..] == s[p..][|e|..];
  }

  /** The decoded form of a text whose code points are known, or a failure. */
  ghost predicate Yields(r: Result<Bytes>, cps: Option<seq<nat>>) {
    match cps
    case None => r.Err?
    case Some(v) => r == Ok(Utf8All(v))
  }

  /** Prepending the form of one code point. */
  lemma YieldsCons(cp: nat, r: Result<Bytes>, cps: Option<seq<nat>>)
    requires cp <= 0x10FFFF && Yields(r, cps)
    ensures Yields(Prepend(Utf8(cp), r), Cons(cp, cps))
  {
    if cps.Some? {
      assert ([cp] + cps.value)[1..] == cps.value;
    }
  }

  lemma YieldsPlain(s: Bytes, p: nat, g: Glyph, cps: Option<seq<nat>>)
    requires g.Plain? && At(s, p, GlyphSpelling(g))
    requires Yields(Unescape(s, p + |GlyphSpelling(g)|), cps)
    ensures g.cp <= 0x10FFFF && Yields(Unescape(s, p), Cons(g.cp, cps))
    ensures RawSpan(s, p + |GlyphSpelling(g)|, |s|) ==> RawSpan(s, p, |s|)
  {
    Utf8IsPlain(g);
    CopyPlain(s, p, g.octets);
    YieldsCons(g.cp, Unescape(s, p + |GlyphSpelling(g)|), cps);
  }

  lemma YieldsShort(s: Bytes, p: nat, g: Glyph, cps: Option<seq<nat>>)
    requires g.Short? && At(s, p, GlyphSpelling(g))
    requires Yields(Unescape(s, p + 2), cps)
    ensures Yields(Unescape(s, p), Cons(ESCAPES[g.letter], cps))
    ensures RawSpan(s, p + 2, |s|) ==> RawSpan(s, p, |s|)
  {
    AtIndex(s, p, GlyphSpelling(g), 0);
    AtIndex(s, p, GlyphSpelling(g), 1);
    var v := ESCAPES[g.letter];
    ShortEscapeIs(g.letter);
    assert Utf8(v) == [v];
    YieldsCons(v, Unescape(s, p + 2), cps);
  }

  /** A \u escape that is not half of a pair. */
  lemma YieldsUnit(s: Bytes, p: nat, g: Glyph, cps: Option<seq<nat>>)
    requires g.Unit? && At(s, p, GlyphSpelling(g))
    requires !IsLow(Code(g)) && !IsHigh(Code(g)) && Yields(Unescape(s, p + 6), cps)
    ensures Yields(Unescape(s, p), Cons(Code(g), cps))
  {
    UnitAt(s, p, g);
    YieldsCons(Code(g), Unescape(s, p + 6), cps);
  }

  /** A surrogate pair. */
  lemma YieldsPair(s: Bytes, p: nat, g: Glyph, h: Glyph, cps: Option<seq<nat>>)
    requires g.Unit? && At(s, p, GlyphSpelling(g)) && IsHigh(Code(g))
    requires h.Unit? && At(s, p + 6, GlyphSpelling(h)) && IsLow(Code(h))
    requires Yields(Unescape(s, p + 12), cps)
    ensures Yields(Unescape(s, p), Cons(Join(Code(g), Code(h)), cps))
  {
    UnitAt(s, p, g);
    UnitAt(s, p + 6, h);
    assert Utf16Literal(s, p) == Some(Literal(Join(Code(g), Code(h)), 12));
    YieldsCons(Join(Code(g), Code(h)), Unescape(s, p + 12), cps);
  }

  /** A surrogate on its own. */
  lemma YieldsNothing(s: Bytes, p: nat, g: Glyph, rest: seq<Glyph>)
    requires g.Unit? && At(s, p, GlyphSpelling(g)) && s[p + 6..] == Spell(rest)
    requires IsLow(Code(g)) || (IsHigh(Code(g)) && !LowFirst(rest))
    ensures Unescape(s, p).Err?
  {
    UnitAt(s, p, g);
    LowUnitAt(s, p + 6, rest);
    assert Utf16Literal(s, p) == None;
  }

  /** The case of a \u escape: on its own, first half of a pair, or unpaired. */
  lemma DecodesUnit(s: Bytes, p: nat, gs: seq<Glyph>)
    requires p <= |s| && gs != [] && gs[0].Unit? && s[p..] == Spell(gs)
    requires Yields(Unescape(s, p + 6), CodePoints(gs[1..]))
    requires LowFirst(gs[1..]) ==> Yields(Unescape(s, p + 12), CodePoints(gs[1..][1..]))
    ensures Yields(Unescape(s, p), CodePoints(gs))
  {
    hide Unescape, Utf8All;
    var g, rest := gs[0], gs[1..];
    AtHead(s, p, gs);
    if IsHigh(Code(g)) && LowFirst(rest) {
      AtHead(s, p + 6, rest);
      YieldsPair(s, p, g, rest[0], CodePoints(rest[1..]));
    } else if IsLow(Code(g)) || IsHigh(Code(g)) {
      YieldsNothing(s, p, g, rest);
    } else {
      YieldsUnit(s, p, g, CodePoints(rest));
    }
  }

  lemma DecodesNothing(s: Bytes)
    ensures Yields(Unescape(s, |s|), Some([])) && RawSpan(s, |s|, |s|)
  {
  }

  /** The case of a glyph other than a \u escape. */
  lemma DecodesGlyph(s: Bytes, p: nat, gs: seq<Glyph>)
    requires gs != [] && !gs[0].Unit? && At(s, p, GlyphSpelling(gs[0]))
    requires var q := p + |GlyphSpelling(gs[0])|; Yields(Unescape(s, q), CodePoints(gs[1..])) && RawSpan(s, q, |s|)
    ensures Yields(Unescape(s, p), CodePoints(gs)) && RawSpan(s, p, |s|)
  {
    hide Unescape, Utf8All, RawSpan, Yields, At;
    if gs[0].Plain? {
      YieldsPlain(s, p, gs[0], CodePoints(gs[1..]));
    } else {
      YieldsShort(s, p, gs[0], CodePoints(gs[1..]));
    }
  }

  lemma UnitSpelling(g: Glyph)
    requires g.Unit?
    ensures |GlyphSpelling(g)| == 6
  {
  }

  /**
   On every literal of the grammar the second pass yields the UTF-8 form of the code points it denotes, with surrogate
   pairs joined, and it fails exactly when a surrogate is unpaired. The first pass accepts them all.
   */
  lemma {:induction false} DecodesToUtf8(s: Bytes, p: nat, gs: seq<Glyph>)
    requires p <= |s| && s[p..] == Spell(gs)
    ensures Yields(Unescape(s, p), CodePoints(gs)) && RawSpan(s, p, |s|)
    decreases |gs|
  {
    DecodesNothing(s);
    hide Unescape, Utf8All, Code, Utf8, RawSpan, Yields, At, Join, IsLow, IsHigh, GlyphSpelling, Spell;
    if gs == [] {
      assert p == |s| by { NothingSpelled(s, p); }
    } else {
      var g, rest := gs[0], gs[1..];
      AtHead(s, p, gs);
      var q := p + |GlyphSpelling(g)|;
      DecodesToUtf8(s, q, rest);
      if g.Unit? {
        UnitSpelling(g);
        WalkUnit(s, p, g);
        if LowFirst(rest) {
          AtHead(s, q, rest);
          UnitSpelling(rest[0]);
          DecodesToUtf8(s, q + 6, rest[1..]);
        }
        DecodesUnit(s, p, gs);
      } else {
        DecodesGlyph(s, p, gs);
      }
    }
  }

  lemma NothingSpelled(s: Bytes, p: nat)
    requires p <= |s| && s[p..] == Spell([])
    ensures p == |s|
  {
  }

  /** A literal stands for the code points that the decoder finds, and for no others. */
  lemma {:induction false} StandsForIff(gs: seq<Glyph>, cps: seq<nat>)
    ensures StandsFor(gs, cps) <==> CodePoints(gs) == Some(cps)
    decreases |gs|
  {
    hide FirstCharacter, IsHexNumber, IsPair, Join, IsHigh, IsLow, IsHalf;
    if gs != [] && cps != [] {
      assert cps == [cps[0]] + cps[1..];
      StandsForIff(gs[1..], cps[1..]);
      Halves(gs[0]);
      if |gs| > 1 && gs[0].Unit? && gs[1].Unit? {
        assert gs[1..][1..] == gs[2..];
        StandsForIff(gs[2..], cps[1..]);
        JoinIs(gs[0].unit, gs[1].unit, cps[0]);
      }
    }
  }

  /** Surrogates are the halves of pairs, a high one first. */
  lemma Halves(g: Glyph)
    ensures IsHalf(g) <==> g.Unit? && (IsHigh(g.unit) || IsLow(g.unit))
    ensures g.Unit? ==> !(IsHigh(g.unit) && IsLow(g.unit))
  {
  }

  lemma OneScalar(g: Glyph)
    requires !IsHalf(g)
    ensures IsScalar(CodePoint(g))
  {
    if g.Plain? {
      Utf8Unique(g.octets, g.cp);
    }
  }

  /** No surrogate is left over. */
  lemma {:induction false} StandsForCharacters(gs: seq<Glyph>, cps: seq<nat>)
    requires StandsFor(gs, cps)
    ensures forall k | 0 <= k < |cps| :: IsScalar(cps[k])
    decreases |gs|
  {
    hide CodePoint, IsHalf;
    if gs != [] {
      assert forall k | 0 < k < |cps| :: cps[k] == cps[1..][k - 1];
      if IsHalf(gs[0]) {
        StandsForCharacters(gs[2..], cps[1..]);
      } else {
        OneScalar(gs[0]);
        StandsForCharacters(gs[1..], cps[1..]);
      }
    }
  }

  lemma {:induction false} ReadsBack(cps: seq<nat>)
    requires forall k | 0 <= k < |cps| :: IsScalar(cps[k])
    ensures Characters(Utf8All(cps)) == Some(cps)
  {
    hide FirstCharacter, Utf8;
    if cps != [] {
      var rest := Utf8All(cps[1..]);
      Utf8Reads(cps[0], rest);
      ReadsBack(cps[1..]);
      assert Utf8All(cps) == Utf8(cps[0]) + rest && Utf8All(cps)[|Utf8(cps[0])|..] == rest;
      assert cps == [cps[0]] + cps[1..];
    }
  }

  /**
   The same for a whole literal, in the terms of the standards: parse_string accepts it exactly when it stands for a
   text, that is when its surrogates come in pairs, and the octets that it stores are that text in UTF-8.
   */
  lemma LiteralDecoding(gs: seq<Glyph>, cps: seq<nat>)
    ensures RawSpan(Spell(gs), 0, |Spell(gs)|)
    ensures Unescape(Spell(gs), 0).Ok? <==> exists v :: StandsFor(gs, v)
    ensures StandsFor(gs, cps) ==>
              Unescape(Spell(gs), 0).Ok? && Characters(Unescape(Spell(gs), 0).value) == Some(cps)
  {
    hide StandsFor, CodePoints, Characters, Unescape, Utf8All, RawSpan;
    assert Spell(gs)[0..] == Spell(gs);
    DecodesToUtf8(Spell(gs), 0, gs);
    StandsForIff(gs, cps);
    if StandsFor(gs, cps) {
      StandsForCharacters(gs, cps);
      ReadsBack(cps);
    }
    if CodePoints(gs).Some? {
      StandsForIff(gs, CodePoints(gs).value);
    }
    forall v | StandsFor(gs, v) ensures CodePoints(gs).Some? {
      StandsForIff(gs, v);
    }
  }

  // ---------- escaping ----------

  /**
   What print_string_ptr makes of a byte: itself, or the letter of the table, or u00 and two small digits. A slash is
   not escaped, and neither is a byte above 126.
   */
  lemma EscapeByteIs(b: Byte)
    ensures b >= 32 && b != 34 && b != 92 ==> EscapeByte(b) == [b]
    ensures b in [34, 92, 8, 12, 10, 13, 9] ==>
              var e := EscapeByte(b); |e| == 2 && e[0] == 92 && e[1] in ESCAPES && ESCAPES[e[1]] == b
    ensures b < 32 && b !in [8, 12, 10, 13, 9] ==>
              EscapeByte(b) == [92, 117, 48, 48, LOWER_DIGITS[b / 16], LOWER_DIGITS[b % 16]]
  {
  }
}
