/**
 cJSON_Minify as a function: what it leaves of a C string, and that it keeps the meaning of every accepted text.
 */
module Minification {
  import opened Text
  import opened StringCodec
  import opened Numbers
  import opened Values
  import opened Grammar
  import opened Language
  import opened Rendering
  import opened RoundTrip

  /** The four bytes that are dropped between tokens. */
  predicate IsBlank(b: Byte) {
    b == SPACE || b == TAB || b == CR || b == LF
  }

  /** From a line comment to its line feed, or to the end. */
  function DropLine(s: Bytes): (r: Bytes)
    ensures |r| <= |s| && r == s[|s| - |r|..]
    ensures s != [] && s[0] != LF ==> |r| < |s|
  {
    if s == [] || s[0] == LF then s else DropLine(s[1..])
  }

  /** From a block comment to behind its end mark. */
  function DropBlock(s: Bytes): (r: Option<Bytes>)
    ensures r.Some? ==> |r.value| < |s| && r.value == s[|s| - |r.value|..]
  {
    if |s| < 2 then None
    else if s[0] == STAR && s[1] == SLASH then Some(s[2..])
    else DropBlock(s[1..])
  }

  predicate LineComment(s: Bytes) {
    |s| > 1 && s[0] == SLASH && s[1] == SLASH
  }

  predicate BlockComment(s: Bytes) {
    |s| > 1 && s[0] == SLASH && s[1] == STAR
  }

  /** Every block comment and every string that minifying meets is closed. */
  predicate Closed(s: Bytes)
    decreases |s|
  {
    if s == [] then true
    else if IsBlank(s[0]) then Closed(s[1..])
    else if LineComment(s) then Closed(DropLine(s))
    else if BlockComment(s) then DropBlock(s).Some? && Closed(DropBlock(s).value)
    else if s[0] == QUOTE then ScanString(s, 1).Some? && Closed(s[ScanString(s, 1).value + 1..])
    else Closed(s[1..])
  }

  /** What is left of s: string literals verbatim, no blanks and no comments outside them. */
  function Minify(s: Bytes): Bytes
    requires Closed(s)
    decreases |s|
  {
    if s == [] then []
    else if IsBlank(s[0]) then Minify(s[1..])
    else if LineComment(s) then Minify(DropLine(s))
    else if BlockComment(s) then Minify(DropBlock(s).value)
    else if s[0] == QUOTE then
      var e := ScanString(s, 1).value;
      s[..e + 1] + Minify(s[e + 1..])
    else [s[0]] + Minify(s[1..])
  }

  // ---------- minifying a text piece by piece ----------

  /** Minifying turns u into v whatever comes behind it. */
  ghost predicate Carries(u: Bytes, v: Bytes) {
    forall b: Bytes | Closed(b) :: Closed(u + b) && Minify(u + b) == v + Minify(b)
  }

  lemma CarriesNothing()
    ensures Carries([], [])
  {
    forall b: Bytes | Closed(b) ensures Closed([] + b) && Minify([] + b) == [] + Minify(b) {
      assert [] + b == b;
    }
  }

  lemma CarriesTo(u: Bytes, v: Bytes, b: Bytes)
    requires Carries(u, v) && Closed(b)
    ensures Closed(u + b) && Minify(u + b) == v + Minify(b)
  {
    hide Closed, Minify;
  }

  lemma CarriesIf(u: Bytes, v: Bytes)
    requires forall b: Bytes | Closed(b) :: Closed(u + b) && Minify(u + b) == v + Minify(b)
    ensures Carries(u, v)
  {
    hide Closed, Minify;
  }

  lemma CarriesConcat(u1: Bytes, v1: Bytes, u2: Bytes, v2: Bytes)
    requires Carries(u1, v1) && Carries(u2, v2)
    ensures Carries(u1 + u2, v1 + v2)
  {
    hide Closed, Minify, Carries;
    forall b: Bytes | Closed(b) ensures Closed((u1 + u2) + b) && Minify((u1 + u2) + b) == (v1 + v2) + Minify(b) {
      CarriesTo(u2, v2, b);
      CarriesTo(u1, v1, u2 + b);
      assert (u1 + u2) + b == u1 + (u2 + b);
      assert v1 + (v2 + Minify(b)) == (v1 + v2) + Minify(b);
    }
    CarriesIf(u1 + u2, v1 + v2);
  }

  /** Bytes that stand for themselves. */
  predicate IsPlainByte(x: Byte) {
    !IsBlank(x) && x != SLASH && x != QUOTE
  }

  lemma CarriesByte(x: Byte)
    requires IsPlainByte(x) || IsBlank(x)
    ensures Carries([x], if IsBlank(x) then [] else [x])
  {
    forall b: Bytes | Closed(b)
      ensures Closed([x] + b) && Minify([x] + b) == (if IsBlank(x) then [] else [x]) + Minify(b)
    {
      assert ([x] + b)[1..] == b;
    }
  }

  lemma {:induction false} CarriesPlain(u: Bytes)
    requires forall k | 0 <= k < |u| :: IsPlainByte(u[k])
    ensures Carries(u, u)
  {
    hide Carries;
    if u == [] {
      CarriesNothing();
    } else {
      CarriesByte(u[0]);
      CarriesPlain(u[1..]);
      CarriesConcat([u[0]], [u[0]], u[1..], u[1..]);
      assert u == [u[0]] + u[1..];
    }
  }

  /** What minifying leaves of a gap: the control bytes other than the four blanks. */
  function StripGap(g: Bytes): (r: Bytes)
    ensures IsGap(g) ==> IsGap(r)
    ensures forall k | 0 <= k < |r| :: !IsBlank(r[k])
  {
    if g == [] then [] else (if IsBlank(g[0]) then [] else [g[0]]) + StripGap(g[1..])
  }

  lemma {:induction false} CarriesGap(g: Bytes)
    requires IsGap(g)
    ensures Carries(g, StripGap(g))
  {
    hide Carries;
    if g == [] {
      CarriesNothing();
    } else {
      CarriesByte(g[0]);
      CarriesGap(g[1..]);
      CarriesConcat([g[0]], if IsBlank(g[0]) then [] else [g[0]], g[1..], StripGap(g[1..]));
      assert g == [g[0]] + g[1..];
    }
  }

  lemma CarriesQuoted(raw: Bytes)
    requires IsRaw(raw)
    ensures Carries(Quoted(raw), Quoted(raw))
  {
    hide Unescape;
    forall b: Bytes | Closed(b) ensures Closed(Quoted(raw) + b) && Minify(Quoted(raw) + b) == Quoted(raw) + Minify(b) {
      var s := Quoted(raw) + b;
      assert s[1..1 + |raw|] == raw;
      SpanOfSlice(s, 1, raw, 0);
      ScanFinds(s, 1, 1 + |raw|);
      assert s[|raw| + 2..] == b && s[..|raw| + 2] == Quoted(raw);
    }
  }

  /** The text with its gaps stripped. */
  function Strip(x: Syntax): Syntax {
    match x
    case Arr(es) => Arr(StripElems(es))
    case Obj(fs) => Obj(StripFields(fs))
    case _ => x
  }

  function StripElems(es: Elems): Elems {
    match es
    case NoElems(gap) => NoElems(StripGap(gap))
    case LastElem(pre, x, post) => LastElem(StripGap(pre), Strip(x), StripGap(post))
    case Elem(pre, x, post, rest) => Elem(StripGap(pre), Strip(x), StripGap(post), StripElems(rest))
  }

  function StripHead(h: Head): Head {
    Head(StripGap(h.pre), h.key, StripGap(h.mid), StripGap(h.mid2))
  }

  function StripFields(fs: Fields): Fields {
    match fs
    case NoFields(gap) => NoFields(StripGap(gap))
    case LastField(h, x, post) => LastField(StripHead(h), Strip(x), StripGap(post))
    case Field(h, x, post, rest) => Field(StripHead(h), Strip(x), StripGap(post), StripFields(rest))
  }

  function StripDocument(d: Document): Document {
    Document(d.bom, StripGap(d.pre), Strip(d.x), StripGap(d.post))
  }

  lemma CarriesAround(pre: Bytes, x: Bytes, y: Bytes, post: Bytes, tail: Bytes, tail2: Bytes)
    requires IsGap(pre) && IsGap(post) && Carries(x, y) && Carries(tail, tail2)
    ensures Carries(pre + (x + (post + tail)), StripGap(pre) + (y + (StripGap(post) + tail2)))
  {
    hide Carries;
    CarriesGap(pre);
    CarriesGap(post);
    CarriesConcat(post, StripGap(post), tail, tail2);
    CarriesConcat(x, y, post + tail, StripGap(post) + tail2);
    CarriesConcat(pre, StripGap(pre), x + (post + tail), y + (StripGap(post) + tail2));
  }

  lemma {:induction false} CarriesSyntax(x: Syntax)
    requires WellFormed(x)
    ensures Carries(Spelling(x), Spelling(Strip(x)))
    decreases x
  {
    hide Carries;
    match x {
      case Num(raw) =>
        LexemeBytes(raw);
        CarriesPlain(raw);
      case Str(raw) =>
        CarriesQuoted(raw);
      case Arr(es) =>
        CarriesElems(es);
        CarriesByte(LBRACKET);
        CarriesConcat([LBRACKET], [LBRACKET], SpellElems(es), SpellElems(StripElems(es)));
      case Obj(fs) =>
        CarriesFields(fs);
        CarriesByte(LBRACE);
        CarriesConcat([LBRACE], [LBRACE], SpellFields(fs), SpellFields(StripFields(fs)));
      case _ =>
        CarriesPlain(Spelling(x));
    }
  }

  lemma {:induction false} CarriesElems(es: Elems)
    requires WellFormedElems(es)
    ensures Carries(SpellElems(es), SpellElems(StripElems(es)))
    decreases es
  {
    hide Carries, Spelling, Strip, WellFormed;
    CarriesByte(RBRACKET);
    match es {
      case NoElems(gap) =>
        CarriesGap(gap);
        CarriesConcat(gap, StripGap(gap), [RBRACKET], [RBRACKET]);
      case LastElem(pre, x, post) =>
        CarriesSyntax(x);
        CarriesAround(pre, Spelling(x), Spelling(Strip(x)), post, [RBRACKET], [RBRACKET]);
      case Elem(pre, x, post, rest) =>
        CarriesSyntax(x);
        CarriesElems(rest);
        CarriesByte(COMMA);
        CarriesConcat([COMMA], [COMMA], SpellElems(rest), SpellElems(StripElems(rest)));
        CarriesAround(pre, Spelling(x), Spelling(Strip(x)), post,
                      [COMMA] + SpellElems(rest), [COMMA] + SpellElems(StripElems(rest)));
    }
  }

  lemma CarriesHead(h: Head)
    requires WellFormedHead(h)
    ensures Carries(SpellHead(h), SpellHead(StripHead(h)))
  {
    hide Carries, IsRaw;
    CarriesQuoted(h.key);
    CarriesByte(COLON);
    CarriesGap(h.mid2);
    CarriesConcat([COLON], [COLON], h.mid2, StripGap(h.mid2));
    CarriesAround(h.pre, Quoted(h.key), Quoted(h.key), h.mid, [COLON] + h.mid2, [COLON] + StripGap(h.mid2));
  }

  lemma {:induction false} CarriesFields(fs: Fields)
    requires WellFormedFields(fs)
    ensures Carries(SpellFields(fs), SpellFields(StripFields(fs)))
    decreases fs
  {
    hide Carries, Spelling, Strip, WellFormed, WellFormedHead, SpellHead, StripHead;
    CarriesByte(RBRACE);
    if fs.NoFields? {
      CarriesGap(fs.gap);
      CarriesConcat(fs.gap, StripGap(fs.gap), [RBRACE], [RBRACE]);
    } else {
      var tail := if fs.Field? then [COMMA] + SpellFields(fs.rest) else [RBRACE];
      var tail2 := if fs.Field? then [COMMA] + SpellFields(StripFields(fs.rest)) else [RBRACE];
      if fs.Field? {
        CarriesFields(fs.rest);
        CarriesByte(COMMA);
        CarriesConcat([COMMA], [COMMA], SpellFields(fs.rest), SpellFields(StripFields(fs.rest)));
      }
      CarriesHead(fs.head);
      CarriesSyntax(fs.x);
      CarriesMember(SpellHead(fs.head), SpellHead(StripHead(fs.head)), Spelling(fs.x), Spelling(Strip(fs.x)),
        fs.post, tail, tail2);
    }
  }

  lemma CarriesMember(h: Bytes, h2: Bytes, x: Bytes, y: Bytes, post: Bytes, tail: Bytes, tail2: Bytes)
    requires Carries(h, h2) && Carries(x, y) && IsGap(post) && Carries(tail, tail2)
    ensures Carries(h + (x + (post + tail)), h2 + (y + (StripGap(post) + tail2)))
  {
    hide Carries;
    CarriesGap(post);
    CarriesConcat(post, StripGap(post), tail, tail2);
    CarriesConcat(x, y, post + tail, StripGap(post) + tail2);
    CarriesConcat(h, h2, x + (post + tail), y + (StripGap(post) + tail2));
  }

  /** Minifying a document strips its gaps and nothing else. */
  lemma MinifyDocument(d: Document)
    requires WellFormedDocument(d)
    ensures Closed(SpellDocument(d)) && Minify(SpellDocument(d)) == SpellDocument(StripDocument(d))
  {
    var bom := if d.bom then BOM else [];
    var body, body2 := d.pre + (Spelling(d.x) + d.post), StripGap(d.pre) + (Spelling(Strip(d.x)) + StripGap(d.post));
    assert Carries(bom + body, bom + body2) by {
      hide Carries, Spelling, WellFormed, Strip;
      CarriesPlain(bom);
      CarriesSyntax(d.x);
      CarriesNothing();
      CarriesAround(d.pre, Spelling(d.x), Spelling(Strip(d.x)), d.post, [], []);
      assert d.post + [] == d.post && StripGap(d.post) + [] == StripGap(d.post);
      CarriesConcat(bom, bom, body, body2);
    }
    hide Spelling, WellFormed, Strip;
    assert Closed([]) && Minify([]) == [];
    assert SpellDocument(d) + [] == SpellDocument(d);
    assert SpellDocument(StripDocument(d)) + [] == SpellDocument(StripDocument(d));
  }

  // ---------- stripping keeps everything that matters ----------

  lemma {:induction false} StripGapTwice(g: Bytes)
    ensures StripGap(StripGap(g)) == StripGap(g)
  {
    if g != [] {
      StripGapTwice(g[1..]);
      if !IsBlank(g[0]) {
        assert StripGap(g)[1..] == StripGap(g[1..]);
      } else {
        assert StripGap(g) == StripGap(g[1..]);
      }
    }
  }

  lemma {:induction false} StripKeeps(x: Syntax)
    ensures Squeeze(Strip(x)) == Squeeze(x) && Strip(Strip(x)) == Strip(x)
    ensures WellFormed(x) ==> WellFormed(Strip(x))
    decreases x
  {
    match x {
      case Arr(es) => StripElemsKeeps(es);
      case Obj(fs) => StripFieldsKeeps(fs);
      case _ =>
    }
  }

  lemma {:induction false} StripElemsKeeps(es: Elems)
    ensures SqueezeElems(StripElems(es)) == SqueezeElems(es) && StripElems(StripElems(es)) == StripElems(es)
    ensures WellFormedElems(es) ==> WellFormedElems(StripElems(es))
    decreases es
  {
    hide StripGap;
    match es {
      case NoElems(gap) =>
        StripGapTwice(gap);
      case LastElem(pre, x, post) =>
        StripGapTwice(pre);
        StripGapTwice(post);
        StripKeeps(x);
      case Elem(pre, x, post, rest) =>
        StripGapTwice(pre);
        StripGapTwice(post);
        StripKeeps(x);
        StripElemsKeeps(rest);
    }
  }

  lemma {:induction false} StripFieldsKeeps(fs: Fields)
    ensures SqueezeFields(StripFields(fs)) == SqueezeFields(fs) && StripFields(StripFields(fs)) == StripFields(fs)
    ensures WellFormedFields(fs) ==> WellFormedFields(StripFields(fs))
    decreases fs
  {
    hide StripGap, IsRaw;
    if fs.NoFields? {
      StripGapTwice(fs.gap);
    } else {
      StripGapTwice(fs.head.pre);
      StripGapTwice(fs.head.mid);
      StripGapTwice(fs.head.mid2);
      StripGapTwice(fs.post);
      StripKeeps(fs.x);
      if fs.Field? {
        StripFieldsKeeps(fs.rest);
      }
    }
  }

  lemma StripDocumentKeeps(d: Document)
    requires WellFormedDocument(d)
    ensures WellFormedDocument(StripDocument(d)) && StripDocument(StripDocument(d)) == StripDocument(d)
    ensures Squeeze(StripDocument(d).x) == Squeeze(d.x)
  {
    hide StripGap, Strip, Squeeze, WellFormed;
    StripGapTwice(d.pre);
    StripGapTwice(d.post);
    StripKeeps(d.x);
  }

  /**
   For every text the strict parser accepts, minifying is defined, the result is accepted too and denotes the same
   value, and minifying it again changes nothing.
   */
  lemma MinifyKeepsMeaning(s: Bytes)
    requires Terminated(s + [NUL]) && ParseText(s + [NUL], true).Ok?
    ensures Closed(s) && Terminated(Minify(s) + [NUL])
    ensures var r := ParseText(Minify(s) + [NUL], true);
            r.Ok? && Meaning(r.value.x.x) == Meaning(ParseText(s + [NUL], true).value.x.x) && r.value.end == |Minify(s)|
    ensures Closed(Minify(s)) && Minify(Minify(s)) == Minify(s)
  {
    hide ParseText, Terminated, SpellDocument, WellFormedDocument, Meaning, Minify, Closed, Squeeze, StripDocument;
    var d := ParseText(s + [NUL], true).value.x;
    StrictSound(s + [NUL]);
    assert s == (s + [NUL])[..|s|] == (SpellDocument(d) + [NUL])[..|s|] == SpellDocument(d);
    StripDocumentKeeps(d);
    MinifyDocument(d);
    MinifyDocument(StripDocument(d));
    LayoutIndependence(StripDocument(d), d);
  }

  // ---------- pretty and compact ----------

  lemma {:induction false} StripTabs(n: nat)
    ensures StripGap(Tabs(n)) == [] && StripGap([LF] + Tabs(n)) == []
  {
    assert ([LF] + Tabs(n))[1..] == Tabs(n);
    if n > 0 {
      StripTabs(n - 1);
      assert Tabs(n)[1..] == Tabs(n - 1);
    }
  }

  lemma StripFmt(format: bool, n: nat)
    ensures StripGap([]) == [] && StripGap(Fmt(format, [SPACE])) == [] && StripGap(Fmt(format, [TAB])) == []
    ensures StripGap(Fmt(format, [LF] + Tabs(n))) == []
  {
    StripTabs(n);
    assert [SPACE][1..] == [] && [TAB][1..] == [];
  }

  /** Both formats have the same tokens, and the compact one has no gaps. */
  lemma {:induction false} StripLayout(v: Value, depth: nat, depth2: nat)
    ensures Strip(Layout(v, true, depth)) == Layout(v, false, depth2)
    decreases v, 1
  {
    match v {
      case Array(es) =>
        StripFmt(true, depth);
        if es != [] {
          StripElemsLayout(es, [], depth + 1, depth2 + 1);
        }
      case Object(ms) =>
        StripFmt(true, depth);
        if ms != [] {
          StripMembersLayout(ms, depth + 1, depth2 + 1);
        }
      case _ =>
    }
  }

  lemma {:induction false} StripElemsLayout(es: seq<Value>, pre: Bytes, depth: nat, depth2: nat)
    requires es != [] && StripGap(pre) == []
    ensures StripElems(LayoutElems(es, pre, true, depth)) == LayoutElems(es, [], false, depth2)
    decreases es, 0
  {
    hide Layout, Strip, StripGap;
    StripFmt(true, depth);
    StripLayout(es[0], depth, depth2);
    if |es| > 1 {
      StripElemsLayout(es[1..], Fmt(true, [SPACE]), depth, depth2);
    }
  }

  lemma {:induction false} StripMembersLayout(ms: seq<Member>, depth: nat, depth2: nat)
    requires ms != [] && depth > 0 && depth2 > 0
    ensures StripFields(LayoutFields(ms, true, depth)) == LayoutFields(ms, false, depth2)
    decreases ms, 0
  {
    hide Layout, Strip, StripGap;
    StripFmt(true, depth);
    StripFmt(true, depth - 1);
    StripLayout(ms[0].value, depth, depth2);
    if |ms| > 1 {
      StripMembersLayout(ms[1..], depth, depth2);
    }
  }

  /** Minifying the formatted print gives the unformatted print, byte for byte. */
  lemma PrettyAndCompact(v: Value)
    requires IsJson(v) && Printable(v)
    ensures Closed(Render(v, true, 0)) && Minify(Render(v, true, 0)) == Render(v, false, 0)
  {
    hide Render, Layout, WellFormed, Spelling, Strip, Closed, Minify;
    LayoutMeans(v, true, 0);
    PrintedText(v, true);
    PrintedText(v, false);
    MinifyDocument(PrintedDocument(v, true));
    StripLayout(v, 0, 0);
    assert StripGap([]) == [];
  }
}
