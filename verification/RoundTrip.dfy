/** Printing and parsing are inverse to each other up to the nesting limit, in both formats. */
module RoundTrip {
  import opened Text
  import opened StringCodec
  import opened Numbers
  import opened Values
  import opened Grammar
  import opened Language
  import opened Rendering

  lemma FmtGap(format: bool, s: Bytes)
    requires IsGap(s)
    ensures IsGap(Fmt(format, s))
  {
  }

  /** The literal written for a C string is read back as that string. */
  lemma LiteralMeans(s: Bytes)
    requires 0 !in s
    ensures IsRaw(Escape(s)) && LiteralText(Escape(s)) == s
  {
    hide IsRaw, Escape, Unescape;
    StringRoundTrip(s);
    CStrId(s);
  }

  /** The printer's layout is a text of the grammar with the printed value as its meaning. */
  lemma {:induction false} LayoutMeans(v: Value, format: bool, depth: nat)
    requires IsJson(v) && Printable(v)
    ensures WellFormed(Layout(v, format, depth)) && Meaning(Layout(v, format, depth)) == v
    ensures Nesting(Layout(v, format, depth)) == Depth(v)
    decreases v, 1
  {
    match v {
      case Number(n) =>
        hide Layout, WellFormed, Meaning;
        NumberLayoutMeans(n, format, depth);
      case String(s) =>
        hide Layout, WellFormed, Meaning;
        StringLayoutMeans(s, format, depth);
      case Array(es) =>
        hide Layout, WellFormed, Meaning;
        ArrayLayoutMeans(es, format, depth);
      case Object(ms) =>
        hide Layout, WellFormed, Meaning;
        ObjectLayoutMeans(ms, format, depth);
      case _ =>
    }
  }

  lemma NumberLayoutMeans(n: real, format: bool, depth: nat)
    requires IsPlain(n)
    ensures var x := Layout(Number(n), format, depth); WellFormed(x) && Meaning(x) == Number(n) && Nesting(x) == 0
  {
    hide NumberValue, IsLexeme, PrintInt;
    PrintIntRoundTrip(n.Floor);
  }

  lemma StringLayoutMeans(s: Bytes, format: bool, depth: nat)
    requires 0 !in s
    ensures var x := Layout(String(s), format, depth); WellFormed(x) && Meaning(x) == String(s) && Nesting(x) == 0
  {
    hide IsRaw, Escape, LiteralText;
    LiteralMeans(s);
  }

  lemma ArrayLayoutMeans(es: seq<Value>, format: bool, depth: nat)
    requires forall k | 0 <= k < |es| :: IsJson(es[k]) && Printable(es[k])
    ensures var x := Layout(Array(es), format, depth);
            WellFormed(x) && Meaning(x) == Array(es) && Nesting(x) == Depth(Array(es))
    decreases Array(es), 0
  {
    hide LayoutElems;
    if es != [] {
      ElemsLayoutMeans(es, [], format, depth + 1);
    }
  }

  lemma ObjectLayoutMeans(ms: seq<Member>, format: bool, depth: nat)
    requires forall k | 0 <= k < |ms| :: 0 !in ms[k].key && IsJson(ms[k].value) && Printable(ms[k].value)
    ensures var x := Layout(Object(ms), format, depth);
            WellFormed(x) && Meaning(x) == Object(ms) && Nesting(x) == Depth(Object(ms))
    decreases Object(ms), 0
  {
    hide LayoutFields, Tabs, Fmt;
    BreakGap(depth);
    FmtGap(format, [LF] + Tabs(depth));
    if ms != [] {
      MembersLayoutMeans(ms, format, depth + 1);
    }
  }

  lemma {:induction false} ElemsLayoutMeans(es: seq<Value>, pre: Bytes, format: bool, depth: nat)
    requires es != [] && IsGap(pre) && forall k | 0 <= k < |es| :: IsJson(es[k]) && Printable(es[k])
    ensures var r := LayoutElems(es, pre, format, depth);
            WellFormedElems(r) && ElemsMeaning(r) == es && ElemsNesting(r) == ElemsDepth(es)
    decreases es, 0
  {
    hide Layout, IsJson, Printable, WellFormed, Meaning, Nesting;
    LayoutMeans(es[0], format, depth);
    assert es == [es[0]] + es[1..];
    if |es| > 1 {
      FmtGap(format, [SPACE]);
      ElemsLayoutMeans(es[1..], Fmt(format, [SPACE]), format, depth);
    }
  }

  lemma HeadLayoutMeans(key: Bytes, format: bool, depth: nat)
    requires 0 !in key
    ensures WellFormedHead(LayoutHead(key, format, depth)) && LiteralText(LayoutHead(key, format, depth).key) == key
  {
    hide IsRaw, Escape, LiteralText;
    LiteralMeans(key);
    FmtGap(format, [LF] + Tabs(depth));
    FmtGap(format, [TAB]);
  }

  lemma {:induction false} MembersLayoutMeans(ms: seq<Member>, format: bool, depth: nat)
    requires ms != [] && depth > 0
    requires forall k | 0 <= k < |ms| :: 0 !in ms[k].key && IsJson(ms[k].value) && Printable(ms[k].value)
    ensures var r := LayoutFields(ms, format, depth);
            WellFormedFields(r) && FieldsMeaning(r) == ms && FieldsNesting(r) == MembersDepth(ms)
    decreases ms, 0
  {
    hide Layout, IsJson, Printable, WellFormed, WellFormedHead, LayoutHead, LiteralText, Meaning, Nesting, Fmt, IsGap;
    HeadLayoutMeans(ms[0].key, format, depth);
    LayoutMeans(ms[0].value, format, depth);
    BreakGap(depth - 1);
    FmtGap(format, [LF] + Tabs(depth - 1));
    assert ms == [ms[0]] + ms[1..];
    if |ms| > 1 {
      MembersLayoutMeans(ms[1..], format, depth);
    }
  }

  lemma BreakGap(n: nat)
    ensures IsGap([LF] + Tabs(n)) && IsGap([])
  {
  }

  /** The document that the printer writes. */
  function PrintedDocument(v: Value, format: bool): Document {
    Document(false, [], Layout(v, format, 0), [])
  }

  lemma PrintedText(v: Value, format: bool)
    requires IsJson(v) && Printable(v)
    ensures WellFormedDocument(PrintedDocument(v, format))
            && SpellDocument(PrintedDocument(v, format)) == Render(v, format, 0)
    ensures Terminated(Render(v, format, 0) + [NUL])
    ensures Nesting(PrintedDocument(v, format).x) == Depth(v) && Meaning(PrintedDocument(v, format).x) == v
  {
    hide Render, Layout, WellFormed, Spelling, Meaning, Nesting;
    LayoutMeans(v, format, 0);
    RenderIsSpelling(v, format, 0);
    DocumentTerminated(PrintedDocument(v, format));
  }

  /**
   Strict parsing of the printed text returns the printed value and stops at the final NUL exactly when the value
   nests no deeper than the limit; deeper values print, but their text is rejected.
   */
  lemma PrintThenParse(v: Value, format: bool)
    requires IsJson(v) && Printable(v)
    ensures Terminated(Render(v, format, 0) + [NUL])
    ensures var r := ParseText(Render(v, format, 0) + [NUL], true);
            && (r.Ok? <==> Depth(v) <= 1000)
            && (r.Ok? ==> Meaning(r.value.x.x) == v && r.value.end == |Render(v, format, 0)|)
  {
    hide Render, Layout, WellFormedDocument, SpellDocument, Meaning, Nesting, ParseText;
    PrintedText(v, format);
    var c := Render(v, format, 0) + [NUL];
    if Depth(v) <= NESTING_LIMIT {
      StrictComplete(c, PrintedDocument(v, format));
    } else {
      TooDeep(c, PrintedDocument(v, format));
    }
  }

  // ---------- layout independence ----------

  /** The text with every gap removed. */
  function Squeeze(x: Syntax): Syntax {
    match x
    case Arr(es) => Arr(SqueezeElems(es))
    case Obj(fs) => Obj(SqueezeFields(fs))
    case _ => x
  }

  function SqueezeElems(es: Elems): Elems {
    match es
    case NoElems(_) => NoElems([])
    case LastElem(_, x, _) => LastElem([], Squeeze(x), [])
    case Elem(_, x, _, rest) => Elem([], Squeeze(x), [], SqueezeElems(rest))
  }

  function SqueezeFields(fs: Fields): Fields {
    match fs
    case NoFields(_) => NoFields([])
    case LastField(h, x, _) => LastField(Head([], h.key, [], []), Squeeze(x), [])
    case Field(h, x, _, rest) => Field(Head([], h.key, [], []), Squeeze(x), [], SqueezeFields(rest))
  }

  lemma {:induction false} SqueezeKeeps(x: Syntax)
    ensures Meaning(Squeeze(x)) == Meaning(x) && Nesting(Squeeze(x)) == Nesting(x)
    decreases x
  {
    match x {
      case Arr(es) => SqueezeElemsKeeps(es);
      case Obj(fs) => SqueezeFieldsKeeps(fs);
      case _ =>
    }
  }

  lemma {:induction false} SqueezeElemsKeeps(es: Elems)
    ensures ElemsMeaning(SqueezeElems(es)) == ElemsMeaning(es) && ElemsNesting(SqueezeElems(es)) == ElemsNesting(es)
    decreases es
  {
    if !es.NoElems? {
      SqueezeKeeps(es.x);
      if es.Elem? {
        SqueezeElemsKeeps(es.rest);
      }
    }
  }

  lemma {:induction false} SqueezeFieldsKeeps(fs: Fields)
    ensures FieldsMeaning(SqueezeFields(fs)) == FieldsMeaning(fs)
            && FieldsNesting(SqueezeFields(fs)) == FieldsNesting(fs)
    decreases fs
  {
    if !fs.NoFields? {
      SqueezeKeeps(fs.x);
      if fs.Field? {
        SqueezeFieldsKeeps(fs.rest);
      }
    }
  }

  /**
   Two texts with the same tokens, whatever stands in the gaps between them, parse to the same value, and one is
   accepted exactly when the other is.
   */
  lemma LayoutIndependence(d1: Document, d2: Document)
    requires WellFormedDocument(d1) && WellFormedDocument(d2) && Squeeze(d1.x) == Squeeze(d2.x)
    ensures Terminated(SpellDocument(d1) + [NUL]) && Terminated(SpellDocument(d2) + [NUL])
    ensures var r1 := ParseText(SpellDocument(d1) + [NUL], true); var r2 := ParseText(SpellDocument(d2) + [NUL], true);
            && (r1.Ok? <==> r2.Ok?)
            && (r1.Ok? ==> Meaning(r1.value.x.x) == Meaning(r2.value.x.x) && r1.value.end == |SpellDocument(d1)|)
  {
    hide WellFormedDocument, SpellDocument, Meaning, Nesting, ParseText, Squeeze;
    DocumentTerminated(d1);
    DocumentTerminated(d2);
    SqueezeKeeps(d1.x);
    SqueezeKeeps(d2.x);
    var c1, c2 := SpellDocument(d1) + [NUL], SpellDocument(d2) + [NUL];
    if Nesting(d1.x) <= NESTING_LIMIT {
      StrictComplete(c1, d1);
      StrictComplete(c2, d2);
    } else {
      TooDeep(c1, d1);
      TooDeep(c2, d2);
    }
  }
}
