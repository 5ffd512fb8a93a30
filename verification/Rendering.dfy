/** What the printer writes for a value, formatted or not, and that the parser reads it back. */
module Rendering {
  import opened Text
  import opened StringCodec
  import opened Numbers
  import opened Values
  import opened Grammar

  /** Numbers that print as plain decimal; every other number is outside the model of print_number. */
  predicate Printable(v: Value)
    decreases v
  {
    match v
    case Number(n) => IsPlain(n)
    case Array(es) => forall k | 0 <= k < |es| :: Printable(es[k])
    case Object(ms) => forall k | 0 <= k < |ms| :: Printable(ms[k].value)
    case _ => true
  }

  /** A value made of the kinds JSON has, with C strings for strings and keys. */
  ghost predicate IsJson(v: Value)
    decreases v
  {
    match v
    case String(s) => 0 !in s
    case Raw(_) => false
    case Array(es) => forall k | 0 <= k < |es| :: IsJson(es[k])
    case Object(ms) => forall k | 0 <= k < |ms| :: 0 !in ms[k].key && IsJson(ms[k].value)
    case _ => true
  }

  function Tabs(n: nat): (t: Bytes)
    ensures |t| == n && IsGap(t)
  {
    seq(n, _ => TAB)
  }

  /** `s` when formatting, nothing otherwise. */
  function Fmt(format: bool, s: Bytes): Bytes {
    if format then s else []
  }

  /** The text print_value produces at nesting depth `depth`. */
  function Render(v: Value, format: bool, depth: nat): Bytes
    decreases v
  {
    match v
    case Null => NULL_WORD
    case False => FALSE_WORD
    case True => TRUE_WORD
    case Number(n) => PrintInt(n.Floor)
    case String(s) => Quoted(Escape(s))
    case Raw(s) => s
    case Array(es) => [LBRACKET] + RenderElems(es, format, depth + 1) + [RBRACKET]
    case Object(ms) =>
      [LBRACE] + Fmt(format, [LF]) + RenderMembers(ms, format, depth + 1) + Fmt(format, Tabs(depth)) + [RBRACE]
  }

  function RenderElems(es: seq<Value>, format: bool, depth: nat): Bytes
    decreases es
  {
    if es == [] then []
    else Render(es[0], format, depth) + RenderMoreElems(es[1..], format, depth)
  }

  /** The elements behind a first one, each after its comma. */
  function RenderMoreElems(es: seq<Value>, format: bool, depth: nat): Bytes
    decreases es
  {
    if es == [] then []
    else [COMMA] + Fmt(format, [SPACE]) + Render(es[0], format, depth) + RenderMoreElems(es[1..], format, depth)
  }

  function RenderKey(key: Bytes, format: bool, depth: nat): Bytes {
    Fmt(format, Tabs(depth)) + Quoted(Escape(key)) + [COLON] + Fmt(format, [TAB])
  }

  function RenderMembers(ms: seq<Member>, format: bool, depth: nat): Bytes
    decreases ms
  {
    if ms == [] then []
    else
      RenderKey(ms[0].key, format, depth) + Render(ms[0].value, format, depth)
      + (if |ms| > 1 then [COMMA] else []) + Fmt(format, [LF]) + RenderMembers(ms[1..], format, depth)
  }

  // ---------- the rendering as a text of the grammar ----------

  /** The layout the printer chooses. */
  function Layout(v: Value, format: bool, depth: nat): Syntax
    decreases v, 1
  {
    match v
    case Null => NullWord
    case False => FalseWord
    case True => TrueWord
    case Number(n) => Num(PrintInt(n.Floor))
    case String(s) => Str(Escape(s))
    case Raw(s) => Str(s)
    case Array(es) => Arr(if es == [] then NoElems([]) else LayoutElems(es, [], format, depth + 1))
    case Object(ms) =>
      Obj(if ms == [] then NoFields(Fmt(format, [LF] + Tabs(depth))) else LayoutFields(ms, format, depth + 1))
  }

  function LayoutElems(es: seq<Value>, pre: Bytes, format: bool, depth: nat): (r: Elems)
    requires es != []
    ensures !r.NoElems?
    decreases es, 0
  {
    var x := Layout(es[0], format, depth);
    if |es| == 1 then LastElem(pre, x, []) else Elem(pre, x, [], LayoutElems(es[1..], Fmt(format, [SPACE]), format,
      depth))
  }

  function LayoutHead(key: Bytes, format: bool, depth: nat): Head {
    Head(Fmt(format, [LF] + Tabs(depth)), Escape(key), [], Fmt(format, [TAB]))
  }

  function LayoutFields(ms: seq<Member>, format: bool, depth: nat): (r: Fields)
    requires ms != [] && depth > 0
    ensures !r.NoFields?
    decreases ms, 0
  {
    var x := Layout(ms[0].value, format, depth);
    var h := LayoutHead(ms[0].key, format, depth);
    if |ms| == 1 then LastField(h, x, Fmt(format, [LF] + Tabs(depth - 1)))
    else Field(h, x, [], LayoutFields(ms[1..], format, depth))
  }

  lemma {:induction false} RenderIsSpelling(v: Value, format: bool, depth: nat)
    requires IsJson(v)
    ensures Render(v, format, depth) == Spelling(Layout(v, format, depth))
    decreases v, 1
  {
    match v {
      case Array(es) =>
        hide Spelling, Render;
        ArrayIsSpelled(es, format, depth);
      case Object(ms) =>
        hide Spelling, Render;
        ObjectIsSpelled(ms, format, depth);
      case _ =>
    }
  }

  lemma ArrayIsSpelled(es: seq<Value>, format: bool, depth: nat)
    requires forall k | 0 <= k < |es| :: IsJson(es[k])
    ensures Render(Array(es), format, depth) == Spelling(Layout(Array(es), format, depth))
    decreases Array(es), 0
  {
    hide RenderElems, LayoutElems;
    if es != [] {
      ElemsAreSpelled(es, [], format, depth + 1);
    } else {
      assert RenderElems([], format, depth + 1) == [] by { NoRendering(format, depth + 1); }
    }
  }

  lemma NoRendering(format: bool, depth: nat)
    ensures RenderElems([], format, depth) == [] && RenderMembers([], format, depth) == []
  {
  }

  lemma ObjectIsSpelled(ms: seq<Member>, format: bool, depth: nat)
    requires forall k | 0 <= k < |ms| :: IsJson(ms[k].value)
    ensures Render(Object(ms), format, depth) == Spelling(Layout(Object(ms), format, depth))
    decreases Object(ms), 0
  {
    hide RenderMembers, LayoutFields;
    if ms != [] {
      MembersAreSpelled(ms, format, depth + 1);
    } else {
      NoRendering(format, depth + 1);
    }
  }

  lemma {:induction false} ElemsAreSpelled(es: seq<Value>, pre: Bytes, format: bool, depth: nat)
    requires es != [] && forall k | 0 <= k < |es| :: IsJson(es[k])
    ensures SpellElems(LayoutElems(es, pre, format, depth)) == pre + (RenderElems(es, format, depth) + [RBRACKET])
    decreases es, 0
  {
    hide Render, Layout, Spelling;
    RenderIsSpelling(es[0], format, depth);
    if |es| > 1 {
      ElemsAreSpelled(es[1..], Fmt(format, [SPACE]), format, depth);
      MoreElems(es[1..], format, depth);
      RegroupElem(pre, Render(es[0], format, depth), [COMMA], Fmt(format, [SPACE]) + RenderElems(es[1..], format,
        depth), [RBRACKET]);
    }
  }

  lemma MoreElems(es: seq<Value>, format: bool, depth: nat)
    requires es != []
    ensures RenderMoreElems(es, format, depth) == [COMMA] + (Fmt(format, [SPACE]) + RenderElems(es, format, depth))
  {
    hide Render;
  }

  lemma RegroupElem(pre: Bytes, x: Bytes, comma: Bytes, rest: Bytes, close: Bytes)
    ensures pre + (x + ([] + (comma + (rest + close)))) == pre + ((x + (comma + rest)) + close)
  {
  }

  lemma {:induction false} MembersAreSpelled(ms: seq<Member>, format: bool, depth: nat)
    requires ms != [] && depth > 0 && forall k | 0 <= k < |ms| :: IsJson(ms[k].value)
    ensures SpellFields(LayoutFields(ms, format, depth))
         == Fmt(format, [LF]) + (RenderMembers(ms, format, depth) + (Fmt(format, Tabs(depth - 1)) + [RBRACE]))
    decreases ms, 0
  {
    hide Render, Layout, Spelling, SpellHead, LayoutHead, RenderKey, Fmt;
    RenderIsSpelling(ms[0].value, format, depth);
    HeadIsSpelled(ms[0].key, format, depth);
    var line, indent := Fmt(format, [LF]), Fmt(format, Tabs(depth - 1));
    var key, x := RenderKey(ms[0].key, format, depth), Render(ms[0].value, format, depth);
    if |ms| > 1 {
      MembersAreSpelled(ms[1..], format, depth);
      RegroupMember(line, key, x, [COMMA], RenderMembers(ms[1..], format, depth), indent + [RBRACE]);
    } else {
      BreakAndIndent(format, depth - 1);
      RegroupLast(line, key, x, indent, [RBRACE]);
      NoRendering(format, depth);
    }
  }

  lemma BreakAndIndent(format: bool, n: nat)
    ensures Fmt(format, [LF] + Tabs(n)) == Fmt(format, [LF]) + Fmt(format, Tabs(n))
  {
  }

  lemma RegroupMember(line: Bytes, key: Bytes, x: Bytes, comma: Bytes, rest: Bytes, close: Bytes)
    ensures (line + key) + (x + ([] + (comma + (line + (rest + close)))))
            == line + ((key + x + comma + line + rest) + close)
  {
  }

  lemma RegroupLast(line: Bytes, key: Bytes, x: Bytes, indent: Bytes, close: Bytes)
    ensures (line + key) + (x + ((line + indent) + close)) == line + ((key + x + [] + line + []) + (indent + close))
  {
  }

  lemma HeadIsSpelled(key: Bytes, format: bool, depth: nat)
    ensures SpellHead(LayoutHead(key, format, depth)) == Fmt(format, [LF]) + RenderKey(key, format, depth)
  {
  }
}
