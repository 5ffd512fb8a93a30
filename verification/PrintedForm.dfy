/**
 The printed text byte by byte: what stands between its tokens, formatted or not, and the whole text in the plainest
 terms.
 */
module PrintedForm {
  import opened Text
  import opened StringCodec
  import opened Numbers
  import opened Values
  import opened Grammar
  import opened Language
  import opened Rendering
  import opened RoundTrip

  // ---------- the gaps ----------

  /** A line feed and n tabs. */
  predicate NewLine(g: Bytes, n: nat) {
    |g| == n + 1 && g[0] == 10 && forall k | 1 <= k <= n :: g[k] == 9
  }

  /**
   The gaps of a formatted text inside `depth` containers: a member stands on a line of its own, behind one tab for
   every container around it, with a tab behind its colon; the closing brace stands on a line with one tab fewer;
   elements are divided by a comma and a space.
   */
  predicate Pretty(x: Syntax, depth: nat) {
    match x
    case Arr(es) => PrettyElems(es, [], depth + 1)
    case Obj(fs) => PrettyFields(fs, depth + 1)
    case _ => true
  }

  predicate PrettyElems(es: Elems, before: Bytes, depth: nat) {
    match es
    case NoElems(gap) => gap == []
    case LastElem(pre, x, post) => pre == before && Pretty(x, depth) && post == []
    case Elem(pre, x, post, rest) => pre == before && Pretty(x, depth) && post == [] && PrettyElems(rest, [32], depth)
  }

  predicate PrettyFields(fs: Fields, depth: nat)
    requires depth > 0
  {
    match fs
    case NoFields(gap) => NewLine(gap, depth - 1)
    case LastField(h, x, post) => PrettyHead(h, depth) && Pretty(x, depth) && NewLine(post, depth - 1)
    case Field(h, x, post, rest) => PrettyHead(h, depth) && Pretty(x, depth) && post == [] && PrettyFields(rest, depth)
  }

  predicate PrettyHead(h: Head, depth: nat) {
    NewLine(h.pre, depth) && h.mid == [] && h.mid2 == [9]
  }

  /** No gaps at all. */
  predicate Compact(x: Syntax) {
    match x
    case Arr(es) => CompactElems(es)
    case Obj(fs) => CompactFields(fs)
    case _ => true
  }

  predicate CompactElems(es: Elems) {
    match es
    case NoElems(gap) => gap == []
    case LastElem(pre, x, post) => pre == post == [] && Compact(x)
    case Elem(pre, x, post, rest) => pre == post == [] && Compact(x) && CompactElems(rest)
  }

  predicate CompactFields(fs: Fields) {
    match fs
    case NoFields(gap) => gap == []
    case LastField(h, x, post) => h.pre == h.mid == h.mid2 == post == [] && Compact(x)
    case Field(h, x, post, rest) => h.pre == h.mid == h.mid2 == post == [] && Compact(x) && CompactFields(rest)
  }

  lemma LineGap(n: nat)
    ensures NewLine([LF] + Tabs(n), n)
  {
  }

  lemma {:induction false} LayoutGaps(v: Value, format: bool, depth: nat)
    ensures if format then Pretty(Layout(v, format, depth), depth) else Compact(Layout(v, format, depth))
    decreases v, 1
  {
    match v {
      case Array(es) =>
        if es != [] {
          ElemsGaps(es, [], format, depth + 1);
        }
      case Object(ms) =>
        LineGap(depth);
        if ms != [] {
          MembersGaps(ms, format, depth + 1);
        }
      case _ =>
    }
  }

  lemma {:induction false} ElemsGaps(es: seq<Value>, pre: Bytes, format: bool, depth: nat)
    requires es != [] && (!format ==> pre == [])
    ensures var r := LayoutElems(es, pre, format, depth);
            if format then PrettyElems(r, pre, depth) else CompactElems(r)
    decreases es, 0
  {
    hide Layout, Pretty, Compact;
    LayoutGaps(es[0], format, depth);
    if |es| > 1 {
      ElemsGaps(es[1..], Fmt(format, [SPACE]), format, depth);
    }
  }

  lemma {:induction false} MembersGaps(ms: seq<Member>, format: bool, depth: nat)
    requires ms != [] && depth > 0
    ensures var r := LayoutFields(ms, format, depth);
            if format then PrettyFields(r, depth) else CompactFields(r)
    decreases ms, 0
  {
    hide Layout, Pretty, Compact, NewLine, Tabs;
    LayoutGaps(ms[0].value, format, depth);
    LineGap(depth);
    LineGap(depth - 1);
    if |ms| > 1 {
      MembersGaps(ms[1..], format, depth);
    }
  }

  /** In whatever way the printed text is read as a text of the grammar, these are its gaps. */
  lemma PrintedGaps(v: Value, format: bool, x: Syntax)
    requires IsJson(v) && Printable(v) && WellFormed(x) && Spelling(x) == Render(v, format, 0)
    ensures if format then Pretty(x, 0) else Compact(x)
  {
    hide Render, Layout, WellFormed, Spelling, Pretty, Compact;
    LayoutMeans(v, format, 0);
    RenderIsSpelling(v, format, 0);
    OneReading(x, Layout(v, format, 0));
    LayoutGaps(v, format, 0);
  }

  // ---------- the whole text ----------

  /** The parts in a row, with the separator between any two. */
  function Joined(parts: seq<Bytes>, separator: Bytes): Bytes {
    if parts == [] then []
    else if |parts| == 1 then parts[0]
    else parts[0] + separator + Joined(parts[1..], separator)
  }

  /** The text of a value. When formatted, `indent` is what the line that it stands on starts with. */
  function TextOf(v: Value, format: bool, indent: Bytes): Bytes
    decreases v, 1
  {
    match v
    case Null => [110, 117, 108, 108]
    case False => [102, 97, 108, 115, 101]
    case True => [116, 114, 117, 101]
    case Number(n) => PrintInt(n.Floor)
    case String(s) => [34] + Escape(s) + [34]
    case Raw(s) => s
    case Array(es) => [91] + Joined(ElemTexts(es, format, indent + [9]), if format then [44, 32] else [44]) + [93]
    case Object(ms) =>
      [123] + Joined(MemberTexts(ms, format, indent + [9]), [44]) + (if format then [10] + indent else []) + [125]
  }

  function ElemTexts(es: seq<Value>, format: bool, indent: Bytes): seq<Bytes>
    decreases es, 0
  {
    seq(|es|, i requires 0 <= i < |es| => TextOf(es[i], format, indent))
  }

  function MemberTexts(ms: seq<Member>, format: bool, indent: Bytes): seq<Bytes>
    decreases ms, 0
  {
    seq(|ms|, i requires 0 <= i < |ms| => NameText(ms[i].key, format, indent) + TextOf(ms[i].value, format, indent))
  }

  /** A name with all that surrounds it: on a line of its own when formatted. */
  function NameText(key: Bytes, format: bool, indent: Bytes): Bytes {
    if format then [10] + indent + [34] + Escape(key) + [34, 58, 9] else [34] + Escape(key) + [34, 58]
  }

  predicate IsIndent(indent: Bytes, depth: nat) {
    |indent| == depth && forall k | 0 <= k < depth :: indent[k] == 9
  }

  /** What the printer writes, at every depth and for every value. */
  lemma {:induction false} RenderIsText(v: Value, format: bool, depth: nat, indent: Bytes)
    requires IsIndent(indent, depth)
    ensures Render(v, format, depth) == TextOf(v, format, indent)
    decreases v, 1
  {
    match v {
      case Array(es) =>
        hide Render, TextOf, Tabs;
        ArrayIsText(es, format, depth, indent);
      case Object(ms) =>
        hide Render, TextOf, Tabs;
        ObjectIsText(ms, format, depth, indent);
      case _ =>
    }
  }

  lemma ArrayIsText(es: seq<Value>, format: bool, depth: nat, indent: Bytes)
    requires IsIndent(indent, depth)
    ensures Render(Array(es), format, depth) == TextOf(Array(es), format, indent)
    decreases Array(es), 0
  {
    hide RenderElems, ElemTexts, Joined;
    ElemsAreText(es, format, depth + 1, indent + [9]);
  }

  lemma {:induction false} ElemsAreText(es: seq<Value>, format: bool, depth: nat, indent: Bytes)
    requires IsIndent(indent, depth)
    ensures RenderElems(es, format, depth)
         == Joined(ElemTexts(es, format, indent), if format then [44, 32] else [44])
    decreases es, 0
  {
    hide Render, TextOf, Fmt;
    if es != [] {
      RenderIsText(es[0], format, depth, indent);
      assert ElemTexts(es, format, indent)[1..] == ElemTexts(es[1..], format, indent);
      assert Fmt(format, [SPACE]) == (if format then [32] else []) by { FmtIs(format, [SPACE]); }
      if |es| > 1 {
        ElemsAreText(es[1..], format, depth, indent);
        MoreElems(es[1..], format, depth);
      }
    }
  }

  lemma FmtIs(format: bool, s: Bytes)
    ensures Fmt(format, s) == if format then s else []
  {
  }

  lemma ObjectIsText(ms: seq<Member>, format: bool, depth: nat, indent: Bytes)
    requires IsIndent(indent, depth)
    ensures Render(Object(ms), format, depth) == TextOf(Object(ms), format, indent)
    decreases Object(ms), 0
  {
    hide RenderMembers, MemberTexts, Joined;
    MembersAreText(ms, format, depth + 1, indent + [9]);
    assert Tabs(depth) == indent;
    var line := if format then [10] else [];
    var close := if format then indent else [];
    Ends(line, RenderMembers(ms, format, depth + 1), Joined(MemberTexts(ms, format, indent + [9]), [44]), close);
  }

  lemma Ends(line: Bytes, members: Bytes, text: Bytes, close: Bytes)
    requires line + members == text + line
    ensures [123] + line + members + close + [125] == [123] + text + (line + close) + [125]
  {
    assert [123] + (line + members) + close + [125] == [123] + line + members + close + [125];
  }

  lemma NameIsText(key: Bytes, format: bool, depth: nat, indent: Bytes)
    requires IsIndent(indent, depth)
    ensures (if format then [10] else []) + RenderKey(key, format, depth) == NameText(key, format, indent)
  {
    assert Tabs(depth) == indent;
  }

  lemma {:induction false} MembersAreText(ms: seq<Member>, format: bool, depth: nat, indent: Bytes)
    requires IsIndent(indent, depth)
    ensures var line := if format then [10] else [];
            line + RenderMembers(ms, format, depth) == Joined(MemberTexts(ms, format, indent), [44]) + line
    decreases ms, 0
  {
    hide Render, TextOf, RenderKey, NameText;
    var line := if format then [10] else [];
    if ms != [] {
      RenderIsText(ms[0].value, format, depth, indent);
      NameIsText(ms[0].key, format, depth, indent);
      MembersAreText(ms[1..], format, depth, indent);
      assert MemberTexts(ms, format, indent)[1..] == MemberTexts(ms[1..], format, indent);
      var key, x, rest := RenderKey(ms[0].key, format, depth), Render(ms[0].value, format, depth),
        RenderMembers(ms[1..], format, depth);
      if |ms| > 1 {
        Turn(line, key, x, rest, Joined(MemberTexts(ms[1..], format, indent), [44]));
      } else {
        assert line + (key + x + [] + line + []) == ((line + key) + x) + line;
      }
    } else {
      assert line + [] == [] + line;
    }
  }

  lemma Turn(line: Bytes, key: Bytes, x: Bytes, rest: Bytes, more: Bytes)
    requires line + rest == more + line
    ensures line + (key + x + [44] + line + rest) == ((line + key) + x) + [44] + more + line
  {
    assert line + (key + x + [44] + line + rest) == ((line + key) + x) + [44] + (line + rest);
  }
}
