/**
 The minified text byte by byte: the pieces that cJSON_Minify divides a string into, which of them it keeps, and what
 it leaves between the tokens of a document.
 */
module MinifiedForm {
  import opened Text
  import opened StringCodec
  import opened Grammar
  import opened Language
  import Minification

  // ---------- pieces ----------

  datatype Piece =
    | Blank(b: Byte)
    | Line(body: Bytes)
    | Block(body: Bytes)
    | Quotation(body: Bytes)
    | Plain(b: Byte)

  predicate IsBlankByte(b: Byte) {
    b == 9 || b == 10 || b == 13 || b == 32
  }

  /** The inside of a quotation: no quote, unless a backslash takes it along. */
  predicate IsInside(body: Bytes) {
    if body == [] then true
    else if body[0] == 92 then |body| > 1 && IsInside(body[2..])
    else body[0] != 34 && IsInside(body[1..])
  }

  /** A star and a slash. */
  predicate EndMark(t: Bytes, k: nat) {
    k + 1 < |t| && t[k] == 42 && t[k + 1] == 47
  }

  /** No star followed by a slash starts within the first n bytes. */
  predicate NoEnd(t: Bytes, n: nat) {
    forall k | 0 <= k < n :: !EndMark(t, k)
  }

  predicate IsPiece(p: Piece) {
    match p
    case Blank(b) => IsBlankByte(b)
    case Line(body) => 10 !in body
    case Block(body) => var t := body + [42, 47]; t[0] == 42 && NoEnd(t, |body|)
    case Quotation(body) => IsInside(body)
    case Plain(b) => !IsBlankByte(b) && b != 34
  }

  /**
   The bytes of a piece. The star that opens a block comment may be the star that ends it, so `/` `*` `/` is a whole
   comment.
   */
  function Spell(p: Piece): (s: Bytes)
    ensures |s| > 0
  {
    match p
    case Blank(b) => [b]
    case Line(body) => [47, 47] + body
    case Block(body) => [47] + (body + [42, 47])
    case Quotation(body) => [34] + body + [34]
    case Plain(b) => [b]
  }

  /** A line comment ends in front of a line feed or at the end; a slash on its own opens no comment. */
  predicate Before(p: Piece, rest: Bytes) {
    && (p.Line? ==> rest == [] || rest[0] == 10)
    && (p == Plain(47) ==> rest == [] || (rest[0] != 47 && rest[0] != 42))
  }

  function SpellAll(ps: seq<Piece>): Bytes {
    if ps == [] then [] else Spell(ps[0]) + SpellAll(ps[1..])
  }

  predicate Divided(ps: seq<Piece>) {
    ps != [] ==> IsPiece(ps[0]) && Before(ps[0], SpellAll(ps[1..])) && Divided(ps[1..])
  }

  /** The quotations and the plain bytes, in order. */
  function Kept(ps: seq<Piece>): (r: seq<Piece>)
    ensures forall k | 0 <= k < |r| :: r[k].Quotation? || r[k].Plain?
  {
    if ps == [] then []
    else (if ps[0].Quotation? || ps[0].Plain? then [ps[0]] else []) + Kept(ps[1..])
  }

  // ---------- minifying keeps these pieces ----------

  lemma {:induction false} LineEnds(u: Bytes, rest: Bytes)
    requires 10 !in u && (rest == [] || rest[0] == 10)
    ensures Minification.DropLine(u + rest) == rest
  {
    if u == [] {
      assert u + rest == rest;
    } else {
      assert (u + rest)[1..] == u[1..] + rest;
      LineEnds(u[1..], rest);
    }
  }

  lemma {:induction false} BlockEnds(u: Bytes, rest: Bytes)
    requires NoEnd(u + [42, 47], |u|)
    ensures Minification.DropBlock(u + [42, 47] + rest) == Some(rest)
  {
    var t := u + [42, 47];
    var s := t + rest;
    if u == [] {
      assert s[2..] == rest;
    } else {
      assert t[1..] == u[1..] + [42, 47] && s[1..] == t[1..] + rest;
      assert s[0] == t[0] && s[1] == t[1] && !EndMark(t, 0);
      assert forall k | 0 <= k < |u| - 1 :: EndMark(t[1..], k) == EndMark(t, k + 1);
      BlockEnds(u[1..], rest);
    }
  }

  lemma {:induction false} InsideIsRaw(body: Bytes, k: nat)
    requires k <= |body|
    ensures IsInside(body[k..]) <==> RawSpan(body, k, |body|)
    decreases |body| - k
  {
    var t := body[k..];
    if k < |body| {
      assert t[1..] == body[k + 1..];
      if body[k] == 92 && |t| > 1 {
        assert t[2..] == body[k + 2..];
        InsideIsRaw(body, k + 2);
      } else {
        InsideIsRaw(body, k + 1);
      }
    }
  }

  lemma QuotationEnds(body: Bytes, rest: Bytes)
    requires IsInside(body)
    ensures ScanString([34] + body + [34] + rest, 1) == Some(1 + |body|)
  {
    var s := [34] + body + [34] + rest;
    assert s[1..1 + |body|] == body && body[0..] == body;
    InsideIsRaw(body, 0);
    SpanOfSlice(s, 1, body, 0);
    ScanFinds(s, 1, 1 + |body|);
  }

  /** Minifying takes the first piece off a string. */
  ghost predicate TakenOff(p: Piece, rest: Bytes) {
    && Minification.Closed(rest) && Minification.Closed(Spell(p) + rest)
    && Minification.Minify(Spell(p) + rest)
       == (if p.Quotation? || p.Plain? then Spell(p) else []) + Minification.Minify(rest)
  }

  lemma ByteOff(p: Piece, rest: Bytes)
    requires (p.Blank? || p.Plain?) && IsPiece(p) && Before(p, rest) && Minification.Closed(rest)
    ensures TakenOff(p, rest)
  {
    var s := Spell(p) + rest;
    assert s[1..] == rest && s[0] == p.b;
    assert |s| > 1 ==> s[1] == rest[0];
  }

  lemma LineOff(p: Piece, rest: Bytes)
    requires p.Line? && IsPiece(p) && Before(p, rest) && Minification.Closed(rest)
    ensures TakenOff(p, rest)
  {
    hide Minification.DropLine;
    var s := Spell(p) + rest;
    LineEnds([47, 47] + p.body, rest);
    assert s[0] == 47 && s[1] == 47;
    assert Minification.LineComment(s);
  }

  lemma BlockOff(p: Piece, rest: Bytes)
    requires p.Block? && IsPiece(p) && Minification.Closed(rest)
    ensures TakenOff(p, rest)
  {
    hide Minification.DropBlock, Minification.DropLine;
    var s := Spell(p) + rest;
    var t := [47] + p.body + [42, 47];
    assert t[1..] == p.body + [42, 47] && t == Spell(p);
    assert !EndMark(t, 0);
    assert forall k | 0 < k < |p.body| + 1 :: EndMark(t, k) == EndMark(t[1..], k - 1);
    BlockEnds([47] + p.body, rest);
    assert s[0] == 47 && s[1] == 42;
    assert Minification.BlockComment(s) && !Minification.LineComment(s);
  }

  lemma QuotationOff(p: Piece, rest: Bytes)
    requires p.Quotation? && IsPiece(p) && Minification.Closed(rest)
    ensures TakenOff(p, rest)
  {
    hide IsInside, ScanString;
    var s := Spell(p) + rest;
    QuotationEnds(p.body, rest);
    assert s[|p.body| + 2..] == rest && s[..|p.body| + 2] == Spell(p) && s[0] == 34;
    assert !Minification.BlockComment(s) && !Minification.LineComment(s);
  }

  lemma FirstPiece(p: Piece, rest: Bytes)
    requires IsPiece(p) && Before(p, rest) && Minification.Closed(rest)
    ensures TakenOff(p, rest)
  {
    hide TakenOff;
    match p {
      case Line(_) => LineOff(p, rest);
      case Block(_) => BlockOff(p, rest);
      case Quotation(_) => QuotationOff(p, rest);
      case _ => ByteOff(p, rest);
    }
  }

  /** Minifying a divided string keeps its quotations and plain bytes, and drops blanks and comments without a rest. */
  lemma {:induction false} MinifyKeeps(ps: seq<Piece>)
    requires Divided(ps)
    ensures Minification.Closed(SpellAll(ps)) && Minification.Minify(SpellAll(ps)) == SpellAll(Kept(ps))
  {
    hide Minification.Closed, Minification.Minify, IsPiece, Before, Spell;
    if ps == [] {
      NothingMinified();
    } else {
      var p, rest := ps[0], ps[1..];
      MinifyKeeps(rest);
      FirstPiece(p, SpellAll(rest));
      if p.Quotation? || p.Plain? {
        assert Kept(ps)[0] == p && Kept(ps)[1..] == Kept(rest);
      } else {
        assert Kept(ps) == Kept(rest);
      }
    }
  }

  lemma NothingMinified()
    ensures Minification.Closed([]) && Minification.Minify([]) == []
  {
  }

  // ---------- every closed string is divided ----------

  lemma {:induction false} LineParts(s: Bytes)
    ensures var r := Minification.DropLine(s); var n := |s| - |r|;
            (r == [] || r[0] == 10) && r == s[n..] && forall k | 0 <= k < n :: s[k] != 10
  {
    if s != [] && s[0] != LF {
      LineParts(s[1..]);
      var n := |s| - |Minification.DropLine(s)|;
      assert forall k | 0 < k < n :: s[k] == s[1..][k - 1];
    }
  }

  lemma MarkLater(s: Bytes, k: nat)
    requires s != []
    ensures EndMark(s[1..], k) == EndMark(s, k + 1)
  {
  }

  lemma NoEndLater(s: Bytes, n: nat)
    requires s != [] && !EndMark(s, 0) && NoEnd(s[1..], n)
    ensures NoEnd(s, n + 1)
  {
    hide EndMark;
    forall k | 0 <= k < n + 1 ensures !EndMark(s, k) {
      if k > 0 {
        MarkLater(s, k - 1);
      }
    }
  }

  lemma {:induction false} BlockParts(s: Bytes)
    requires Minification.DropBlock(s).Some?
    ensures var r := Minification.DropBlock(s).value; var n := |s| - |r|;
            n >= 2 && EndMark(s, n - 2) && r == s[n..] && NoEnd(s, n - 2)
  {
    if EndMark(s, 0) {
      assert Minification.DropBlock(s) == Some(s[2..]);
    } else {
      assert Minification.DropBlock(s) == Minification.DropBlock(s[1..]);
      hide EndMark, Minification.DropBlock, NoEnd;
      BlockParts(s[1..]);
      var n := |s| - |Minification.DropBlock(s).value|;
      MarkLater(s, n - 3);
      NoEndLater(s, n - 3);
    }
  }

  lemma TakeLine(s: Bytes) returns (p: Piece, rest: Bytes)
    requires Minification.LineComment(s)
    ensures IsPiece(p) && Before(p, rest) && s == Spell(p) + rest && rest == Minification.DropLine(s)
  {
    hide Minification.DropLine;
    rest := Minification.DropLine(s);
    LineParts(s);
    var n := |s| - |rest|;
    assert n >= 2;
    var body := s[2..n];
    p := Line(body);
    assert forall k | 0 <= k < |body| :: body[k] == s[k + 2] != 10;
    assert s == ([47, 47] + body) + rest;
  }

  lemma TakeBlock(s: Bytes) returns (p: Piece, rest: Bytes)
    requires Minification.BlockComment(s) && Minification.DropBlock(s).Some?
    ensures IsPiece(p) && Before(p, rest) && s == Spell(p) + rest && Some(rest) == Minification.DropBlock(s)
  {
    hide Minification.DropBlock;
    rest := Minification.DropBlock(s).value;
    BlockParts(s);
    var n := |s| - |rest|;
    assert n >= 3;
    p := Block(s[1..n - 2]);
    var t := s[1..n - 2] + [42, 47];
    assert t == s[1..n] && s == [47] + t + rest;
    assert forall k | 0 <= k < n - 3 :: EndMark(t, k) == EndMark(s, k + 1);
  }

  lemma TakeQuotation(s: Bytes) returns (p: Piece, rest: Bytes)
    requires s != [] && s[0] == 34 && ScanString(s, 1).Some?
    ensures IsPiece(p) && Before(p, rest) && s == Spell(p) + rest && rest == s[ScanString(s, 1).value + 1..]
  {
    hide IsInside;
    var e := ScanString(s, 1).value;
    var body := s[1..e];
    p, rest := Quotation(body), s[e + 1..];
    SpanOfSlice(s, 1, body, 0);
    InsideIsRaw(body, 0);
    assert body[0..] == body && s == [34] + body + [34] + rest;
  }

  /** The first piece of a closed string. */
  lemma TakePiece(s: Bytes) returns (p: Piece, rest: Bytes)
    requires s != [] && Minification.Closed(s)
    ensures IsPiece(p) && Before(p, rest) && s == Spell(p) + rest && Minification.Closed(rest)
  {
    hide Minification.DropLine, Minification.DropBlock, ScanString, IsInside, NoEnd;
    if Minification.IsBlank(s[0]) {
      p, rest := Blank(s[0]), s[1..];
      assert s == [s[0]] + rest;
    } else if Minification.LineComment(s) {
      p, rest := TakeLine(s);
    } else if Minification.BlockComment(s) {
      p, rest := TakeBlock(s);
    } else if s[0] == QUOTE {
      p, rest := TakeQuotation(s);
    } else {
      p, rest := Plain(s[0]), s[1..];
      assert s == [s[0]] + rest;
    }
  }

  lemma {:induction false} Divide(s: Bytes) returns (ps: seq<Piece>)
    requires Minification.Closed(s)
    ensures Divided(ps) && SpellAll(ps) == s
    decreases |s|
  {
    hide Minification.Closed, IsPiece, Before, Spell;
    if s == [] {
      ps := [];
    } else {
      var p, rest := TakePiece(s);
      var more := Divide(rest);
      ps := [p] + more;
      assert ps[1..] == more;
    }
  }

  /** The string can be divided into pieces. */
  ghost predicate IsDivisible(s: Bytes) {
    exists ps :: Divided(ps) && SpellAll(ps) == s
  }

  /** Minifying stays inside a string exactly when it can be divided into pieces, and then it keeps these pieces. */
  lemma MinifyIsKeeping(s: Bytes, ps: seq<Piece>)
    ensures Minification.Closed(s) <==> IsDivisible(s)
    ensures Divided(ps) && SpellAll(ps) == s ==>
              Minification.Closed(s) && Minification.Minify(s) == SpellAll(Kept(ps))
  {
    hide Minification.Closed, Minification.Minify, Divided, SpellAll;
    if Minification.Closed(s) {
      var qs := Divide(s);
    }
    forall qs | Divided(qs) && SpellAll(qs) == s
      ensures Minification.Closed(s) && Minification.Minify(s) == SpellAll(Kept(qs))
    {
      MinifyKeeps(qs);
    }
  }

  // ---------- documents ----------

  /** A gap without its blanks, tabs, carriage returns and line feeds. */
  function Thinned(g: Bytes): Bytes {
    if g == [] then []
    else if g[0] == 9 || g[0] == 10 || g[0] == 13 || g[0] == 32 then Thinned(g[1..])
    else [g[0]] + Thinned(g[1..])
  }

  /** The second text has the tokens of the first, and between them the thinned gaps. */
  predicate ThinnedTo(x: Syntax, y: Syntax) {
    match x
    case Arr(es) => y.Arr? && ThinnedElems(es, y.elems)
    case Obj(fs) => y.Obj? && ThinnedFields(fs, y.fields)
    case _ => x == y
  }

  predicate ThinnedElems(es: Elems, ds: Elems) {
    match es
    case NoElems(gap) => ds == NoElems(Thinned(gap))
    case LastElem(pre, x, post) =>
      ds.LastElem? && ds.pre == Thinned(pre) && ThinnedTo(x, ds.x) && ds.post == Thinned(post)
    case Elem(pre, x, post, rest) =>
      ds.Elem? && ds.pre == Thinned(pre) && ThinnedTo(x, ds.x) && ds.post == Thinned(post)
      && ThinnedElems(rest, ds.rest)
  }

  predicate ThinnedHead(h: Head, g: Head) {
    g == Head(Thinned(h.pre), h.key, Thinned(h.mid), Thinned(h.mid2))
  }

  predicate ThinnedFields(fs: Fields, ds: Fields) {
    match fs
    case NoFields(gap) => ds == NoFields(Thinned(gap))
    case LastField(h, x, post) =>
      ds.LastField? && ThinnedHead(h, ds.head) && ThinnedTo(x, ds.x) && ds.post == Thinned(post)
    case Field(h, x, post, rest) =>
      ds.Field? && ThinnedHead(h, ds.head) && ThinnedTo(x, ds.x) && ds.post == Thinned(post)
      && ThinnedFields(rest, ds.rest)
  }

  predicate ThinnedDocument(d: Document, e: Document) {
    e.bom == d.bom && e.pre == Thinned(d.pre) && ThinnedTo(d.x, e.x) && e.post == Thinned(d.post)
  }

  lemma {:induction false} GapThinned(g: Bytes)
    ensures Minification.StripGap(g) == Thinned(g)
  {
    if g != [] {
      GapThinned(g[1..]);
    }
  }

  lemma {:induction false} SyntaxThinned(x: Syntax)
    ensures ThinnedTo(x, Minification.Strip(x))
    decreases x
  {
    match x {
      case Arr(es) => ElemsThinned(es);
      case Obj(fs) => FieldsThinned(fs);
      case _ =>
    }
  }

  lemma {:induction false} ElemsThinned(es: Elems)
    ensures ThinnedElems(es, Minification.StripElems(es))
    decreases es
  {
    hide Thinned, Minification.StripGap;
    if es.NoElems? {
      GapThinned(es.gap);
    } else {
      GapThinned(es.pre);
      GapThinned(es.post);
      SyntaxThinned(es.x);
      if es.Elem? {
        ElemsThinned(es.rest);
      }
    }
  }

  lemma {:induction false} FieldsThinned(fs: Fields)
    ensures ThinnedFields(fs, Minification.StripFields(fs))
    decreases fs
  {
    hide Thinned, Minification.StripGap;
    if fs.NoFields? {
      GapThinned(fs.gap);
    } else {
      GapThinned(fs.head.pre);
      GapThinned(fs.head.mid);
      GapThinned(fs.head.mid2);
      GapThinned(fs.post);
      SyntaxThinned(fs.x);
      if fs.Field? {
        FieldsThinned(fs.rest);
      }
    }
  }

  /** What the strict parser reads of a minified text: the same tokens, with the bytes 9, 10, 13 and 32 gone between. */
  lemma MinifiedGaps(s: Bytes)
    requires Terminated(s + [NUL]) && ParseText(s + [NUL], true).Ok?
    ensures Minification.Closed(s) && Terminated(Minification.Minify(s) + [NUL])
    ensures var r := ParseText(Minification.Minify(s) + [NUL], true);
            r.Ok? && ThinnedDocument(ParseText(s + [NUL], true).value.x, r.value.x)
  {
    hide ParseText, Terminated, SpellDocument, WellFormedDocument, Minification.Minify, Minification.Closed,
      Nesting, Thinned, Minification.StripGap, Minification.Strip, ThinnedTo;
    var d := ParseText(s + [NUL], true).value.x;
    var e := Minification.StripDocument(d);
    Minification.MinifyKeepsMeaning(s);
    StrictSound(s + [NUL]);
    assert s == (s + [NUL])[..|s|] == (SpellDocument(d) + [NUL])[..|s|] == SpellDocument(d);
    Minification.MinifyDocument(d);
    Minification.StripDocumentKeeps(d);
    var m := Minification.Minify(s);
    var f := ParseText(m + [NUL], true).value.x;
    StrictSound(m + [NUL]);
    assert m == (m + [NUL])[..|m|] == (SpellDocument(f) + [NUL])[..|m|] == SpellDocument(f);
    OneDocument(e, f);
    GapThinned(d.pre);
    GapThinned(d.post);
    SyntaxThinned(d.x);
  }
}
