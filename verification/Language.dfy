/**
 The parser accepts exactly the texts of the grammar, and reads each of them in one way.
 */
module Language {
  import opened Text
  import opened StringCodec
  import opened Numbers
  import opened Grammar

  // ---------- first bytes and lengths ----------

  /** Every value starts with a visible byte, a number with a digit or its sign. */
  lemma {:induction false} SpellingStart(x: Syntax)
    requires WellFormed(x)
    ensures |Spelling(x)| > 0 && Spelling(x)[0] > 32 && Spelling(x)[0] != RBRACKET && Spelling(x)[0] != RBRACE
    ensures x.Num? ==> Spelling(x)[0] == MINUS || IsDigit(Spelling(x)[0])
  {
  }

  // ---------- scanning ----------

  lemma {:induction false} SkipGapOver(c: Bytes, i: nat, g: Bytes)
    requires Terminated(c) && IsGap(g) && At(c, i, g) && i + |g| < |c|
    requires c[i + |g|] > 32 || i + |g| == |c| - 1
    ensures SkipGap(c, i) == i + |g|
    decreases |g|
  {
    if g != [] {
      AtIndex(c, i, g, 0);
      assert c[i + 1..i + |g|] == c[i..i + |g|][1..];
      SkipGapOver(c, i + 1, g[1..]);
    }
  }

  /** Skipping goes over the bytes 1 to 32, up to the first visible byte or the final NUL. */
  lemma SkipGapIs(c: Bytes, i: nat, j: nat)
    requires Terminated(c) && i < |c|
    ensures SkipGap(c, i) == j <==>
            i <= j < |c| && (c[j] > 32 || j == |c| - 1) && forall k | i <= k < j :: 1 <= c[k] <= 32
  {
    var e := SkipGap(c, i);
    assert forall k | i <= k < e :: c[k] == c[i..e][k - i];
  }

  lemma AtPart(c: Bytes, i: nat, j: nat)
    requires i <= j <= |c|
    ensures At(c, i, c[i..j])
  {
  }

  lemma PartOf(c: Bytes, i: nat, s: Bytes)
    requires At(c, i, s)
    ensures i + |s| <= |c| && c[i..i + |s|] == s
  {
  }

  lemma ParseStringSound(c: Bytes, i: nat)
    requires Terminated(c) && i < |c| && ParseString(c, i).Ok?
    ensures var p := ParseString(c, i).value; IsRaw(p.x) && At(c, i, Quoted(p.x)) && p.end == i + |Quoted(p.x)|
  {
    var p := ParseString(c, i).value;
    var e := p.end - 1;
    assert forall k | 0 <= k < |p.x| :: p.x[k] == c[i + 1 + k];
    SpanOfSlice(c, i + 1, p.x, 0);
    assert c[i..p.end] == Quoted(p.x);
  }

  lemma ParseStringComplete(c: Bytes, i: nat, raw: Bytes)
    requires Terminated(c) && IsRaw(raw) && At(c, i, Quoted(raw))
    ensures i < |c| && ParseString(c, i) == Ok(Parsed(raw, i + |Quoted(raw)|))
  {
    AtConcat(c, i, [QUOTE] + raw, [QUOTE]);
    AtConcat(c, i, [QUOTE], raw);
    AtByte(c, i, QUOTE);
    var e := i + 1 + |raw|;
    AtByte(c, e, QUOTE);
    SpanOfSlice(c, i + 1, raw, 0);
    ScanFinds(c, i + 1, e);
  }

  lemma ParseNumberSound(c: Bytes, i: nat)
    requires Terminated(c) && i < |c| && (c[i] == MINUS || IsDigit(c[i])) && ParseNumber(c, i).Ok?
    ensures var p := ParseNumber(c, i).value; IsLexeme(p.x) && At(c, i, p.x) && p.end == i + |p.x|
  {
    hide StrtodLength, WindowLength;
    var w := c[i..i + WindowLength(c, i, WINDOW)];
    StrtodOfPrefix(w);
    assert w[..StrtodLength(w)] == c[i..i + StrtodLength(w)];
  }

  lemma ParseNumberComplete(c: Bytes, i: nat, raw: Bytes)
    requires Terminated(c) && IsLexeme(raw) && At(c, i, raw)
    requires i + |raw| < |c| ==> !IsNumberByte(c[i + |raw|])
    ensures i < |c| && ParseNumber(c, i) == Ok(Parsed(raw, i + |raw|))
  {
    hide StrtodLength, WindowLength;
    WindowOfLexeme(c, i, raw);
    assert c[i..i + |raw|] == raw;
  }

  // ---------- what is parsed is in the language ----------

  /** The branches of parse_value that can succeed. */
  lemma ValueTaken(c: Bytes, i: nat, room: nat)
    requires Terminated(c) && i < |c| && ParseValue(c, i, room).Ok?
    ensures var p := ParseValue(c, i, room).value;
            match p.x
            case NullWord => At(c, i, NULL_WORD) && p.end == i + 4
            case FalseWord => At(c, i, FALSE_WORD) && p.end == i + 5
            case TrueWord => At(c, i, TRUE_WORD) && p.end == i + 4
            case Str(raw) => ParseString(c, i) == Ok(Parsed(raw, p.end))
            case Num(raw) => (c[i] == MINUS || IsDigit(c[i])) && ParseNumber(c, i) == Ok(Parsed(raw, p.end))
            case Arr(es) => c[i] == LBRACKET && ParseArray(c, i, room) == Ok(Parsed(es, p.end))
            case Obj(fs) => c[i] == LBRACE && ParseObject(c, i, room) == Ok(Parsed(fs, p.end))
  {
    hide ParseString, ParseNumber, ParseArray, ParseObject, Terminated, At;
  }

  lemma {:induction false} ValueSound(c: Bytes, i: nat, room: nat)
    requires Terminated(c) && i < |c| && ParseValue(c, i, room).Ok?
    ensures var p := ParseValue(c, i, room).value;
            WellFormed(p.x) && At(c, i, Spelling(p.x)) && p.end == i + |Spelling(p.x)| && Nesting(p.x) <= room
    decreases |c| - i, 1
  {
    hide ParseValue, ParseString, ParseNumber, ParseArray, ParseObject, Terminated, IsLexeme, IsRaw, Quoted, At;
    ValueTaken(c, i, room);
    match ParseValue(c, i, room).value.x {
      case Str(_) => ParseStringSound(c, i);
      case Num(_) => ParseNumberSound(c, i);
      case Arr(_) => ArraySound(c, i, room);
      case Obj(_) => ObjectSound(c, i, room);
      case _ =>
    }
  }

  lemma {:induction false} ArraySound(c: Bytes, i: nat, room: nat)
    requires Terminated(c) && i < |c| && c[i] == LBRACKET && ParseArray(c, i, room).Ok?
    ensures var p := ParseArray(c, i, room).value;
            WellFormedElems(p.x) && At(c, i, [LBRACKET] + SpellElems(p.x)) && p.end == i + 1 + |SpellElems(p.x)|
            && 1 + ElemsNesting(p.x) <= room
    decreases |c| - i, 0
  {
    hide At, ParseElems, SkipGap, Terminated, IsGap;
    var p := ParseArray(c, i, room).value;
    AtPart(c, i + 1, SkipGap(c, i + 1));
    AtByte(c, i, LBRACKET);
    AtConcat(c, i, [LBRACKET], SpellElems(p.x));
    var j := SkipGap(c, i + 1);
    if c[j] == RBRACKET {
      AtByte(c, j, RBRACKET);
      AtConcat(c, i + 1, p.x.gap, [RBRACKET]);
    } else {
      ElemsSound(c, i + 1, room - 1);
    }
  }

  /** One turn of the loop over elements. */
  lemma ElemsTaken(c: Bytes, i: nat, room: nat)
    requires Terminated(c) && i < |c| && ParseElems(c, i, room).Ok?
    ensures var p := ParseElems(c, i, room).value;
            var j := SkipGap(c, i);
            && ParseValue(c, j, room).Ok?
            && var v := ParseValue(c, j, room).value;
               var k := SkipGap(c, v.end);
               if p.x.Elem? then
                 && c[k] == COMMA && k + 1 < |c| && ParseElems(c, k + 1, room).Ok?
                 && p.x == Elem(c[i..j], v.x, c[v.end..k], ParseElems(c, k + 1, room).value.x)
                 && p.end == ParseElems(c, k + 1, room).value.end
               else
                 c[k] == RBRACKET && p.x == LastElem(c[i..j], v.x, c[v.end..k]) && p.end == k + 1
  {
    hide ParseValue, SkipGap, Terminated;
    var k := SkipGap(c, ParseValue(c, SkipGap(c, i), room).value.end);
    assert c[k] == COMMA ==> k + 1 < |c| by { NotLast(c, k); }
  }

  lemma NotLast(c: Bytes, k: nat)
    requires Terminated(c) && k < |c|
    ensures c[k] != NUL ==> k + 1 < |c|
  {
  }

  lemma {:induction false} ElemsSound(c: Bytes, i: nat, room: nat)
    requires Terminated(c) && i < |c| && ParseElems(c, i, room).Ok?
    ensures var p := ParseElems(c, i, room).value;
            WellFormedElems(p.x) && !p.x.NoElems? && At(c, i, SpellElems(p.x)) && p.end == i + |SpellElems(p.x)|
            && ElemsNesting(p.x) <= room
    decreases |c| - i, 2
  {
    hide At, ParseElems, ParseValue, WellFormed, Spelling, SpellElems, SkipGap, Terminated, IsGap;
    ElemsTaken(c, i, room);
    var p := ParseElems(c, i, room).value;
    var j := SkipGap(c, i);
    ValueSound(c, j, room);
    var v := ParseValue(c, j, room).value;
    var k := SkipGap(c, v.end);
    AtPart(c, i, j);
    AtPart(c, v.end, k);
    AtByte(c, k, c[k]);
    var tail := if p.x.Elem? then SpellElems(p.x.rest) else [];
    if p.x.Elem? {
      ElemsSound(c, k + 1, room);
    } else {
      PartAt(c, k + 1, []);
    }
    ElemsSpelling(p.x, c[k], tail);
    AtConcat(c, k, [c[k]], tail);
    AtAround(c, i, c[i..j], Spelling(v.x), c[v.end..k], [c[k]] + tail);
  }

  /** Four pieces in a row. */
  lemma AtAround(c: Bytes, i: nat, pre: Bytes, x: Bytes, post: Bytes, tail: Bytes)
    ensures At(c, i, pre + (x + (post + tail))) <==>
            At(c, i, pre) && At(c, i + |pre|, x) && At(c, i + |pre| + |x|, post)
              && At(c, i + |pre| + |x| + |post|, tail)
  {
    hide At;
    AtConcat(c, i, pre, x + (post + tail));
    AtConcat(c, i + |pre|, x, post + tail);
    AtConcat(c, i + |pre| + |x|, post, tail);
  }

  lemma HeadSound(c: Bytes, i: nat)
    requires Terminated(c) && i < |c| && ParseHead(c, i).Ok?
    ensures var p := ParseHead(c, i).value;
            WellFormedHead(p.x) && At(c, i, SpellHead(p.x)) && p.end == i + |SpellHead(p.x)|
  {
    hide At, ParseString, SkipGap, Terminated, IsGap, IsRaw, Quoted;
    var h := ParseHead(c, i).value.x;
    var j := SkipGap(c, i);
    ParseStringSound(c, j);
    var e := ParseString(c, j).value.end;
    var m := SkipGap(c, e);
    AtByte(c, m, COLON);
    AtPart(c, i, j);
    AtPart(c, e, m);
    AtPart(c, m + 1, SkipGap(c, m + 1));
    AtConcat(c, m, [COLON], h.mid2);
    AtAround(c, i, h.pre, Quoted(h.key), h.mid, [COLON] + h.mid2);
  }

  lemma {:induction false} ObjectSound(c: Bytes, i: nat, room: nat)
    requires Terminated(c) && i < |c| && c[i] == LBRACE && ParseObject(c, i, room).Ok?
    ensures var p := ParseObject(c, i, room).value;
            WellFormedFields(p.x) && At(c, i, [LBRACE] + SpellFields(p.x)) && p.end == i + 1 + |SpellFields(p.x)|
            && 1 + FieldsNesting(p.x) <= room
    decreases |c| - i, 0
  {
    hide At, ParseFields, SkipGap, Terminated, IsGap;
    var p := ParseObject(c, i, room).value;
    AtPart(c, i + 1, SkipGap(c, i + 1));
    AtByte(c, i, LBRACE);
    AtConcat(c, i, [LBRACE], SpellFields(p.x));
    var j := SkipGap(c, i + 1);
    if c[j] == RBRACE {
      AtByte(c, j, RBRACE);
      AtConcat(c, i + 1, p.x.gap, [RBRACE]);
    } else {
      FieldsSound(c, i + 1, room - 1);
    }
  }

  lemma {:induction false} FieldsSound(c: Bytes, i: nat, room: nat)
    requires Terminated(c) && i < |c| && ParseFields(c, i, room).Ok?
    ensures var p := ParseFields(c, i, room).value;
            WellFormedFields(p.x) && !p.x.NoFields? && At(c, i, SpellFields(p.x)) && p.end == i + |SpellFields(p.x)|
            && FieldsNesting(p.x) <= room
    decreases |c| - i, 2
  {
    hide At, ParseValue, ParseHead, WellFormed, WellFormedHead, Spelling, SpellHead, SkipGap, Terminated, IsGap;
    var p := ParseFields(c, i, room).value;
    HeadSound(c, i);
    var h := ParseHead(c, i).value;
    ValueSound(c, h.end, room);
    var v := ParseValue(c, h.end, room).value;
    var k := SkipGap(c, v.end);
    AtPart(c, v.end, k);
    AtByte(c, k, c[k]);
    var tail := if p.x.Field? then [COMMA] + SpellFields(p.x.rest) else [RBRACE];
    if p.x.Field? {
      FieldsSound(c, k + 1, room);
      AtConcat(c, k, [COMMA], SpellFields(p.x.rest));
    }
    AtAround(c, i, SpellHead(h.x), Spelling(v.x), c[v.end..k], tail);
  }

  // ---------- what is in the language is parsed ----------

  /** A value, a gap and a separator in a row: where each of them stands, and what skipping the gap yields. */
  lemma ValueThen(c: Bytes, i: nat, x: Syntax, post: Bytes, b: Byte, tail: Bytes)
    requires Terminated(c) && WellFormed(x) && IsGap(post) && (b == COMMA || b == RBRACKET || b == RBRACE)
    requires At(c, i, Spelling(x) + (post + ([b] + tail)))
    ensures At(c, i, Spelling(x)) && i < |c| && c[i] == Spelling(x)[0] > 32 && c[i] != RBRACKET && c[i] != RBRACE
    ensures var e := i + |Spelling(x)|; var k := e + |post|;
            && k < |c| && c[k] == b && At(c, k + 1, tail)
            && SkipGap(c, e) == k && c[e..k] == post && !IsNumberByte(c[e])
  {
    hide At, SkipGap, WellFormed, Spelling, Terminated;
    var e := i + |Spelling(x)|;
    var k := e + |post|;
    AtConcat(c, i, Spelling(x), post + ([b] + tail));
    AtConcat(c, e, post, [b] + tail);
    AtConcat(c, k, [b], tail);
    AtByte(c, k, b);
    SpellingStart(x);
    AtIndex(c, i, Spelling(x), 0);
    SkipGapOver(c, e, post);
    PartOf(c, e, post);
    if post != [] {
      AtIndex(c, e, post, 0);
    }
  }

  lemma {:induction false} ValueComplete(c: Bytes, i: nat, room: nat, x: Syntax)
    requires Terminated(c) && WellFormed(x) && At(c, i, Spelling(x)) && Nesting(x) <= room
    requires x.Num? && i + |Spelling(x)| < |c| ==> !IsNumberByte(c[i + |Spelling(x)|])
    ensures i < |c| && ParseValue(c, i, room) == Ok(Parsed(x, i + |Spelling(x)|))
    decreases x
  {
    hide At, ParseString, ParseNumber, ParseArray, ParseObject, Terminated, IsLexeme, IsRaw;
    SpellingStart(x);
    AtIndex(c, i, Spelling(x), 0);
    NoWordAt(c, i);
    match x {
      case NullWord =>
      case FalseWord =>
      case TrueWord =>
      case Num(raw) => ParseNumberComplete(c, i, raw);
      case Str(raw) => ParseStringComplete(c, i, raw);
      case Arr(es) => ArrayComplete(c, i, room, es);
      case Obj(fs) => ObjectComplete(c, i, room, fs);
    }
  }

  /** A literal word starts with its letter. */
  lemma NoWordAt(c: Bytes, i: nat)
    requires i < |c|
    ensures At(c, i, NULL_WORD) ==> c[i] == 110
    ensures At(c, i, FALSE_WORD) ==> c[i] == 102
    ensures At(c, i, TRUE_WORD) ==> c[i] == 116
  {
    if At(c, i, NULL_WORD) { AtIndex(c, i, NULL_WORD, 0); }
    if At(c, i, FALSE_WORD) { AtIndex(c, i, FALSE_WORD, 0); }
    if At(c, i, TRUE_WORD) { AtIndex(c, i, TRUE_WORD, 0); }
  }

  lemma {:induction false} ArrayComplete(c: Bytes, i: nat, room: nat, es: Elems)
    requires Terminated(c) && WellFormedElems(es) && At(c, i, [LBRACKET] + SpellElems(es))
             && 1 + ElemsNesting(es) <= room
    ensures i < |c| && c[i] == LBRACKET && ParseArray(c, i, room) == Ok(Parsed(es, i + 1 + |SpellElems(es)|))
    decreases es, 1
  {
    hide At, ParseElems, SkipGap, Terminated, IsGap, WellFormed, Spelling;
    AtConcat(c, i, [LBRACKET], SpellElems(es));
    AtByte(c, i, LBRACKET);
    if es.NoElems? {
      AtConcat(c, i + 1, es.gap, [RBRACKET]);
      AtByte(c, i + 1 + |es.gap|, RBRACKET);
      PartOf(c, i + 1, es.gap);
      SkipGapOver(c, i + 1, es.gap);
    } else {
      ElemsComplete(c, i + 1, room - 1, es);
    }
  }

  /** Elements that are not empty: the first one, its separator, and the text behind it. */
  lemma ElemsSpelling(es: Elems, b: Byte, tail: Bytes)
    requires !es.NoElems? && b == (if es.Elem? then COMMA else RBRACKET)
    requires tail == if es.Elem? then SpellElems(es.rest) else []
    ensures SpellElems(es) == es.pre + (Spelling(es.x) + (es.post + ([b] + tail)))
    ensures |SpellElems(es)| == |es.pre| + |Spelling(es.x)| + |es.post| + 1 + |tail|
  {
    assert [RBRACKET] + [] == [RBRACKET];
  }

  lemma FieldsSpelling(fs: Fields, b: Byte, tail: Bytes)
    requires !fs.NoFields? && b == (if fs.Field? then COMMA else RBRACE)
    requires tail == if fs.Field? then SpellFields(fs.rest) else []
    ensures SpellFields(fs) == SpellHead(fs.head) + (Spelling(fs.x) + (fs.post + ([b] + tail)))
    ensures |SpellFields(fs)| == |SpellHead(fs.head)| + |Spelling(fs.x)| + |fs.post| + 1 + |tail|
  {
    assert [RBRACE] + [] == [RBRACE];
  }

  /** One turn of the loop of parse_array, once the value is known. */
  lemma ElemsTurn(c: Bytes, i: nat, room: nat, es: Elems, end: nat)
    requires Terminated(c) && i < |c| && !es.NoElems?
    requires var j := i + |es.pre|; var e := j + |Spelling(es.x)|; var k := e + |es.post|;
             && k < |c| && SkipGap(c, i) == j && SkipGap(c, e) == k && c[i..j] == es.pre && c[e..k] == es.post
             && ParseValue(c, j, room) == Ok(Parsed(es.x, e))
             && if es.Elem? then c[k] == COMMA && k + 1 < |c| && ParseElems(c, k + 1, room) == Ok(Parsed(es.rest, end))
                else c[k] == RBRACKET && end == k + 1
    ensures ParseElems(c, i, room) == Ok(Parsed(es, end))
  {
    hide Spelling, Terminated, ParseValue, SkipGap;
  }

  /** One turn of the loop of parse_object, once name and value are known. */
  lemma FieldsTurn(c: Bytes, i: nat, room: nat, fs: Fields, end: nat)
    requires Terminated(c) && i < |c| && !fs.NoFields?
    requires var j := i + |SpellHead(fs.head)|; var e := j + |Spelling(fs.x)|; var k := e + |fs.post|;
             && j < k < |c| && e < |c| && ParseHead(c, i) == Ok(Parsed(fs.head, j))
             && ParseValue(c, j, room) == Ok(Parsed(fs.x, e)) && SkipGap(c, e) == k && c[e..k] == fs.post
             && if fs.Field? then c[k] == COMMA && k + 1 < |c|
                && ParseFields(c, k + 1, room) == Ok(Parsed(fs.rest, end))
                else c[k] == RBRACE && end == k + 1
    ensures ParseFields(c, i, room) == Ok(Parsed(fs, end))
  {
    hide Spelling, SpellHead, Terminated, ParseValue, ParseHead, SkipGap;
  }

  /** Where the parts of the first element of a spelled list stand. */
  lemma ElemsPlaces(c: Bytes, i: nat, es: Elems, tail: Bytes)
    requires Terminated(c) && WellFormedElems(es) && !es.NoElems? && At(c, i, SpellElems(es))
    requires tail == if es.Elem? then SpellElems(es.rest) else []
    ensures var j := i + |es.pre|; var e := j + |Spelling(es.x)|; var k := e + |es.post|;
            && j < k < |c| && e < |c| && At(c, j, Spelling(es.x)) && At(c, k + 1, tail) && !IsNumberByte(c[e])
            && SkipGap(c, i) == j && SkipGap(c, e) == k && c[i..j] == es.pre && c[e..k] == es.post
            && c[k] == (if es.Elem? then COMMA else RBRACKET) && c[j] != RBRACKET
            && |SpellElems(es)| == |es.pre| + |Spelling(es.x)| + |es.post| + 1 + |tail|
  {
    hide At, SkipGap, Terminated, IsGap, WellFormed, Spelling, SpellElems;
    var b := if es.Elem? then COMMA else RBRACKET;
    ElemsSpelling(es, b, tail);
    AtConcat(c, i, es.pre, Spelling(es.x) + (es.post + ([b] + tail)));
    SpellingStart(es.x);
    ValueThen(c, i + |es.pre|, es.x, es.post, b, tail);
    SkipGapOver(c, i, es.pre);
    PartOf(c, i, es.pre);
  }

  lemma {:induction false} ElemsComplete(c: Bytes, i: nat, room: nat, es: Elems)
    requires Terminated(c) && WellFormedElems(es) && !es.NoElems? && At(c, i, SpellElems(es))
             && ElemsNesting(es) <= room
    ensures i < |c| && c[SkipGap(c, i)] != RBRACKET
    ensures ParseElems(c, i, room) == Ok(Parsed(es, i + |SpellElems(es)|))
    decreases es, 0
  {
    hide At, ParseValue, ParseElems, SkipGap, Terminated, IsGap, WellFormed, Spelling, SpellElems;
    ElemsPlaces(c, i, es, if es.Elem? then SpellElems(es.rest) else []);
    var j := i + |es.pre|;
    ValueComplete(c, j, room, es.x);
    if es.Elem? {
      ElemsComplete(c, j + |Spelling(es.x)| + |es.post| + 1, room, es.rest);
    }
    ElemsTurn(c, i, room, es, i + |SpellElems(es)|);
  }

  lemma HeadComplete(c: Bytes, i: nat, h: Head)
    requires Terminated(c) && WellFormedHead(h) && At(c, i, SpellHead(h))
    requires i + |SpellHead(h)| < |c| && (c[i + |SpellHead(h)|] > 32 || i + |SpellHead(h)| == |c| - 1)
    ensures ParseHead(c, i) == Ok(Parsed(h, i + |SpellHead(h)|))
  {
    hide At, ParseString, SkipGap, Terminated, IsGap, IsRaw;
    AtAround(c, i, h.pre, Quoted(h.key), h.mid, [COLON] + h.mid2);
    var j := i + |h.pre|;
    var e := j + |Quoted(h.key)|;
    var m := e + |h.mid|;
    AtConcat(c, m, [COLON], h.mid2);
    AtByte(c, m, COLON);
    ParseStringComplete(c, j, h.key);
    AtIndex(c, j, Quoted(h.key), 0);
    SkipGapOver(c, i, h.pre);
    SkipGapOver(c, e, h.mid);
    SkipGapOver(c, m + 1, h.mid2);
    PartOf(c, i, h.pre);
    PartOf(c, e, h.mid);
    PartOf(c, m + 1, h.mid2);
  }

  /** A member name does not start with a brace. */
  lemma HeadStart(c: Bytes, i: nat, h: Head)
    requires Terminated(c) && WellFormedHead(h) && At(c, i, SpellHead(h))
    ensures i < |c| && c[SkipGap(c, i)] == QUOTE
  {
    var rest := h.mid + ([COLON] + h.mid2);
    AtConcat(c, i, h.pre, Quoted(h.key) + rest);
    AtIndex(c, i + |h.pre|, Quoted(h.key) + rest, 0);
    SkipGapOver(c, i, h.pre);
  }

  lemma {:induction false} ObjectComplete(c: Bytes, i: nat, room: nat, fs: Fields)
    requires Terminated(c) && WellFormedFields(fs) && At(c, i, [LBRACE] + SpellFields(fs))
             && 1 + FieldsNesting(fs) <= room
    ensures i < |c| && c[i] == LBRACE && ParseObject(c, i, room) == Ok(Parsed(fs, i + 1 + |SpellFields(fs)|))
    decreases fs, 1
  {
    hide At, ParseFields, SkipGap, Terminated, IsGap, WellFormed, WellFormedHead, Spelling;
    AtConcat(c, i, [LBRACE], SpellFields(fs));
    AtByte(c, i, LBRACE);
    if fs.NoFields? {
      AtConcat(c, i + 1, fs.gap, [RBRACE]);
      AtByte(c, i + 1 + |fs.gap|, RBRACE);
      PartOf(c, i + 1, fs.gap);
      SkipGapOver(c, i + 1, fs.gap);
    } else {
      FieldsComplete(c, i + 1, room - 1, fs);
    }
  }

  /** Where the parts of the first member of a spelled list stand. */
  lemma FieldsPlaces(c: Bytes, i: nat, fs: Fields, tail: Bytes)
    requires Terminated(c) && WellFormedFields(fs) && !fs.NoFields? && At(c, i, SpellFields(fs))
    requires tail == if fs.Field? then SpellFields(fs.rest) else []
    ensures var j := i + |SpellHead(fs.head)|; var e := j + |Spelling(fs.x)|; var k := e + |fs.post|;
            && j < k < |c| && e < |c| && At(c, j, Spelling(fs.x)) && At(c, k + 1, tail) && !IsNumberByte(c[e])
            && c[SkipGap(c, i)] == QUOTE && ParseHead(c, i) == Ok(Parsed(fs.head, j)) && SkipGap(c, e) == k
               && c[e..k] == fs.post
            && c[k] == (if fs.Field? then COMMA else RBRACE)
            && |SpellFields(fs)| == |SpellHead(fs.head)| + |Spelling(fs.x)| + |fs.post| + 1 + |tail|
  {
    hide At, ParseHead, SkipGap, Terminated, IsGap, WellFormed, WellFormedHead, Spelling, SpellHead, SpellFields;
    var b := if fs.Field? then COMMA else RBRACE;
    FieldsSpelling(fs, b, tail);
    AtConcat(c, i, SpellHead(fs.head), Spelling(fs.x) + (fs.post + ([b] + tail)));
    SpellingStart(fs.x);
    ValueThen(c, i + |SpellHead(fs.head)|, fs.x, fs.post, b, tail);
    HeadStart(c, i, fs.head);
    HeadComplete(c, i, fs.head);
  }

  lemma {:induction false} FieldsComplete(c: Bytes, i: nat, room: nat, fs: Fields)
    requires Terminated(c) && WellFormedFields(fs) && !fs.NoFields? && At(c, i, SpellFields(fs))
             && FieldsNesting(fs) <= room
    ensures i < |c| && c[SkipGap(c, i)] != RBRACE
    ensures ParseFields(c, i, room) == Ok(Parsed(fs, i + |SpellFields(fs)|))
    decreases fs, 0
  {
    hide At, ParseValue, ParseHead, ParseFields, SkipGap, Terminated, IsGap, WellFormed, WellFormedHead, Spelling,
      SpellHead, SpellFields;
    FieldsPlaces(c, i, fs, if fs.Field? then SpellFields(fs.rest) else []);
    var j := i + |SpellHead(fs.head)|;
    ValueComplete(c, j, room, fs.x);
    if fs.Field? {
      FieldsComplete(c, j + |Spelling(fs.x)| + |fs.post| + 1, room, fs.rest);
    }
    FieldsTurn(c, i, room, fs, i + |SpellFields(fs)|);
  }

  // ---------- whole texts ----------

  lemma {:induction false} SpellingNulFree(x: Syntax)
    requires WellFormed(x)
    ensures 0 !in Spelling(x)
    decreases x
  {
    match x {
      case Num(raw) => LexemeBytes(raw);
      case Arr(es) => ElemsNulFree(es);
      case Obj(fs) => FieldsNulFree(fs);
      case _ =>
    }
  }

  lemma {:induction false} ElemsNulFree(es: Elems)
    requires WellFormedElems(es)
    ensures 0 !in SpellElems(es)
    decreases es
  {
    if !es.NoElems? {
      SpellingNulFree(es.x);
      if es.Elem? {
        ElemsNulFree(es.rest);
      }
    }
  }

  lemma {:induction false} FieldsNulFree(fs: Fields)
    requires WellFormedFields(fs)
    ensures 0 !in SpellFields(fs)
    decreases fs
  {
    if !fs.NoFields? {
      SpellingNulFree(fs.x);
      if fs.Field? {
        FieldsNulFree(fs.rest);
      }
    }
  }

  /** The C string of a document makes a parse buffer. */
  lemma DocumentTerminated(d: Document)
    requires WellFormedDocument(d)
    ensures Terminated(SpellDocument(d) + [NUL])
  {
    SpellingNulFree(d.x);
    assert 0 !in SpellDocument(d);
  }

  lemma Regroup(bom: Bytes, pre: Bytes, x: Bytes, post: Bytes, tail: Bytes)
    ensures bom + (pre + (x + post)) + tail + [NUL] == bom + (pre + (x + (post + (tail + [NUL]))))
  {
  }

  /** Where the parts of a document stand. */
  lemma DocumentParts(c: Bytes, d: Document, tail: Bytes)
    requires Terminated(c) && WellFormedDocument(d) && c == SpellDocument(d) + tail + [NUL]
    ensures HasBom(c) == d.bom
    ensures var i := if d.bom then 3 else 0;
            && i < |c| && SkipGap(c, i) == i + |d.pre| && c[i..i + |d.pre|] == d.pre
            && At(c, i + |d.pre|, Spelling(d.x)) && At(c, i + |d.pre| + |Spelling(d.x)|, d.post + (tail + [NUL]))
  {
    hide At, Spelling, WellFormed, SkipGap, Terminated, IsGap, HasBom, IsNumberByte, SpellDocument;
    var i := if d.bom then 3 else 0;
    DocumentAt(c, d, tail);
    SpellingStart(d.x);
    AtIndex(c, i + |d.pre|, Spelling(d.x), 0);
    SkipGapOver(c, i, d.pre);
    PartOf(c, i, d.pre);
    BomStands(c, d);
  }

  /** The pieces of a document in a row. */
  lemma DocumentAt(c: Bytes, d: Document, tail: Bytes)
    requires c == SpellDocument(d) + tail + [NUL]
    ensures var i := if d.bom then 3 else 0;
            && At(c, 0, if d.bom then BOM else []) && At(c, i, d.pre) && At(c, i + |d.pre|, Spelling(d.x))
            && At(c, i + |d.pre| + |Spelling(d.x)|, d.post + (tail + [NUL]))
            && i + |d.pre| + |Spelling(d.x)| < |c|
  {
    hide At, Spelling;
    var i := if d.bom then 3 else 0;
    var bom := if d.bom then BOM else [];
    Regroup(bom, d.pre, Spelling(d.x), d.post, tail);
    PartAt(c, 0, c);
    AtConcat(c, 0, bom, d.pre + (Spelling(d.x) + (d.post + (tail + [NUL]))));
    AtAround(c, i, d.pre, Spelling(d.x), d.post, tail + [NUL]);
    AtConcat(c, i + |d.pre| + |Spelling(d.x)|, d.post, tail + [NUL]);
  }

  /** A text starts with the mark exactly when the document has one. */
  lemma BomStands(c: Bytes, d: Document)
    requires WellFormedDocument(d) && At(c, 0, if d.bom then BOM else [])
    requires At(c, if d.bom then 3 else 0, d.pre) && At(c, (if d.bom then 3 else 0) + |d.pre|, Spelling(d.x))
    requires (if d.bom then 3 else 0) + |d.pre| + |Spelling(d.x)| < |c|
    ensures HasBom(c) == d.bom
  {
    hide At, Spelling, WellFormed;
    FirstByteAscii(d.x);
    AtIndex(c, (if d.bom then 3 else 0) + |d.pre|, Spelling(d.x), 0);
    if !d.bom {
      if d.pre != [] {
        AtIndex(c, 0, d.pre, 0);
      }
      NoBom(c);
    }
  }

  lemma PartAt(c: Bytes, i: nat, s: Bytes)
    requires i + |s| <= |c| && c[i..i + |s|] == s
    ensures At(c, i, s)
  {
  }

  lemma FirstByteAscii(x: Syntax)
    requires WellFormed(x)
    ensures |Spelling(x)| > 0 && Spelling(x)[0] < 128
  {
  }

  lemma NoBom(c: Bytes)
    requires |c| > 0 && c[0] < 128
    ensures !HasBom(c)
  {
    if |c| >= 5 && At(c, 0, BOM) {
      AtIndex(c, 0, BOM, 0);
    }
  }

  lemma LastNul(c: Bytes, k: nat)
    requires Terminated(c) && k < |c| && c[k] == NUL
    ensures k == |c| - 1
  {
  }

  lemma Pieces(c: Bytes, i: nat, j: nat, e: nat)
    requires i <= j <= e < |c| && c[|c| - 1] == NUL
    ensures c == c[..i] + (c[i..j] + (c[j..e] + c[e..|c| - 1])) + [NUL]
  {
  }

  /** Strict parsing of a whole text yields a document that spells it. */
  lemma StrictSound(c: Bytes)
    requires Terminated(c) && ParseText(c, true).Ok?
    ensures var p := ParseText(c, true).value;
            && WellFormedDocument(p.x) && Nesting(p.x.x) <= NESTING_LIMIT
            && c == SpellDocument(p.x) + [NUL] && p.end == |c| - 1
  {
    hide ParseValue, SkipGap, Spelling, WellFormed, Terminated, IsGap;
    var d := ParseText(c, true).value.x;
    var i := if HasBom(c) then 3 else 0;
    var j := SkipGap(c, i);
    ValueSound(c, j, NESTING_LIMIT);
    var e := ParseValue(c, j, NESTING_LIMIT).value.end;
    var k := SkipGap(c, e);
    assert k == |c| - 1 by { LastNul(c, k); }
    Pieces(c, i, j, e);
  }

  /** A gap up to the final NUL. */
  lemma GapAtEnd(c: Bytes, e: nat, post: Bytes)
    requires Terminated(c) && IsGap(post) && At(c, e, post + [NUL])
    ensures e + |post| == |c| - 1 && e < |c| && SkipGap(c, e) == |c| - 1 && c[e..|c| - 1] == post && !IsNumberByte(c[e])
  {
    hide At, SkipGap;
    AtConcat(c, e, post, [NUL]);
    AtByte(c, e + |post|, NUL);
    assert c[e + |post|] == 0;
    SkipGapOver(c, e, post);
    PartOf(c, e, post);
    AtIndex(c, e, post + [NUL], 0);
  }

  /** The course of strict parsing over a text that spells a document. */
  lemma WholeParts(c: Bytes, d: Document)
    requires Terminated(c) && WellFormedDocument(d) && c == SpellDocument(d) + [NUL]
    ensures HasBom(c) == d.bom
    ensures var i := if d.bom then 3 else 0; var j := i + |d.pre|; var e := j + |Spelling(d.x)|;
            && j < e < |c| && SkipGap(c, i) == j && c[i..j] == d.pre && At(c, j, Spelling(d.x)) && !IsNumberByte(c[e])
            && SkipGap(c, e) == |c| - 1 && c[e..|c| - 1] == d.post
  {
    hide Spelling, WellFormed, At, SkipGap, SpellDocument, HasBom, IsGap, Terminated, IsNumberByte;
    assert c == SpellDocument(d) + [] + [NUL] && [] + [NUL] == [NUL];
    DocumentParts(c, d, []);
    GapAtEnd(c, (if d.bom then 3 else 0) + |d.pre| + |Spelling(d.x)|, d.post);
    SpellingStart(d.x);
  }

  /** Strict parsing reads back every document that nests no deeper than the limit. */
  lemma StrictComplete(c: Bytes, d: Document)
    requires Terminated(c) && WellFormedDocument(d) && Nesting(d.x) <= NESTING_LIMIT && c == SpellDocument(d) + [NUL]
    ensures ParseText(c, true) == Ok(Parsed(d, |c| - 1))
  {
    hide ParseValue, SkipGap, Spelling, WellFormed, At, SpellDocument, HasBom, IsGap, IsNumberByte, Nesting;
    WholeParts(c, d);
    ValueComplete(c, (if d.bom then 3 else 0) + |d.pre|, NESTING_LIMIT, d.x);
  }

  /** The strict parser accepts exactly the documents of the grammar within the nesting limit, each in one reading. */
  lemma StrictIff(c: Bytes, p: Parsed<Document>)
    requires Terminated(c)
    ensures ParseText(c, true) == Ok(p) <==>
            && WellFormedDocument(p.x) && Nesting(p.x.x) <= NESTING_LIMIT
            && c == SpellDocument(p.x) + [NUL] && p.end == |c| - 1
  {
    hide ParseText, Terminated, WellFormedDocument, SpellDocument, Nesting;
    if ParseText(c, true) == Ok(p) {
      StrictSound(c);
    }
    if WellFormedDocument(p.x) && Nesting(p.x.x) <= NESTING_LIMIT && c == SpellDocument(p.x) + [NUL] {
      StrictComplete(c, p.x);
    }
  }

  /** A text is read in one way only, however deeply it nests. */
  lemma OneReading(x: Syntax, y: Syntax)
    requires WellFormed(x) && WellFormed(y) && Spelling(x) == Spelling(y)
    ensures x == y
  {
    hide ParseValue, Spelling, WellFormed, Nesting, IsNumberByte;
    var c := Spelling(x) + [NUL];
    var room := if Nesting(x) < Nesting(y) then Nesting(y) else Nesting(x);
    SpellingNulFree(x);
    assert Terminated(c);
    assert c[..|Spelling(x)|] == Spelling(x) && At(c, 0, Spelling(x));
    assert !IsNumberByte(NUL) by { NulIsNoNumber(); }
    ValueComplete(c, 0, room, x);
    ValueComplete(c, 0, room, y);
  }

  /** A document is read in one way only. */
  lemma OneDocument(d: Document, e: Document)
    requires WellFormedDocument(d) && WellFormedDocument(e) && SpellDocument(d) == SpellDocument(e)
    ensures d == e
  {
    hide ParseValue, Spelling, WellFormed, SpellDocument, Nesting, SkipGap, HasBom, At, Terminated, IsGap;
    var c := SpellDocument(d) + [NUL];
    DocumentTerminated(d);
    WholeParts(c, d);
    WholeParts(c, e);
    var room := if Nesting(d.x) < Nesting(e.x) then Nesting(e.x) else Nesting(d.x);
    ValueComplete(c, (if d.bom then 3 else 0) + |d.pre|, room, d.x);
    ValueComplete(c, (if e.bom then 3 else 0) + |e.pre|, room, e.x);
  }

  lemma NulIsNoNumber()
    ensures !IsNumberByte(NUL)
  {
  }

  /** A document that nests deeper is rejected. */
  lemma TooDeep(c: Bytes, d: Document)
    requires Terminated(c) && WellFormedDocument(d) && Nesting(d.x) > NESTING_LIMIT && c == SpellDocument(d) + [NUL]
    ensures ParseText(c, true).Err?
  {
    hide ParseValue, SkipGap, Spelling, WellFormed, At, SpellDocument, HasBom, IsGap, Terminated, IsNumberByte, Nesting;
    var i := if d.bom then 3 else 0;
    WholeParts(c, d);
    ValueComplete(c, i + |d.pre|, Nesting(d.x), d.x);
    if ParseText(c, true).Ok? {
      var d2 := ParseText(c, true).value.x;
      StrictSound(c);
      WholeParts(c, d2);
      ValueComplete(c, i + |d2.pre|, Nesting(d.x), d2.x);
      assert false;
    }
  }

  /** Without the strict option a document may be followed by anything that does not prolong a number. */
  lemma LooseComplete(c: Bytes, d: Document, tail: Bytes)
    requires Terminated(c) && WellFormedDocument(d) && d.post == [] && Nesting(d.x) <= NESTING_LIMIT
    requires c == SpellDocument(d) + tail + [NUL]
    requires d.x.Num? && tail != [] ==> !IsNumberByte(tail[0])
    ensures ParseText(c, false) == Ok(Parsed(d, |SpellDocument(d)|))
  {
    hide ParseValue, SkipGap, Spelling, WellFormed, At, HasBom, IsGap, Terminated;
    DocumentParts(c, d, tail);
    var j := (if d.bom then 3 else 0) + |d.pre|;
    var e := j + |Spelling(d.x)|;
    AtIndex(c, e, [] + (tail + [NUL]), 0);
    ValueComplete(c, j, NESTING_LIMIT, d.x);
  }

  /** The number at i is not prolonged: strtod takes just these bytes out of the window that is copied for it. */
  predicate NumberStands(c: Bytes, i: nat, raw: Bytes)
    requires i <= |c|
  {
    StrtodLength(c[i..i + WindowLength(c, i, WINDOW)]) == |raw|
  }

  lemma NumberRead(c: Bytes, i: nat, room: nat, raw: Bytes)
    requires Terminated(c) && IsLexeme(raw) && At(c, i, raw) && i + |raw| < |c| && NumberStands(c, i, raw)
    ensures ParseValue(c, i, room) == Ok(Parsed(Num(raw), i + |raw|))
  {
    hide StrtodLength, WindowLength, At;
    AtIndex(c, i, raw, 0);
    NoWordAt(c, i);
    assert c[i..i + |raw|] == raw by { PartIs(c, i, raw); }
  }

  lemma PartIs(c: Bytes, i: nat, s: Bytes)
    requires At(c, i, s)
    ensures i + |s| <= |c| && c[i..i + |s|] == s
  {
  }

  lemma NumberTaken(c: Bytes, i: nat, room: nat)
    requires Terminated(c) && i < |c| && ParseValue(c, i, room).Ok? && ParseValue(c, i, room).value.x.Num?
    ensures NumberStands(c, i, ParseValue(c, i, room).value.x.raw)
  {
    hide StrtodLength, WindowLength, ParseValue, At;
    ValueTaken(c, i, room);
  }

  /** What a loose parse asks of a text: it starts with the document, which ends where the parse ends. */
  ghost predicate StartsWith(c: Bytes, p: Parsed<Document>) {
    && WellFormedDocument(p.x) && p.x.post == [] && Nesting(p.x.x) <= NESTING_LIMIT
    && p.end == |SpellDocument(p.x)| < |c| && c[..p.end] == SpellDocument(p.x)
    && (p.x.x.Num? ==> p.end >= |p.x.x.raw| && NumberStands(c, p.end - |p.x.x.raw|, p.x.x.raw))
  }

  lemma LooseSound(c: Bytes)
    requires Terminated(c) && ParseText(c, false).Ok?
    ensures StartsWith(c, ParseText(c, false).value)
  {
    hide ParseValue, SkipGap, Spelling, WellFormed, Terminated, NumberStands, Nesting;
    var p := ParseText(c, false).value;
    var i := if HasBom(c) then 3 else 0;
    var j := SkipGap(c, i);
    ValueSound(c, j, NESTING_LIMIT);
    var e := ParseValue(c, j, NESTING_LIMIT).value.end;
    Prefix(c, i, j, e);
    assert c[..i] == (if p.x.bom then BOM else []) && c[j..e] == Spelling(p.x.x) && c[j..e] + [] == c[j..e];
    assert c[..e] == SpellDocument(p.x);
    if p.x.x.Num? {
      NumberTaken(c, j, NESTING_LIMIT);
      NumSpelling(p.x.x);
    }
  }

  lemma NumSpelling(x: Syntax)
    requires x.Num?
    ensures Spelling(x) == x.raw
  {
  }

  lemma Prefix(c: Bytes, i: nat, j: nat, e: nat)
    requires i <= j <= e <= |c|
    ensures c[..e] == c[..i] + (c[i..j] + c[j..e])
  {
  }

  lemma LooseRead(c: Bytes, p: Parsed<Document>)
    requires Terminated(c) && StartsWith(c, p)
    ensures ParseText(c, false) == Ok(p)
  {
    hide ParseValue, SkipGap, Spelling, WellFormed, At, HasBom, IsGap, NumberStands, SpellDocument, Nesting;
    var d := p.x;
    var tail := c[p.end..|c| - 1];
    assert c == SpellDocument(d) + tail + [NUL];
    DocumentParts(c, d, tail);
    DocumentLength(d);
    var j := (if d.bom then 3 else 0) + |d.pre|;
    var e := j + |Spelling(d.x)|;
    assert [] + (tail + [NUL]) == tail + [NUL];
    if d.x.Num? {
      NumSpelling(d.x);
      NumberIsLexeme(d.x);
      NumberRead(c, j, NESTING_LIMIT, d.x.raw);
    } else {
      ValueComplete(c, j, NESTING_LIMIT, d.x);
    }
  }

  lemma NumberIsLexeme(x: Syntax)
    requires x.Num? && WellFormed(x)
    ensures IsLexeme(x.raw)
  {
  }

  lemma DocumentLength(d: Document)
    ensures |SpellDocument(d)| == (if d.bom then 3 else 0) + |d.pre| + |Spelling(d.x)| + |d.post|
  {
  }

  /**
   Without the strict option the parser accepts exactly the texts that start with a document within the nesting limit
   whose number is not prolonged, and the parse ends where that document ends.
   */
  lemma LooseIff(c: Bytes, p: Parsed<Document>)
    requires Terminated(c)
    ensures ParseText(c, false) == Ok(p) <==> StartsWith(c, p)
  {
    hide ParseText, Terminated, StartsWith;
    if ParseText(c, false) == Ok(p) {
      LooseSound(c);
    }
    if StartsWith(c, p) {
      LooseRead(c, p);
    }
  }
}
