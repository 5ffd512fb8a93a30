/**
 Texts that are rejected: how far they can be read, what is wrong with the rest, and the position that is reported. It
 is behind the longest part that was taken in, which for a string may end before the byte that is wrong.
 */
module Faults {
  import opened Text
  import opened StringCodec
  import opened Numbers
  import opened Grammar
  import opened Language

  /** A string that breaks off: no quote, no end, or an escape that cannot be decoded behind a part that can. */
  datatype BadString = NoQuote(b: Byte) | NoEnd | BadEscape(raw: Bytes, good: nat)

  /** A value that breaks off: nothing to start with, nested too deeply, or broken inside. */
  datatype BadValue =
    | NoValue
    | TooDeep
    | InString(s: BadString)
    | InArray(elems: BadElems)
    | InObject(fields: BadFields)

  datatype BadElems =
    | BadElem(pre: Bytes, b: BadValue)
    | NoSeparator(pre: Bytes, x: Syntax, post: Bytes)
    | LaterElem(pre: Bytes, x: Syntax, post: Bytes, rest: BadElems)

  datatype BadFields =
    | BadName(pre: Bytes, s: BadString)
    | NoColon(pre: Bytes, key: Bytes, mid: Bytes)
    | BadMember(head: Head, b: BadValue)
    | NoDivider(head: Head, x: Syntax, post: Bytes)
    | LaterField(head: Head, x: Syntax, post: Bytes, rest: BadFields)

  // ---------- what was taken in ----------

  /** What stands in front of the reported position: for a missing quote the byte in its place, too. */
  function TakenString(s: BadString): Bytes {
    match s
    case NoQuote(b) => [b]
    case NoEnd => [34]
    case BadEscape(raw, good) => [34] + if good <= |raw| then raw[..good] else raw
  }

  function TakenValue(b: BadValue): Bytes {
    match b
    case NoValue => []
    case TooDeep => []
    case InString(s) => TakenString(s)
    case InArray(es) => [91] + TakenElems(es)
    case InObject(fs) => [123] + TakenFields(fs)
  }

  function TakenElems(es: BadElems): Bytes {
    match es
    case BadElem(pre, b) => pre + TakenValue(b)
    case NoSeparator(pre, x, post) => pre + (Spelling(x) + post)
    case LaterElem(pre, x, post, rest) => pre + (Spelling(x) + (post + ([44] + TakenElems(rest))))
  }

  function TakenFields(fs: BadFields): Bytes {
    match fs
    case BadName(pre, s) => pre + TakenString(s)
    case NoColon(pre, key, mid) => pre + (Quoted(key) + mid)
    case BadMember(h, b) => SpellHead(h) + TakenValue(b)
    case NoDivider(h, x, post) => SpellHead(h) + (Spelling(x) + post)
    case LaterField(h, x, post, rest) => SpellHead(h) + (Spelling(x) + (post + ([44] + TakenFields(rest))))
  }

  // ---------- what is wrong ----------

  /** The whole gap at i is g. */
  ghost predicate GapAt(c: Bytes, i: nat, g: Bytes) {
    IsGap(g) && At(c, i, g) && i + |g| < |c| && (c[i + |g|] > 32 || i + |g| == |c| - 1)
  }

  /** The value at i is x, and it is a whole one. */
  ghost predicate ReadAt(c: Bytes, i: nat, x: Syntax, room: nat) {
    && WellFormed(x) && At(c, i, Spelling(x)) && i + |Spelling(x)| < |c| && Nesting(x) <= room
    && (x.Num? ==> NumberStands(c, i, x.raw))
  }

  /** Decoding a literal from k on, turn by turn, arrives at p. */
  predicate TurnsTo(s: Bytes, k: nat, p: nat)
    decreases if k <= |s| then |s| - k else 0
  {
    k == p || (k < |s| && DecodeTurn(s, k).Some? && TurnsTo(s, k + DecodeTurn(s, k).value.length, p))
  }

  ghost predicate StringBreaks(c: Bytes, i: nat, s: BadString)
    requires i < |c|
  {
    match s
    case NoQuote(b) => c[i] == b != 34
    case NoEnd => c[i] == 34 && forall raw | RawSpan(raw, 0, |raw|) :: !At(c, i, Quoted(raw))
    case BadEscape(raw, p) =>
      && At(c, i, Quoted(raw)) && RawSpan(raw, 0, |raw|)
      && TurnsTo(raw, 0, p) && p < |raw| && DecodeTurn(raw, p).None?
  }

  /** None of the words, and no byte that a value starts with, unless it is a minus that no digit follows. */
  predicate Starts(c: Bytes, i: nat)
    requires i < |c|
  {
    || At(c, i, [110, 117, 108, 108]) || At(c, i, [102, 97, 108, 115, 101]) || At(c, i, [116, 114, 117, 101])
    || c[i] == 34 || c[i] == 91 || c[i] == 123
    || IsDigit(c[i])
    || (c[i] == 45 && i + 1 < |c| && (IsDigit(c[i + 1]) || (c[i + 1] == 46 && i + 2 < |c| && IsDigit(c[i + 2]))))
  }

  ghost predicate ValueBreaks(c: Bytes, i: nat, b: BadValue, room: nat)
    decreases b
  {
    && i < |c|
    && match b
       case NoValue => !Starts(c, i)
       case TooDeep => room == 0 && (c[i] == 91 || c[i] == 123)
       case InString(s) => c[i] == 34 && StringBreaks(c, i, s)
       case InArray(es) =>
         && c[i] == 91 && room > 0 && ElemsBreak(c, i + 1, es, room - 1)
         && (forall g | GapAt(c, i + 1, g) :: c[i + 1 + |g|] != 93)
       case InObject(fs) =>
         && c[i] == 123 && room > 0 && FieldsBreak(c, i + 1, fs, room - 1)
         && (forall g | GapAt(c, i + 1, g) :: c[i + 1 + |g|] != 125)
  }

  ghost predicate ElemsBreak(c: Bytes, i: nat, es: BadElems, room: nat)
    decreases es
  {
    && GapAt(c, i, es.pre)
    && var j := i + |es.pre|;
       if es.BadElem? then ValueBreaks(c, j, es.b, room)
       else
         && ReadAt(c, j, es.x, room) && GapAt(c, j + |Spelling(es.x)|, es.post)
         && var k := j + |Spelling(es.x)| + |es.post|;
            if es.NoSeparator? then c[k] != 44 && c[k] != 93
            else c[k] == 44 && ElemsBreak(c, k + 1, es.rest, room)
  }

  ghost predicate HeadAt(c: Bytes, i: nat, h: Head) {
    && WellFormedHead(h) && At(c, i, SpellHead(h)) && i + |SpellHead(h)| < |c|
    && (c[i + |SpellHead(h)|] > 32 || i + |SpellHead(h)| == |c| - 1)
  }

  ghost predicate FieldsBreak(c: Bytes, i: nat, fs: BadFields, room: nat)
    decreases fs
  {
    match fs
    case BadName(pre, s) => GapAt(c, i, pre) && StringBreaks(c, i + |pre|, s)
    case NoColon(pre, key, mid) =>
      && GapAt(c, i, pre) && IsRaw(key) && At(c, i + |pre|, Quoted(key))
      && GapAt(c, i + |pre| + |Quoted(key)|, mid) && c[i + |pre| + |Quoted(key)| + |mid|] != 58
    case BadMember(h, b) => HeadAt(c, i, h) && ValueBreaks(c, i + |SpellHead(h)|, b, room)
    case NoDivider(h, x, post) =>
      var j := i + |SpellHead(h)|; var k := j + |Spelling(x)| + |post|;
      && HeadAt(c, i, h) && ReadAt(c, j, x, room) && GapAt(c, j + |Spelling(x)|, post) && c[k] != 44 && c[k] != 125
    case LaterField(h, x, post, rest) =>
      var j := i + |SpellHead(h)|; var k := j + |Spelling(x)| + |post|;
      && HeadAt(c, i, h) && ReadAt(c, j, x, room) && GapAt(c, j + |Spelling(x)|, post) && c[k] == 44
      && FieldsBreak(c, k + 1, rest, room)
  }

  // ---------- gaps, values and names that can be read ----------

  lemma GapRead(c: Bytes, i: nat, g: Bytes)
    requires Terminated(c) && i < |c|
    ensures GapAt(c, i, g) <==> SkipGap(c, i) == i + |g| && c[i..i + |g|] == g
  {
    if GapAt(c, i, g) {
      SkipGapOver(c, i, g);
    }
  }

  /** The gap at a place. */
  lemma TheGap(c: Bytes, i: nat) returns (g: Bytes)
    requires Terminated(c) && i < |c|
    ensures GapAt(c, i, g) && i + |g| == SkipGap(c, i) && g == c[i..SkipGap(c, i)]
    ensures forall h | GapAt(c, i, h) :: h == g
  {
    hide GapAt, SkipGap;
    g := c[i..SkipGap(c, i)];
    GapRead(c, i, g);
    forall h | GapAt(c, i, h) ensures h == g {
      GapRead(c, i, h);
    }
  }

  lemma ValueRead(c: Bytes, i: nat, x: Syntax, room: nat)
    requires Terminated(c) && i < |c|
    ensures ReadAt(c, i, x, room) <==> ParseValue(c, i, room) == Ok(Parsed(x, i + |Spelling(x)|))
  {
    hide ParseValue, Spelling, WellFormed, NumberStands, At, Nesting;
    if ParseValue(c, i, room) == Ok(Parsed(x, i + |Spelling(x)|)) {
      ValueSound(c, i, room);
      if x.Num? {
        NumberTaken(c, i, room);
      }
    }
    if ReadAt(c, i, x, room) {
      if x.Num? {
        NumberIsLexeme(x);
        NumSpelling(x);
        NumberRead(c, i, room, x.raw);
      } else {
        ValueComplete(c, i, room, x);
      }
    }
  }

  lemma HeadRead(c: Bytes, i: nat, h: Head)
    requires Terminated(c) && i < |c|
    ensures HeadAt(c, i, h) <==> ParseHead(c, i) == Ok(Parsed(h, i + |SpellHead(h)|))
  {
    hide ParseHead, SpellHead, WellFormedHead, At;
    if ParseHead(c, i) == Ok(Parsed(h, i + |SpellHead(h)|)) {
      HeadSound(c, i);
      HeadEnd(c, i);
    }
    if HeadAt(c, i, h) {
      HeadComplete(c, i, h);
    }
  }

  lemma HeadEnd(c: Bytes, i: nat)
    requires Terminated(c) && i < |c| && ParseHead(c, i).Ok?
    ensures var e := ParseHead(c, i).value.end; c[e] > 32 || e == |c| - 1
  {
    hide ParseString;
  }

  // ---------- strings ----------

  lemma {:induction false} UnescapeFails(s: Bytes, k: nat, p: nat)
    ensures Unescape(s, k) == Err(p) <==> TurnsTo(s, k, p) && p < |s| && DecodeTurn(s, p).None?
    decreases if k <= |s| then |s| - k else 0
  {
    hide DecodeTurn;
    if k < |s| && DecodeTurn(s, k).Some? {
      UnescapeFails(s, k + DecodeTurn(s, k).value.length, p);
    }
  }

  /** The literal between a quote at i and the one that closes it, if there is one. */
  lemma TheLiteral(c: Bytes, i: nat, raw: Bytes)
    requires Terminated(c) && i < |c|
    ensures At(c, i, Quoted(raw)) && RawSpan(raw, 0, |raw|) <==>
            c[i] == 34 && ScanString(c, i + 1) == Some(i + 1 + |raw|) && c[i + 1..i + 1 + |raw|] == raw
  {
    hide ScanString, RawSpan, At, Terminated;
    AtConcat(c, i, [QUOTE] + raw, [QUOTE]);
    AtConcat(c, i, [QUOTE], raw);
    AtByte(c, i, QUOTE);
    var e := i + 1 + |raw|;
    AtByte(c, e, QUOTE);
    if At(c, i, Quoted(raw)) && RawSpan(raw, 0, |raw|) {
      SpanOfSlice(c, i + 1, raw, 0);
      ScanFinds(c, i + 1, e);
      PartOf(c, i + 1, raw);
    }
    if c[i] == 34 && ScanString(c, i + 1) == Some(e) && c[i + 1..e] == raw {
      AtPart(c, i + 1, e);
      SpanOfSlice(c, i + 1, raw, 0);
    }
  }

  lemma StringFault(c: Bytes, i: nat) returns (s: BadString)
    requires Terminated(c) && i < |c| && ParseString(c, i).Err?
    ensures StringBreaks(c, i, s) && ParseString(c, i) == Err(i + |TakenString(s)|)
  {
    hide ScanString, Unescape, RawSpan, At;
    if c[i] != 34 {
      s := NoQuote(c[i]);
    } else if ScanString(c, i + 1).None? {
      s := NoEnd;
      forall raw | RawSpan(raw, 0, |raw|) ensures !At(c, i, Quoted(raw)) {
        TheLiteral(c, i, raw);
      }
    } else {
      var raw := c[i + 1..ScanString(c, i + 1).value];
      s := BadEscape(raw, Unescape(raw, 0).at);
      TheLiteral(c, i, raw);
      UnescapeFails(raw, 0, s.good);
    }
  }

  lemma StringFails(c: Bytes, i: nat, s: BadString)
    requires Terminated(c) && i < |c| && StringBreaks(c, i, s)
    ensures ParseString(c, i) == Err(i + |TakenString(s)|)
  {
    hide ScanString, Unescape, RawSpan, At;
    if s.NoEnd? && ScanString(c, i + 1).Some? {
      var raw := c[i + 1..ScanString(c, i + 1).value];
      TheLiteral(c, i, raw);
    }
    if s.BadEscape? {
      TheLiteral(c, i, s.raw);
      UnescapeFails(s.raw, 0, s.good);
    }
  }

  // ---------- values ----------

  /** strtod takes something exactly when a digit comes first, or behind a minus and perhaps a point. */
  lemma NumberStarts(c: Bytes, i: nat)
    requires Terminated(c) && i < |c| && (c[i] == MINUS || IsDigit(c[i]))
    ensures ParseNumber(c, i).Err? <==>
            !(IsDigit(c[i])
              || (i + 1 < |c| && (IsDigit(c[i + 1]) || (c[i + 1] == 46 && i + 2 < |c| && IsDigit(c[i + 2])))))
    ensures ParseNumber(c, i).Err? ==> ParseNumber(c, i) == Err(i)
  {
    hide DigitsEnd, WindowLength;
    var n := WindowLength(c, i, WINDOW);
    var w := c[i..i + n];
    assert n > 0 && w[0] == c[i];
    assert n > 1 ==> w[1] == c[i + 1];
    assert n > 2 ==> w[2] == c[i + 2];
    assert n <= 1 && i + 1 < |c| ==> !IsNumberByte(c[i + 1]);
    assert n <= 2 && i + 2 < |c| && n > 1 ==> !IsNumberByte(c[i + 2]);
  }

  /** The branches of parse_value that can fail. */
  lemma ValueFailing(c: Bytes, i: nat, room: nat)
    requires Terminated(c) && i < |c|
    ensures !Starts(c, i) ==> ParseValue(c, i, room) == Err(i)
    ensures c[i] == 34 ==> ParseValue(c, i, room).Err? == ParseString(c, i).Err?
    ensures c[i] == 91 ==> ParseValue(c, i, room).Err? == ParseArray(c, i, room).Err?
    ensures c[i] == 123 ==> ParseValue(c, i, room).Err? == ParseObject(c, i, room).Err?
    ensures c[i] == 34 && ParseString(c, i).Err? ==> ParseValue(c, i, room) == Err(ParseString(c, i).at)
    ensures c[i] == 91 && ParseArray(c, i, room).Err? ==> ParseValue(c, i, room) == Err(ParseArray(c, i, room).at)
    ensures c[i] == 123 && ParseObject(c, i, room).Err? ==> ParseValue(c, i, room) == Err(ParseObject(c, i, room).at)
    ensures Starts(c, i) && c[i] != 34 && c[i] != 91 && c[i] != 123 ==> ParseValue(c, i, room).Ok?
  {
    hide ParseString, ParseNumber, ParseArray, ParseObject, Terminated, At;
    NoWordAt(c, i);
    if c[i] == MINUS || IsDigit(c[i]) {
      NumberStarts(c, i);
    }
  }

  lemma ArrayFailing(c: Bytes, i: nat, room: nat)
    requires Terminated(c) && i + 1 < |c| && c[i] == 91
    ensures room == 0 ==> ParseArray(c, i, room) == Err(i)
    ensures room > 0 && c[SkipGap(c, i + 1)] == 93 ==> ParseArray(c, i, room).Ok?
    ensures room > 0 && c[SkipGap(c, i + 1)] != 93 ==> ParseArray(c, i, room) == ParseElems(c, i + 1, room - 1)
  {
    hide ParseElems, SkipGap, Terminated;
  }

  lemma ObjectFailing(c: Bytes, i: nat, room: nat)
    requires Terminated(c) && i + 1 < |c| && c[i] == 123
    ensures room == 0 ==> ParseObject(c, i, room) == Err(i)
    ensures room > 0 && c[SkipGap(c, i + 1)] == 125 ==> ParseObject(c, i, room).Ok?
    ensures room > 0 && c[SkipGap(c, i + 1)] != 125 ==> ParseObject(c, i, room) == ParseFields(c, i + 1, room - 1)
  {
    hide ParseFields, SkipGap, Terminated;
  }

  /** One turn of the loop over elements, as far as it can fail. */
  lemma ElemsFailing(c: Bytes, i: nat, room: nat)
    requires Terminated(c) && i < |c|
    ensures var v := ParseValue(c, SkipGap(c, i), room);
            if v.Err? then ParseElems(c, i, room) == Err(v.at)
            else
              var k := SkipGap(c, v.value.end);
              if c[k] == 44 then
                k + 1 < |c| && (ParseElems(c, k + 1, room).Err? <==> ParseElems(c, i, room).Err?)
                && (ParseElems(c, k + 1, room).Err? ==> ParseElems(c, i, room) == ParseElems(c, k + 1, room))
              else if c[k] == 93 then ParseElems(c, i, room).Ok?
              else ParseElems(c, i, room) == Err(k)
  {
    hide ParseValue, SkipGap;
    var v := ParseValue(c, SkipGap(c, i), room);
    if v.Ok? {
      NotLast(c, SkipGap(c, v.value.end));
    }
  }

  lemma HeadFailing(c: Bytes, i: nat)
    requires Terminated(c) && i < |c|
    ensures var s := ParseString(c, SkipGap(c, i));
            if s.Err? then ParseHead(c, i) == Err(s.at)
            else
              var m := SkipGap(c, s.value.end);
              if c[m] != 58 then ParseHead(c, i) == Err(m) else ParseHead(c, i).Ok?
  {
    hide ParseString, SkipGap;
    var s := ParseString(c, SkipGap(c, i));
    if s.Ok? {
      NotLast(c, SkipGap(c, s.value.end));
    }
  }

  /** One turn of the loop over members, as far as it can fail. */
  lemma FieldsFailing(c: Bytes, i: nat, room: nat)
    requires Terminated(c) && i < |c|
    ensures var h := ParseHead(c, i);
            if h.Err? then ParseFields(c, i, room) == Err(h.at)
            else
              var v := ParseValue(c, h.value.end, room);
              if v.Err? then ParseFields(c, i, room) == Err(v.at)
              else
                var k := SkipGap(c, v.value.end);
                if c[k] == 44 then
                  k + 1 < |c| && (ParseFields(c, k + 1, room).Err? <==> ParseFields(c, i, room).Err?)
                  && (ParseFields(c, k + 1, room).Err? ==> ParseFields(c, i, room) == ParseFields(c, k + 1, room))
                else if c[k] == 125 then ParseFields(c, i, room).Ok?
                else ParseFields(c, i, room) == Err(k)
  {
    hide ParseHead, ParseValue, SkipGap;
    var h := ParseHead(c, i);
    if h.Ok? {
      var v := ParseValue(c, h.value.end, room);
      if v.Ok? {
        NotLast(c, SkipGap(c, v.value.end));
      }
    }
  }

  // ---------- every rejection is a fault ----------

  lemma {:induction false} ValueFault(c: Bytes, i: nat, room: nat) returns (b: BadValue)
    requires Terminated(c) && i < |c| && ParseValue(c, i, room).Err?
    ensures ValueBreaks(c, i, b, room) && ParseValue(c, i, room) == Err(i + |TakenValue(b)|)
    decreases |c| - i, 1
  {
    hide ParseValue, ParseString, ParseArray, ParseObject, ParseElems, ParseFields, Starts, GapAt, SkipGap,
      ElemsBreak, FieldsBreak, StringBreaks, TakenString, TakenElems, TakenFields, Terminated;
    ValueFailing(c, i, room);
    NotLast(c, i);
    if c[i] == 34 {
      var s := StringFault(c, i);
      b := InString(s);
    } else if c[i] == 91 {
      ArrayFailing(c, i, room);
      if room == 0 {
        b := TooDeep;
      } else {
        var g := TheGap(c, i + 1);
        var es := ElemsFault(c, i + 1, room - 1);
        b := InArray(es);
      }
    } else if c[i] == 123 {
      ObjectFailing(c, i, room);
      if room == 0 {
        b := TooDeep;
      } else {
        var g := TheGap(c, i + 1);
        var fs := FieldsFault(c, i + 1, room - 1);
        b := InObject(fs);
      }
    } else {
      b := NoValue;
    }
  }

  /** A value that is read, as the turns of the loops see it. */
  lemma TheValue(c: Bytes, i: nat, room: nat)
    requires Terminated(c) && i < |c| && ParseValue(c, i, room).Ok?
    ensures var p := ParseValue(c, i, room).value; ReadAt(c, i, p.x, room) && p.end == i + |Spelling(p.x)|
  {
    hide ParseValue, ReadAt, WellFormed, At, Spelling, Nesting;
    ValueSound(c, i, room);
    ValueRead(c, i, ParseValue(c, i, room).value.x, room);
  }

  lemma {:induction false} ElemsFault(c: Bytes, i: nat, room: nat) returns (es: BadElems)
    requires Terminated(c) && i < |c| && ParseElems(c, i, room).Err?
    ensures ElemsBreak(c, i, es, room) && ParseElems(c, i, room) == Err(i + |TakenElems(es)|)
    decreases |c| - i, 2
  {
    hide ParseValue, ParseElems, GapAt, ReadAt, SkipGap, ValueBreaks, TakenValue, Spelling, Terminated;
    ElemsFailing(c, i, room);
    var pre := TheGap(c, i);
    var j := i + |pre|;
    if ParseValue(c, j, room).Err? {
      var b := ValueFault(c, j, room);
      es := BadElem(pre, b);
    } else {
      TheValue(c, j, room);
      var x := ParseValue(c, j, room).value.x;
      var post := TheGap(c, j + |Spelling(x)|);
      var k := j + |Spelling(x)| + |post|;
      if c[k] == 44 {
        var rest := ElemsFault(c, k + 1, room);
        es := LaterElem(pre, x, post, rest);
      } else {
        es := NoSeparator(pre, x, post);
      }
    }
  }

  /** A name that is read. */
  lemma TheHead(c: Bytes, i: nat)
    requires Terminated(c) && i < |c| && ParseHead(c, i).Ok?
    ensures var p := ParseHead(c, i).value; HeadAt(c, i, p.x) && p.end == i + |SpellHead(p.x)|
  {
    hide ParseHead, HeadAt, SpellHead, WellFormedHead, At;
    HeadSound(c, i);
    HeadRead(c, i, ParseHead(c, i).value.x);
  }

  lemma HeadFault(c: Bytes, i: nat, room: nat) returns (fs: BadFields)
    requires Terminated(c) && i < |c| && ParseHead(c, i).Err?
    ensures FieldsBreak(c, i, fs, room) && ParseHead(c, i) == Err(i + |TakenFields(fs)|)
  {
    hide ParseHead, ParseString, GapAt, SkipGap, StringBreaks, TakenString, Terminated, IsRaw, At;
    HeadFailing(c, i);
    var pre := TheGap(c, i);
    var j := i + |pre|;
    if ParseString(c, j).Err? {
      var s := StringFault(c, j);
      fs := BadName(pre, s);
    } else {
      ParseStringSound(c, j);
      var key := ParseString(c, j).value.x;
      var mid := TheGap(c, j + |Quoted(key)|);
      fs := NoColon(pre, key, mid);
    }
  }

  lemma {:induction false} FieldsFault(c: Bytes, i: nat, room: nat) returns (fs: BadFields)
    requires Terminated(c) && i < |c| && ParseFields(c, i, room).Err?
    ensures FieldsBreak(c, i, fs, room) && ParseFields(c, i, room) == Err(i + |TakenFields(fs)|)
    decreases |c| - i, 2
  {
    hide ParseHead, ParseValue, ParseFields, GapAt, ReadAt, HeadAt, SkipGap, ValueBreaks, TakenValue, Spelling,
      SpellHead, Terminated;
    FieldsFailing(c, i, room);
    if ParseHead(c, i).Err? {
      fs := HeadFault(c, i, room);
    } else {
      TheHead(c, i);
      var h := ParseHead(c, i).value.x;
      var j := i + |SpellHead(h)|;
      if ParseValue(c, j, room).Err? {
        var b := ValueFault(c, j, room);
        fs := BadMember(h, b);
      } else {
        TheValue(c, j, room);
        var x := ParseValue(c, j, room).value.x;
        var post := TheGap(c, j + |Spelling(x)|);
        var k := j + |Spelling(x)| + |post|;
        if c[k] == 44 {
          var rest := FieldsFault(c, k + 1, room);
          fs := LaterField(h, x, post, rest);
        } else {
          fs := NoDivider(h, x, post);
        }
      }
    }
  }

  // ---------- every fault is a rejection ----------

  lemma {:induction false} ValueFails(c: Bytes, i: nat, b: BadValue, room: nat)
    requires Terminated(c) && ValueBreaks(c, i, b, room)
    ensures ParseValue(c, i, room) == Err(i + |TakenValue(b)|)
    decreases b
  {
    hide ParseValue, ParseString, ParseArray, ParseObject, ParseElems, ParseFields, Starts, GapAt, SkipGap,
      ElemsBreak, FieldsBreak, StringBreaks, TakenString, TakenElems, TakenFields, Terminated;
    ValueFailing(c, i, room);
    NotLast(c, i);
    match b {
      case NoValue =>
      case TooDeep =>
        if c[i] == 91 {
          ArrayFailing(c, i, room);
        } else {
          ObjectFailing(c, i, room);
        }
      case InString(s) => StringFails(c, i, s);
      case InArray(es) =>
        ArrayFailing(c, i, room);
        var g := TheGap(c, i + 1);
        ElemsFail(c, i + 1, es, room - 1);
      case InObject(fs) =>
        ObjectFailing(c, i, room);
        var g := TheGap(c, i + 1);
        FieldsFail(c, i + 1, fs, room - 1);
    }
  }

  lemma {:induction false} ElemsFail(c: Bytes, i: nat, es: BadElems, room: nat)
    requires Terminated(c) && i < |c| && ElemsBreak(c, i, es, room)
    ensures ParseElems(c, i, room) == Err(i + |TakenElems(es)|)
    decreases es
  {
    hide ParseValue, ParseElems, GapAt, ReadAt, SkipGap, ValueBreaks, TakenValue, Spelling, Terminated;
    ElemsFailing(c, i, room);
    GapRead(c, i, es.pre);
    var j := i + |es.pre|;
    if es.BadElem? {
      GapInside(c, i, es.pre);
      ValueFails(c, j, es.b, room);
    } else {
      ReadInside(c, j, es.x, room);
      ValueRead(c, j, es.x, room);
      GapRead(c, j + |Spelling(es.x)|, es.post);
      GapInside(c, j + |Spelling(es.x)|, es.post);
      if es.LaterElem? {
        NotLast(c, j + |Spelling(es.x)| + |es.post|);
        ElemsFail(c, j + |Spelling(es.x)| + |es.post| + 1, es.rest, room);
      }
    }
  }

  lemma GapInside(c: Bytes, i: nat, g: Bytes)
    requires GapAt(c, i, g)
    ensures i + |g| < |c|
  {
  }

  lemma ReadInside(c: Bytes, i: nat, x: Syntax, room: nat)
    requires ReadAt(c, i, x, room)
    ensures i + |Spelling(x)| < |c|
  {
  }

  lemma HeadInside(c: Bytes, i: nat, h: Head)
    requires HeadAt(c, i, h)
    ensures i + |SpellHead(h)| < |c|
  {
  }

  lemma HeadFails(c: Bytes, i: nat, fs: BadFields, room: nat)
    requires Terminated(c) && i < |c| && FieldsBreak(c, i, fs, room) && (fs.BadName? || fs.NoColon?)
    ensures ParseHead(c, i) == Err(i + |TakenFields(fs)|)
  {
    hide ParseHead, ParseString, GapAt, SkipGap, StringBreaks, TakenString, Terminated, IsRaw, At;
    HeadFailing(c, i);
    GapRead(c, i, fs.pre);
    GapInside(c, i, fs.pre);
    var j := i + |fs.pre|;
    if fs.BadName? {
      StringFails(c, j, fs.s);
    } else {
      ParseStringComplete(c, j, fs.key);
      GapRead(c, j + |Quoted(fs.key)|, fs.mid);
    }
  }

  lemma {:induction false} FieldsFail(c: Bytes, i: nat, fs: BadFields, room: nat)
    requires Terminated(c) && i < |c| && FieldsBreak(c, i, fs, room)
    ensures ParseFields(c, i, room) == Err(i + |TakenFields(fs)|)
    decreases fs
  {
    hide ParseHead, ParseValue, ParseFields, GapAt, ReadAt, HeadAt, SkipGap, ValueBreaks, TakenValue, Spelling,
      SpellHead, Terminated, StringBreaks, TakenString;
    FieldsFailing(c, i, room);
    if fs.BadName? || fs.NoColon? {
      HeadFails(c, i, fs, room);
    } else {
      HeadRead(c, i, fs.head);
      HeadInside(c, i, fs.head);
      var j := i + |SpellHead(fs.head)|;
      if fs.BadMember? {
        ValueFails(c, j, fs.b, room);
      } else {
        ReadInside(c, j, fs.x, room);
        ValueRead(c, j, fs.x, room);
        GapRead(c, j + |Spelling(fs.x)|, fs.post);
        GapInside(c, j + |Spelling(fs.x)|, fs.post);
        if fs.LaterField? {
          NotLast(c, j + |Spelling(fs.x)| + |fs.post|);
          FieldsFail(c, j + |Spelling(fs.x)| + |fs.post| + 1, fs.rest, room);
        }
      }
    }
  }

  // ---------- whole texts ----------

  /** A text that is rejected: its value breaks off, or something else than the NUL stands behind it. */
  datatype BadText =
    | BadStart(bom: bool, pre: Bytes, b: BadValue)
    | Trailing(bom: bool, pre: Bytes, x: Syntax, post: Bytes)

  function TakenText(t: BadText): Bytes {
    match t
    case BadStart(bom, pre, b) => (if bom then [0xEF, 0xBB, 0xBF] else []) + (pre + TakenValue(b))
    case Trailing(bom, pre, x, post) => (if bom then [0xEF, 0xBB, 0xBF] else []) + (pre + (Spelling(x) + post))
  }

  ghost predicate TextBreaks(c: Bytes, t: BadText, strict: bool) {
    var i := if t.bom then 3 else 0;
    && (t.bom <==> |c| >= 5 && c[0] == 0xEF && c[1] == 0xBB && c[2] == 0xBF)
    && i < |c| && GapAt(c, i, t.pre)
    && match t
       case BadStart(_, pre, b) => ValueBreaks(c, i + |pre|, b, 1000)
       case Trailing(_, pre, x, post) =>
         && strict && ReadAt(c, i + |pre|, x, 1000) && GapAt(c, i + |pre| + |Spelling(x)|, post)
         && c[i + |pre| + |Spelling(x)| + |post|] != 0
  }

  lemma BomIs(c: Bytes)
    ensures HasBom(c) <==> |c| >= 5 && c[0] == 0xEF && c[1] == 0xBB && c[2] == 0xBF
  {
    if |c| >= 5 {
      assert c[0..3] == [c[0], c[1], c[2]];
    }
  }

  lemma TextFault(c: Bytes, strict: bool) returns (t: BadText)
    requires Terminated(c) && ParseText(c, strict).Err?
    ensures TextBreaks(c, t, strict)
    ensures ParseText(c, strict) == Err(if |TakenText(t)| < |c| then |TakenText(t)| else |c| - 1)
  {
    hide ParseValue, GapAt, ReadAt, SkipGap, ValueBreaks, TakenValue, Spelling, HasBom, Terminated;
    BomIs(c);
    var bom := HasBom(c);
    var i := if bom then 3 else 0;
    var pre := TheGap(c, i);
    var j := i + |pre|;
    if ParseValue(c, j, NESTING_LIMIT).Err? {
      var b := ValueFault(c, j, NESTING_LIMIT);
      t := BadStart(bom, pre, b);
    } else {
      TheValue(c, j, NESTING_LIMIT);
      var x := ParseValue(c, j, NESTING_LIMIT).value.x;
      var post := TheGap(c, j + |Spelling(x)|);
      t := Trailing(bom, pre, x, post);
    }
  }

  lemma TextFails(c: Bytes, t: BadText, strict: bool)
    requires Terminated(c) && TextBreaks(c, t, strict)
    ensures ParseText(c, strict) == Err(if |TakenText(t)| < |c| then |TakenText(t)| else |c| - 1)
  {
    hide ParseValue, GapAt, ReadAt, SkipGap, ValueBreaks, TakenValue, Spelling, HasBom, Terminated;
    BomIs(c);
    var i := if t.bom then 3 else 0;
    GapRead(c, i, t.pre);
    GapInside(c, i, t.pre);
    var j := i + |t.pre|;
    if t.BadStart? {
      ValueFails(c, j, t.b, NESTING_LIMIT);
    } else {
      ReadInside(c, j, t.x, NESTING_LIMIT);
      ValueRead(c, j, t.x, NESTING_LIMIT);
      GapRead(c, j + |Spelling(t.x)|, t.post);
      GapInside(c, j + |Spelling(t.x)|, t.post);
    }
  }

  /** The text breaks off in some way, and p is the position behind what was taken in, or that of the final NUL. */
  ghost predicate FaultAt(c: Bytes, strict: bool, p: nat) {
    exists t :: TextBreaks(c, t, strict) && p == if |TakenText(t)| < |c| then |TakenText(t)| else |c| - 1
  }

  /**
   The parser rejects a text exactly when it breaks off in one of these ways, and the position that it reports is the
   one behind what was taken in.
   */
  lemma RejectedAt(c: Bytes, strict: bool, p: nat)
    requires Terminated(c)
    ensures ParseText(c, strict) == Err(p) <==> FaultAt(c, strict, p)
  {
    hide ParseText, TextBreaks, TakenText, Terminated;
    if ParseText(c, strict) == Err(p) {
      var t := TextFault(c, strict);
    }
    if FaultAt(c, strict, p) {
      var t :| TextBreaks(c, t, strict) && p == if |TakenText(t)| < |c| then |TakenText(t)| else |c| - 1;
      TextFails(c, t, strict);
    }
  }
}
