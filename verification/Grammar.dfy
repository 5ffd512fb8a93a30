/**
 The language of the parser. `Syntax` is a text with its layout: every gap between tokens and every literal as it is
 spelled. The Parse functions state what the recursive descent of cjson.c computes on a NUL-terminated buffer,
 including the offset at which a failing parse stops.
 */
module Grammar {
  import opened Text
  import opened StringCodec
  import opened Numbers
  import opened Values

  const NULL_WORD: Bytes := [110, 117, 108, 108]
  const FALSE_WORD: Bytes := [102, 97, 108, 115, 101]
  const TRUE_WORD: Bytes := [116, 114, 117, 101]
  const BOM: Bytes := [0xEF, 0xBB, 0xBF]

  /** CJSON_NESTING_LIMIT */
  const NESTING_LIMIT: nat := 1000

  datatype Syntax =
    | NullWord
    | FalseWord
    | TrueWord
    | Num(raw: Bytes)
    | Str(raw: Bytes)
    | Arr(elems: Elems)
    | Obj(fields: Fields)

  /** The inside of brackets: a gap, or elements with the gaps around them. */
  datatype Elems =
    | NoElems(gap: Bytes)
    | LastElem(pre: Bytes, x: Syntax, post: Bytes)
    | Elem(pre: Bytes, x: Syntax, post: Bytes, rest: Elems)

  /** The name of a member with the gaps around it and around the colon. */
  datatype Head = Head(pre: Bytes, key: Bytes, mid: Bytes, mid2: Bytes)

  /** The inside of braces. */
  datatype Fields =
    | NoFields(gap: Bytes)
    | LastField(head: Head, x: Syntax, post: Bytes)
    | Field(head: Head, x: Syntax, post: Bytes, rest: Fields)

  datatype Document = Document(bom: bool, pre: Bytes, x: Syntax, post: Bytes)

  // ---------- spelling ----------

  function Quoted(raw: Bytes): Bytes {
    [QUOTE] + raw + [QUOTE]
  }

  function Spelling(x: Syntax): Bytes {
    match x
    case NullWord => NULL_WORD
    case FalseWord => FALSE_WORD
    case TrueWord => TRUE_WORD
    case Num(raw) => raw
    case Str(raw) => Quoted(raw)
    case Arr(es) => [LBRACKET] + SpellElems(es)
    case Obj(fs) => [LBRACE] + SpellFields(fs)
  }

  /** The elements up to and with the closing bracket. */
  function SpellElems(es: Elems): Bytes {
    match es
    case NoElems(gap) => gap + [RBRACKET]
    case LastElem(pre, x, post) => pre + (Spelling(x) + (post + [RBRACKET]))
    case Elem(pre, x, post, rest) => pre + (Spelling(x) + (post + ([COMMA] + SpellElems(rest))))
  }

  function SpellHead(h: Head): Bytes {
    h.pre + (Quoted(h.key) + (h.mid + ([COLON] + h.mid2)))
  }

  function SpellFields(fs: Fields): Bytes {
    match fs
    case NoFields(gap) => gap + [RBRACE]
    case LastField(h, x, post) => SpellHead(h) + (Spelling(x) + (post + [RBRACE]))
    case Field(h, x, post, rest) => SpellHead(h) + (Spelling(x) + (post + ([COMMA] + SpellFields(rest))))
  }

  function SpellDocument(d: Document): Bytes {
    (if d.bom then BOM else []) + (d.pre + (Spelling(d.x) + d.post))
  }

  // ---------- meaning ----------

  ghost function Meaning(x: Syntax): Value {
    match x
    case NullWord => Null
    case FalseWord => False
    case TrueWord => True
    case Num(raw) => Number(NumberValue(raw))
    case Str(raw) => String(LiteralText(raw))
    case Arr(es) => Array(ElemsMeaning(es))
    case Obj(fs) => Object(FieldsMeaning(fs))
  }

  /** The C string stored for a literal. */
  function LiteralText(raw: Bytes): Bytes {
    var u := Unescape(raw, 0);
    if u.Ok? then CStr(u.value) else []
  }

  ghost function ElemsMeaning(es: Elems): seq<Value> {
    match es
    case NoElems(_) => []
    case LastElem(_, x, _) => [Meaning(x)]
    case Elem(_, x, _, rest) => [Meaning(x)] + ElemsMeaning(rest)
  }

  ghost function FieldsMeaning(fs: Fields): seq<Member> {
    match fs
    case NoFields(_) => []
    case LastField(h, x, _) => [Member(LiteralText(h.key), Meaning(x))]
    case Field(h, x, _, rest) => [Member(LiteralText(h.key), Meaning(x))] + FieldsMeaning(rest)
  }

  // ---------- well-formed texts ----------

  ghost predicate WellFormed(x: Syntax) {
    match x
    case Num(raw) => IsLexeme(raw)
    case Str(raw) => IsRaw(raw)
    case Arr(es) => WellFormedElems(es)
    case Obj(fs) => WellFormedFields(fs)
    case _ => true
  }

  ghost predicate WellFormedElems(es: Elems) {
    match es
    case NoElems(gap) => IsGap(gap)
    case LastElem(pre, x, post) => IsGap(pre) && WellFormed(x) && IsGap(post)
    case Elem(pre, x, post, rest) => IsGap(pre) && WellFormed(x) && IsGap(post) && !rest.NoElems?
                                     && WellFormedElems(rest)
  }

  ghost predicate WellFormedHead(h: Head) {
    IsGap(h.pre) && IsRaw(h.key) && IsGap(h.mid) && IsGap(h.mid2)
  }

  ghost predicate WellFormedFields(fs: Fields) {
    match fs
    case NoFields(gap) => IsGap(gap)
    case LastField(h, x, post) => WellFormedHead(h) && WellFormed(x) && IsGap(post)
    case Field(h, x, post, rest) =>
      WellFormedHead(h) && WellFormed(x) && IsGap(post) && !rest.NoFields? && WellFormedFields(rest)
  }

  ghost predicate WellFormedDocument(d: Document) {
    IsGap(d.pre) && WellFormed(d.x) && IsGap(d.post)
  }

  function Nesting(x: Syntax): nat {
    match x
    case Arr(es) => 1 + ElemsNesting(es)
    case Obj(fs) => 1 + FieldsNesting(fs)
    case _ => 0
  }

  function ElemsNesting(es: Elems): nat {
    match es
    case NoElems(_) => 0
    case LastElem(_, x, _) => Nesting(x)
    case Elem(_, x, _, rest) => Max(Nesting(x), ElemsNesting(rest))
  }

  function FieldsNesting(fs: Fields): nat {
    match fs
    case NoFields(_) => 0
    case LastField(_, x, _) => Nesting(x)
    case Field(_, x, _, rest) => Max(Nesting(x), FieldsNesting(rest))
  }

  // ---------- parsing ----------

  datatype Parsed<+T> = Parsed(x: T, end: nat)

  /** buffer_skip_whitespace: over bytes up to 32, but never past the final NUL. */
  function SkipGap(c: Bytes, i: nat): (j: nat)
    requires Terminated(c) && i < |c|
    ensures i <= j < |c|
    ensures IsGap(c[i..j])
    ensures c[j] > 32 || j == |c| - 1
    decreases |c| - i
  {
    if i == |c| - 1 || c[i] > 32 then i
    else
      var j := SkipGap(c, i + 1);
      assert c[i..j] == [c[i]] + c[i + 1..j];
      j
  }

  /** parse_string at i: the raw literal and the index behind its closing quote. */
  function ParseString(c: Bytes, i: nat): (r: Result<Parsed<Bytes>>)
    requires Terminated(c) && i < |c|
    ensures r.Ok? ==> i < r.value.end < |c|
    ensures r.Err? ==> r.at <= |c|
  {
    if c[i] != QUOTE then Err(i + 1)
    else
      match ScanString(c, i + 1)
      case None => Err(i + 1)
      case Some(e) =>
        var u := Unescape(c[i + 1..e], 0);
        if u.Err? then UnescapeErr(c[i + 1..e], 0); Err(i + 1 + u.at) else Ok(Parsed(c[i + 1..e], e + 1))
  }

  function ParseNumber(c: Bytes, i: nat): (r: Result<Parsed<Bytes>>)
    requires Terminated(c) && i < |c|
    ensures r.Ok? ==> i < r.value.end < |c|
    ensures r.Err? ==> r.at <= |c|
  {
    var n := StrtodLength(c[i..i + WindowLength(c, i, WINDOW)]);
    if n == 0 then Err(i) else Ok(Parsed(c[i..i + n], i + n))
  }

  /** parse_value with `room` more levels of nesting left. */
  function ParseValue(c: Bytes, i: nat, room: nat): (r: Result<Parsed<Syntax>>)
    requires Terminated(c) && i < |c|
    ensures r.Ok? ==> i < r.value.end < |c|
    ensures r.Err? ==> r.at <= |c|
    decreases |c| - i, 1
  {
    if At(c, i, NULL_WORD) then AtIndex(c, i, NULL_WORD, 3); Ok(Parsed(NullWord, i + 4))
    else if At(c, i, FALSE_WORD) then AtIndex(c, i, FALSE_WORD, 4); Ok(Parsed(FalseWord, i + 5))
    else if At(c, i, TRUE_WORD) then AtIndex(c, i, TRUE_WORD, 3); Ok(Parsed(TrueWord, i + 4))
    else if c[i] == QUOTE then
      var r := ParseString(c, i);
      if r.Err? then Err(r.at) else Ok(Parsed(Str(r.value.x), r.value.end))
    else if c[i] == MINUS || IsDigit(c[i]) then
      var r := ParseNumber(c, i);
      if r.Err? then Err(r.at) else Ok(Parsed(Num(r.value.x), r.value.end))
    else if c[i] == LBRACKET then
      var r := ParseArray(c, i, room);
      if r.Err? then Err(r.at) else Ok(Parsed(Arr(r.value.x), r.value.end))
    else if c[i] == LBRACE then
      var r := ParseObject(c, i, room);
      if r.Err? then Err(r.at) else Ok(Parsed(Obj(r.value.x), r.value.end))
    else Err(i)
  }

  /** parse_array on an opening bracket. */
  function ParseArray(c: Bytes, i: nat, room: nat): (r: Result<Parsed<Elems>>)
    requires Terminated(c) && i < |c| && c[i] == LBRACKET
    ensures r.Ok? ==> i < r.value.end < |c|
    ensures r.Err? ==> r.at <= |c|
    decreases |c| - i, 0
  {
    if room == 0 then Err(i)
    else
      var j := SkipGap(c, i + 1);
      if c[j] == RBRACKET then Ok(Parsed(NoElems(c[i + 1..j]), j + 1))
      else ParseElems(c, i + 1, room - 1)
  }

  /** The loop of parse_array, from the byte behind a bracket or comma. */
  function ParseElems(c: Bytes, i: nat, room: nat): (r: Result<Parsed<Elems>>)
    requires Terminated(c) && i < |c|
    ensures r.Ok? ==> i < r.value.end < |c|
    ensures r.Err? ==> r.at <= |c|
    decreases |c| - i, 2
  {
    var j := SkipGap(c, i);
    var v := ParseValue(c, j, room);
    if v.Err? then Err(v.at)
    else
      var e := v.value.end;
      var k := SkipGap(c, e);
      if c[k] == COMMA then
        var rest := ParseElems(c, k + 1, room);
        if rest.Err? then rest
        else Ok(Parsed(Elem(c[i..j], v.value.x, c[e..k], rest.value.x), rest.value.end))
      else if c[k] == RBRACKET then Ok(Parsed(LastElem(c[i..j], v.value.x, c[e..k]), k + 1))
      else Err(k)
  }

  /** parse_object on an opening brace. */
  function ParseObject(c: Bytes, i: nat, room: nat): (r: Result<Parsed<Fields>>)
    requires Terminated(c) && i < |c| && c[i] == LBRACE
    ensures r.Ok? ==> i < r.value.end < |c|
    ensures r.Err? ==> r.at <= |c|
    decreases |c| - i, 0
  {
    if room == 0 then Err(i)
    else
      var j := SkipGap(c, i + 1);
      if c[j] == RBRACE then Ok(Parsed(NoFields(c[i + 1..j]), j + 1))
      else ParseFields(c, i + 1, room - 1)
  }

  /** The name of a member with its colon, up to the first byte of the value. */
  function ParseHead(c: Bytes, i: nat): (r: Result<Parsed<Head>>)
    requires Terminated(c) && i < |c|
    ensures r.Ok? ==> i < r.value.end < |c|
    ensures r.Err? ==> r.at <= |c|
  {
    var j := SkipGap(c, i);
    var s := ParseString(c, j);
    if s.Err? then Err(s.at)
    else
      var m := SkipGap(c, s.value.end);
      if c[m] != COLON then Err(m)
      else
        var n := SkipGap(c, m + 1);
        Ok(Parsed(Head(c[i..j], s.value.x, c[s.value.end..m], c[m + 1..n]), n))
  }

  /** The loop of parse_object, from the byte behind a brace or comma. */
  function ParseFields(c: Bytes, i: nat, room: nat): (r: Result<Parsed<Fields>>)
    requires Terminated(c) && i < |c|
    ensures r.Ok? ==> i < r.value.end < |c|
    ensures r.Err? ==> r.at <= |c|
    decreases |c| - i, 2
  {
    var h := ParseHead(c, i);
    if h.Err? then Err(h.at)
    else
      var v := ParseValue(c, h.value.end, room);
      if v.Err? then Err(v.at)
      else
        var k := SkipGap(c, v.value.end);
        var post := c[v.value.end..k];
        if c[k] == COMMA then
          var rest := ParseFields(c, k + 1, room);
          if rest.Err? then rest
          else Ok(Parsed(Field(h.value.x, v.value.x, post, rest.value.x), rest.value.end))
        else if c[k] == RBRACE then
          Ok(Parsed(LastField(h.value.x, v.value.x, post), k + 1))
        else Err(k)
  }

  /** skip_utf8_bom: only when a byte follows the mark. */
  predicate HasBom(c: Bytes) {
    |c| >= 5 && At(c, 0, BOM)
  }

  /** cJSON_ParseWithOpts: the document read and the parse end, or the reported error position. */
  function ParseText(c: Bytes, strict: bool): (r: Result<Parsed<Document>>)
    requires Terminated(c)
    ensures r.Ok? ==> 0 < r.value.end < |c|
    ensures r.Err? ==> r.at < |c|
  {
    var i := if HasBom(c) then 3 else 0;
    var j := SkipGap(c, i);
    var v := ParseValue(c, j, NESTING_LIMIT);
    if v.Err? then Err(if v.at < |c| then v.at else |c| - 1)
    else
      var e := v.value.end;
      if !strict then Ok(Parsed(Document(HasBom(c), c[i..j], v.value.x, []), e))
      else
        var k := SkipGap(c, e);
        if c[k] != NUL then Err(k) else Ok(Parsed(Document(HasBom(c), c[i..j], v.value.x, c[e..k]), k))
  }
}
