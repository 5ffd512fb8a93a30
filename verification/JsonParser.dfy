/** parse_number, parse_value, parse_array, parse_object and cJSON_ParseWithOpts on the heap. */
module JsonParser {
  import opened Text
  import opened StringCodec
  import opened Numbers
  import opened Values
  import opened Grammar
  import opened Nodes
  import opened StringParser

  // ---------- numbers ----------

  /** The conversion to int that parse_number stores beside the number: truncated, and saturated at the ends. */
  function Saturated(r: real): (n: int)
    ensures INT_MIN <= n <= INT_MAX
  {
    if r >= INT_MAX as real then INT_MAX
    else if r <= INT_MIN as real then INT_MIN
    else if r >= 0.0 then r.Floor
    else -(-r).Floor
  }

  /** It is the integer nearest to the number on the side of zero, as far as an int can hold it. */
  lemma SaturatedTruncates(r: real)
    ensures r >= 2147483647.0 ==> Saturated(r) == 2147483647
    ensures r <= -2147483648.0 ==> Saturated(r) == -2147483648
    ensures 0.0 <= r < 2147483647.0 ==> 0 <= Saturated(r) && Saturated(r) as real <= r < Saturated(r) as real + 1.0
    ensures -2147483648.0 < r <= 0.0 ==> Saturated(r) <= 0 && Saturated(r) as real - 1.0 < r <= Saturated(r) as real
  {
  }

  /** It keeps the order of numbers, and every int. */
  lemma SaturatedKeepsOrder(q: real, r: real, n: int)
    ensures q <= r ==> Saturated(q) <= Saturated(r)
    ensures INT_MIN <= n <= INT_MAX ==> Saturated(n as real) == n
  {
    SaturatedTruncates(q);
    SaturatedTruncates(r);
  }

  lemma WindowStep(c: Bytes, i: nat, n: nat)
    requires i <= |c|
    ensures WindowLength(c, i, n) == if n > 0 && i < |c|
            && IsNumberByte(c[i]) then 1 + WindowLength(c, i + 1, n - 1) else 0
  {
  }

  lemma SliceSnoc(c: Bytes, i: nat, j: nat)
    requires i <= j < |c|
    ensures c[i..j + 1] == c[i..j] + [c[j]]
  {
  }

  /** The first i bytes from the cursor on have been copied. */
  ghost predicate Collected(b: ParseBuffer, number: array<Byte>, i: nat)
    reads b, b.content, number
  {
    && b.Ready() && b.offset + i <= b.length && i <= WINDOW && number.Length == WINDOW + 1 && number != b.content
    && number[..i] == b.Text()[b.offset..b.offset + i]
  }

  lemma NothingCollected(b: ParseBuffer, number: array<Byte>)
    requires b.Ready() && b.offset < b.length && number.Length == WINDOW + 1 && number != b.content
    ensures Collected(b, number, 0)
  {
  }

  lemma CollectedText(b: ParseBuffer, number: array<Byte>, i: nat)
    requires Collected(b, number, i)
    ensures b.Ready() && b.offset + i <= b.length && i < number.Length
    ensures number[..i] == b.Text()[b.offset..b.offset + i] && b.offset + i <= |b.Text()|
  {
  }

  /** The loop of parse_number that copies the bytes strtod is to see. */
  method CollectNumber(b: ParseBuffer) returns (text: Bytes)
    requires b.Ready() && b.offset < b.length
    ensures text == b.Text()[b.offset..b.offset + WindowLength(b.Text(), b.offset, WINDOW)]
  {
    hide Terminated, WindowLength, IsNumberByte, Collected;
    var number := new Byte[WINDOW + 1];
    NothingCollected(b, number);
    ghost var c := b.Text();
    var i: nat := 0;
    var more := true;
    while more
      invariant i <= WINDOW && b.offset + i <= |c| && c == b.Text() && Collected(b, number, i)
      invariant WindowLength(c, b.offset, WINDOW) == i + if more then WindowLength(c, b.offset + i, WINDOW - i) else 0
      decreases WINDOW - i, more
    {
      WindowStep(c, b.offset + i, WINDOW - i);
      more := CollectOne(b, number, i);
      i := if more then i + 1 else i;
      CollectedText(b, number, i);
    }
    CollectedText(b, number, i);
    PutNul(number, i);
    text := number[..i];
  }

  /** The guard and the body of that loop. */
  method CollectOne(b: ParseBuffer, number: array<Byte>, i: nat) returns (more: bool)
    requires Collected(b, number, i)
    modifies number
    ensures b.Ready() && b.Text() == old(b.Text())
    ensures more <==> i < WINDOW && b.offset + i < b.length && IsNumberByte(b.Text()[b.offset + i])
    ensures Collected(b, number, if more then i + 1 else i)
  {
    hide Terminated, IsNumberByte;
    more := i < WINDOW && b.offset + i < b.length && IsNumberByte(b.content[b.offset + i]);
    if more {
      PutByte(number, i, b.content[b.offset + i]);
      SliceSnoc(b.Text(), b.offset, b.offset + i);
    }
  }

  /** The number and its integer form. */
  method StoreNumber(item: Node, number: real)
    modifies item`kind, item`valueint, item`valuedouble
    ensures item.kind == NumberKind && item.valuedouble == number && item.valueint == Saturated(number)
  {
    item.valuedouble := number;
    if number >= INT_MAX as real {
      item.valueint := INT_MAX;
    } else if number <= INT_MIN as real {
      item.valueint := INT_MIN;
    } else if number >= 0.0 {
      item.valueint := number.Floor;
    } else {
      item.valueint := -(-number).Floor;
    }
    item.kind := NumberKind;
  }

  /** parse_number; strtod is its span and the rounding of its exact value. */
  method ParseNumberInto(b: ParseBuffer, item: Node) returns (ok: bool)
    requires b.Ready() && b.offset < b.length && IsRounding(b.round)
    modifies b`offset, item`kind, item`valueint, item`valuedouble
    ensures b.Ready()
    ensures var r := ParseNumber(b.Text(), old(b.offset));
            && (ok <==> r.Ok?)
            && (ok ==> b.offset == r.value.end && item.kind == NumberKind && item.valuedouble == NumberValue(r.value.x)
                       && item.valueint == Saturated(item.valuedouble))
            && (!ok ==> r == Err(b.offset) && item.kind == old(item.kind) && item.valueint == old(item.valueint)
                        && item.valuedouble == old(item.valuedouble))
  {
    hide Terminated, StrtodLength, ExactValue, WindowLength, Saturated;
    var text := CollectNumber(b);
    var consumed := StrtodLength(text);
    if consumed == 0 {
      return false;
    }
    assert text[..consumed] == b.Text()[b.offset..b.offset + consumed];
    StoreNumber(item, b.round(ExactValue(text[..consumed])));
    b.offset := b.offset + consumed;
    ok := true;
  }

  // ---------- arrays ----------

  /** The outcome of a whole list, once `vs` has been read and `rest` is still to come. */
  ghost predicate ElemsPending(r0: Result<Parsed<Elems>>, vs: seq<Value>, rest: Result<Parsed<Elems>>) {
    match rest
    case Err(at) => r0 == Err(at)
    case Ok(p) => r0.Ok? && r0.value.end == p.end && ElemsMeaning(r0.value.x) == vs + ElemsMeaning(p.x)
  }

  /** The step back in front of the first element changes only where its gap is recorded. */
  lemma ElemsPendingStart(c: Bytes, i: nat, room: nat)
    requires Terminated(c) && i < |c|
    ensures ElemsPending(ParseElems(c, i, room), [], ParseElems(c, SkipGap(c, i), room))
  {
    hide Terminated, ParseValue, Meaning;
    var j := SkipGap(c, i);
    SkipGapTwice(c, i);
    var r := ParseElems(c, j, room);
    if r.Ok? {
      assert [] + ElemsMeaning(r.value.x) == ElemsMeaning(r.value.x);
    }
  }

  lemma SkipGapTwice(c: Bytes, i: nat)
    requires Terminated(c) && i < |c|
    ensures SkipGap(c, SkipGap(c, i)) == SkipGap(c, i)
  {
  }

  /** The same in front of the byte that follows an element. */
  ghost predicate ElemsAt(c: Bytes, k: nat, room: nat, r0: Result<Parsed<Elems>>, vs: seq<Value>)
    requires Terminated(c) && k < |c|
  {
    if c[k] == COMMA then k + 1 < |c| && ElemsPending(r0, vs, ParseElems(c, k + 1, room))
    else if c[k] == RBRACKET then r0.Ok? && r0.value.end == k + 1 && ElemsMeaning(r0.value.x) == vs
    else r0 == Err(k)
  }

  /** One turn of the loop of parse_array. */
  lemma ElemsPendingStep(c: Bytes, i: nat, room: nat, r0: Result<Parsed<Elems>>, vs: seq<Value>)
    requires Terminated(c) && i < |c| && ElemsPending(r0, vs, ParseElems(c, i, room))
    ensures match ParseValue(c, SkipGap(c, i), room)
            case Err(at) => r0 == Err(at)
            case Ok(p) => ElemsAt(c, SkipGap(c, p.end), room, r0, vs + [Meaning(p.x)])
  {
    hide Terminated, ParseValue, Meaning, SkipGap;
    var v := ParseValue(c, SkipGap(c, i), room);
    if v.Ok? {
      var k := SkipGap(c, v.value.end);
      if c[k] == COMMA {
        CommaInside(c, k);
        var rest := ParseElems(c, k + 1, room);
        if rest.Ok? {
          assert vs + ([Meaning(v.value.x)] + ElemsMeaning(rest.value.x))
                 == (vs + [Meaning(v.value.x)]) + ElemsMeaning(rest.value.x);
        }
      }
    }
  }

  // ---------- objects ----------

  /** One member: its name, the colon and its value. */
  ghost function ParseMember(c: Bytes, i: nat, room: nat): (r: Result<Parsed<Member>>)
    requires Terminated(c) && i < |c|
    ensures r.Ok? ==> i < r.value.end < |c|
  {
    var h := ParseHead(c, i);
    if h.Err? then Err(h.at)
    else
      var v := ParseValue(c, h.value.end, room);
      if v.Err? then Err(v.at) else Ok(Parsed(Member(LiteralText(h.value.x.key), Meaning(v.value.x)), v.value.end))
  }

  ghost predicate FieldsPending(r0: Result<Parsed<Fields>>, ms: seq<Member>, rest: Result<Parsed<Fields>>) {
    match rest
    case Err(at) => r0 == Err(at)
    case Ok(p) => r0.Ok? && r0.value.end == p.end && FieldsMeaning(r0.value.x) == ms + FieldsMeaning(p.x)
  }

  lemma FieldsPendingStart(c: Bytes, i: nat, room: nat)
    requires Terminated(c) && i < |c|
    ensures FieldsPending(ParseFields(c, i, room), [], ParseFields(c, SkipGap(c, i), room))
  {
    hide Terminated, ParseValue, Meaning, LiteralText, ParseHead, SkipGap;
    var j := SkipGap(c, i);
    HeadBehindGap(c, i);
    var r := ParseFields(c, j, room);
    if r.Ok? {
      assert [] + FieldsMeaning(r.value.x) == FieldsMeaning(r.value.x);
    }
  }

  lemma HeadBehindGap(c: Bytes, i: nat)
    requires Terminated(c) && i < |c|
    ensures var h := ParseHead(c, i);
            var g := ParseHead(c, SkipGap(c, i));
            match g
            case Err(at) => h == Err(at)
            case Ok(p) => h.Ok? && h.value.end == p.end && h.value.x.key == p.x.key
  {
    hide Terminated, ParseString, SkipGap;
    SkipGapTwice(c, i);
  }

  ghost predicate FieldsAt(c: Bytes, k: nat, room: nat, r0: Result<Parsed<Fields>>, ms: seq<Member>)
    requires Terminated(c) && k < |c|
  {
    if c[k] == COMMA then k + 1 < |c| && FieldsPending(r0, ms, ParseFields(c, k + 1, room))
    else if c[k] == RBRACE then r0.Ok? && r0.value.end == k + 1 && FieldsMeaning(r0.value.x) == ms
    else r0 == Err(k)
  }

  /** One turn of the loop of parse_object. */
  lemma FieldsPendingStep(c: Bytes, i: nat, room: nat, r0: Result<Parsed<Fields>>, ms: seq<Member>)
    requires Terminated(c) && i < |c| && FieldsPending(r0, ms, ParseFields(c, i, room))
    ensures match ParseMember(c, i, room)
            case Err(at) => r0 == Err(at)
            case Ok(p) => FieldsAt(c, SkipGap(c, p.end), room, r0, ms + [p.x])
  {
    hide Terminated, ParseHead, ParseValue, Meaning, LiteralText, SkipGap;
    var m := ParseMember(c, i, room);
    if m.Ok? {
      var k := SkipGap(c, m.value.end);
      if c[k] == COMMA {
        CommaInside(c, k);
        var rest := ParseFields(c, k + 1, room);
        if rest.Ok? {
          assert ms + ([m.value.x] + FieldsMeaning(rest.value.x)) == (ms + [m.value.x]) + FieldsMeaning(rest.value.x);
        }
      }
    }
  }

  lemma CommaInside(c: Bytes, k: nat)
    requires Terminated(c) && k < |c| && c[k] != NUL
    ensures k + 1 < |c|
  {
  }

  // ---------- the recursive descent ----------

  /** The levels of nesting that are still allowed. */
  ghost function Room(b: ParseBuffer): nat
    reads b`depth
  {
    if b.depth <= NESTING_LIMIT then NESTING_LIMIT - b.depth else 0
  }

  /** What every parsing method starts from. */
  ghost predicate Reading(b: ParseBuffer)
    reads b`offset, b`depth, b.content, b.hooks`live
  {
    b.Ready() && b.Apart() && b.offset < b.length && b.depth <= NESTING_LIMIT && IsRounding(b.round)
  }

  /** A new item as parse_value receives it. */
  ghost predicate Unfilled(item: Node)
    reads item`child, item`valuestring, item`name, item.name
  {
    item.child == null && item.valuestring == null && IsText(item.name)
  }

  /** The tree that a successful parse leaves behind an item. */
  ghost predicate Built(item: Node, t: Tree, v: Value)
    reads item`child, item`valuestring, item`name, item`kind, item`valuedouble, Rest(t)
  {
    t.node == item && t.name == item.name && Shaped(t) && Separate(t) && Means(t, v)
  }

  /** can_read and strncmp against a literal word. */
  predicate MatchesWord(b: ParseBuffer, word: Bytes)
    requires b.Ready() && b.offset < b.length
    reads b`offset, b.content
    ensures MatchesWord(b, word) <==> At(b.Text(), b.offset, word)
  {
    b.offset + |word| <= b.length && b.content[b.offset..b.offset + |word|] == word
  }

  /** The literal words of parse_value. */
  method ParseWordInto(b: ParseBuffer, item: Node) returns (word: Option<Value>)
    requires b.Ready() && b.offset < b.length
    modifies b`offset, item`kind, item`valueint
    ensures b.Ready()
    ensures word.None? ==> b.offset == old(b.offset) && item.kind == old(item.kind)
                           && !At(b.Text(), b.offset, NULL_WORD) && !At(b.Text(), b.offset, FALSE_WORD)
                              && !At(b.Text(), b.offset, TRUE_WORD)
    ensures item.valueint == if word == Some(True) then 1 else old(item.valueint)
    ensures word.Some? ==>
              && b.offset <= b.length
              && forall room: nat ::
                   var r := ParseValue(b.Text(), old(b.offset), room);
                   r.Ok? && b.offset == r.value.end && Meaning(r.value.x) == word.value
    ensures match word
            case None => true
            case Some(v) => (v.Null? && item.kind == NullKind) || (v.False? && item.kind == FalseKind)
                            || (v.True? && item.kind == TrueKind)
  {
    if MatchesWord(b, NULL_WORD) {
      item.kind := NullKind;
      b.offset := b.offset + 4;
      word := Some(Null);
    } else if MatchesWord(b, FALSE_WORD) {
      item.kind := FalseKind;
      b.offset := b.offset + 5;
      word := Some(False);
    } else if MatchesWord(b, TRUE_WORD) {
      item.kind := TrueKind;
      item.valueint := 1;
      b.offset := b.offset + 4;
      word := Some(True);
    } else {
      word := None;
    }
  }

  /** A finished list becomes the children of its item. */
  lemma ListIsBuilt(item: Node, t: Tree, h: Heap, base: set<object>)
    requires t == Tree(item, null, item.name, t.kids) && item.child == First(t.kids) && item.valuestring == null
    requires Growing(t.kids, h, base) && IsText(item.name) && item in base && (item.name != null ==> item.name in base)
    ensures Shaped(t) && Separate(t) && Inner(t) == FootAll(t.kids)
  {
    hide FootAll, Linked, ShapedAll, SeparateAll;
  }

  lemma ArrayIsBuilt(item: Node, t: Tree, h: Heap, base: set<object>, es: seq<Value>)
    requires t == Tree(item, null, item.name, t.kids) && item.child == First(t.kids) && item.valuestring == null
    requires Growing(t.kids, h, base) && IsText(item.name) && item in base && (item.name != null ==> item.name in base)
    requires item.kind == ArrayKind && MeanAll(t.kids, es)
    ensures Built(item, t, Array(es)) && Inner(t) == FootAll(t.kids)
  {
    hide FootAll, MeanAll, Shaped, Separate, Inner;
    ListIsBuilt(item, t, h, base);
  }

  lemma ObjectIsBuilt(item: Node, t: Tree, h: Heap, base: set<object>, ms: seq<Member>)
    requires t == Tree(item, null, item.name, t.kids) && item.child == First(t.kids) && item.valuestring == null
    requires Growing(t.kids, h, base) && IsText(item.name) && item in base && (item.name != null ==> item.name in base)
    requires item.kind == ObjectKind && NamedAll(t.kids, ms)
    ensures Built(item, t, Object(ms)) && Inner(t) == FootAll(t.kids)
  {
    hide FootAll, NamedAll, Shaped, Separate, Inner;
    ListIsBuilt(item, t, h, base);
  }

  /** Items without children. */
  lemma LeafIsBuilt(item: Node, t: Tree, v: Value)
    requires t == Tree(item, item.valuestring, item.name, []) && item.child == null && Means(t, v)
    requires (item.name != null ==> item.name != item.valuestring) && IsText(item.name) && IsText(item.valuestring)
    ensures Built(item, t, v) && Inner(t) == Opt(item.valuestring)
  {
    FootNone();
  }

  /**
   parse_value. It succeeds exactly when the text at the offset is a value within the nesting limit and every
   allocation is granted. Then the item denotes that value, the cursor stands behind it, the depth is as before, and
   the new blocks are exactly those of the item's tree. Otherwise everything allocated has been freed and the item is
   as before.
   */
  method ParseValueInto(b: ParseBuffer, item: Node) returns (ok: bool, ghost t: Tree)
    requires Reading(b) && Unfilled(item) && item in b.hooks.live && (item.name != null ==> item.name in b.hooks.live)
    modifies b`offset, b`depth, b.hooks`requests, b.hooks`live
    modifies item`kind, item`valuestring, item`valueint, item`valuedouble, item`child
    ensures b.Ready() && b.Apart() && b.offset <= b.length && b.hooks.requests >= old(b.hooks.requests)
    ensures ok <==> ParseValue(b.Text(), old(b.offset), old(Room(b))).Ok?
                    && b.hooks.Granted(old(b.hooks.requests), b.hooks.requests)
    ensures ok ==>
              var p := ParseValue(b.Text(), old(b.offset), old(Room(b))).value;
              && b.offset == p.end && b.depth == old(b.depth) && Built(item, t, Meaning(p.x))
              && fresh(Inner(t)) && b.hooks.live == old(b.hooks.live) + Inner(t)
    ensures !ok ==> Unfilled(item) && b.hooks.live == old(b.hooks.live)
    ensures !ok && b.hooks.Granted(old(b.hooks.requests), b.hooks.requests) ==>
              ParseValue(b.Text(), old(b.offset), old(Room(b))) == Err(b.offset)
    decreases b.length - b.offset, 4
  {
    hide Terminated, ParseString, ParseNumber, ParseArray, ParseObject, NumberValue, LiteralText, ElemsMeaning,
      FieldsMeaning, Built, Inner, At, Means;
    ghost var c := b.Text();
    t := Blank(item, item.name);
    var word := ParseWordInto(b, item);
    assert c[old(b.offset)] == b.content[old(b.offset)];
    if word.Some? {
      ok := true;
      WordMeans(item, t, word.value);
      LeafIsBuilt(item, t, word.value);
    } else if b.content[b.offset] == QUOTE {
      ok := ParseStringInto(b, item);
      t := Tree(item, item.valuestring, item.name, []);
      if ok {
        ghost var v := String(LiteralText(ParseString(c, old(b.offset)).value.x));
        StringMeans(item, t, v);
        LeafIsBuilt(item, t, v);
      }
    } else if b.content[b.offset] == MINUS || IsDigit(b.content[b.offset]) {
      ok := ParseNumberInto(b, item);
      if ok {
        ghost var v := Number(item.valuedouble);
        NumberMeans(item, t, v);
        LeafIsBuilt(item, t, v);
      }
    } else if b.content[b.offset] == LBRACKET {
      ok, t := ParseArrayInto(b, item);
    } else if b.content[b.offset] == LBRACE {
      ok, t := ParseObjectInto(b, item);
    } else {
      ok := false;
    }
  }

  lemma WordMeans(item: Node, t: Tree, v: Value)
    requires t.node == item && t.kids == []
    requires (v.Null? && item.kind == NullKind) || (v.False? && item.kind == FalseKind)
             || (v.True? && item.kind == TrueKind)
    ensures Means(t, v)
  {
  }

  lemma StringMeans(item: Node, t: Tree, v: Value)
    requires v.String? && t == Tree(item, item.valuestring, item.name, []) && item.kind == StringKind
             && Spells(item.valuestring, v.s)
    ensures Means(t, v)
  {
  }

  lemma NumberMeans(item: Node, t: Tree, v: Value)
    requires v.Number? && t.node == item && t.kids == [] && item.kind == NumberKind && item.valuedouble == v.n
    ensures Means(t, v)
  {
  }

  method ParseArrayInto(b: ParseBuffer, item: Node) returns (ok: bool, ghost t: Tree)
    requires Reading(b) && Unfilled(item) && item in b.hooks.live && (item.name != null ==> item.name in b.hooks.live)
    requires b.content[b.offset] == LBRACKET
    modifies b`offset, b`depth, b.hooks`requests, b.hooks`live
    modifies item`kind, item`child
    ensures b.Ready() && b.Apart() && b.offset <= b.length && b.hooks.requests >= old(b.hooks.requests)
    ensures ok <==> ParseArray(b.Text(), old(b.offset), old(Room(b))).Ok?
                    && b.hooks.Granted(old(b.hooks.requests), b.hooks.requests)
    ensures ok ==>
              var p := ParseArray(b.Text(), old(b.offset), old(Room(b))).value;
              && b.offset == p.end && b.depth == old(b.depth) && Built(item, t, Array(ElemsMeaning(p.x)))
              && fresh(Inner(t)) && b.hooks.live == old(b.hooks.live) + Inner(t)
    ensures !ok ==> Unfilled(item) && b.hooks.live == old(b.hooks.live)
    ensures !ok && b.hooks.Granted(old(b.hooks.requests), b.hooks.requests) ==>
              ParseArray(b.Text(), old(b.offset), old(Room(b))) == Err(b.offset)
    decreases b.length - b.offset, 3
  {
    hide Terminated, ParseArray, ParseElems, ElemsMeaning, Built, Inner, Growing, SkipGap, FootAll, MeanAll,
      ElemsPending;
    ghost var c := b.Text();
    ghost var i := b.offset;
    ghost var base := b.hooks.live;
    ghost var r0 := ParseArray(c, i, Room(b));
    assert c[i] == b.content[i];
    BracketInside(c, i);
    ArrayOpens(c, i, Room(b));
    t := Blank(item, item.name);
    if b.depth >= NESTING_LIMIT {
      return false, t;
    }
    b.depth := b.depth + 1;
    b.offset := b.offset + 1;
    SkipWhitespace(b);
    var head: Node? := null;
    ghost var ks: seq<Tree> := [];
    assert c[b.offset] == b.content[b.offset];
    if b.content[b.offset] == RBRACKET {
      GrowingNothing(b.hooks);
    } else {
      b.offset := b.offset - 1;
      ok, head, ks := ParseElements(b, r0);
      if !ok {
        return false, t;
      }
    }
    ok := true;
    GrowingParts(ks, b.hooks, base);
    t := CloseArray(b, item, head, ks, base, ElemsMeaning(r0.value.x));
  }

  lemma ArrayOpens(c: Bytes, i: nat, room: nat)
    requires Terminated(c) && i + 1 < |c| && c[i] == LBRACKET
    ensures var j := SkipGap(c, i + 1);
            var r := ParseArray(c, i, room);
            if room == 0 then r == Err(i)
            else if c[j] == RBRACKET then r.Ok? && r.value.end == j + 1 && MeanAll([], ElemsMeaning(r.value.x))
            else ElemsPending(r, [], ParseElems(c, j, room - 1))
  {
    hide Terminated, SkipGap, ParseElems;
    if room > 0 {
      ElemsPendingStart(c, i + 1, room - 1);
    }
  }

  /** The label success of parse_array. */
  method CloseArray(b: ParseBuffer, item: Node, head: Node?, ghost ks: seq<Tree>, ghost base: set<object>,
                    ghost es: seq<Value>)
    returns (ghost t: Tree)
    requires Growing(ks, b.hooks, base) && head == First(ks) && MeanAll(ks, es) && b.Apart() && b.depth > 0
    requires item.valuestring == null && IsText(item.name) && item in base && (item.name != null ==> item.name in base)
    modifies b`offset, b`depth, item`kind, item`child
    ensures b.offset == old(b.offset) + 1 && b.depth == old(b.depth) - 1
    ensures Built(item, t, Array(es)) && Inner(t) == FootAll(ks)
  {
    hide Growing, FootAll, MeanAll, Built, Inner;
    RestsInFoot(ks);
    GrowingParts(ks, b.hooks, base);
    b.depth := b.depth - 1;
    item.kind := ArrayKind;
    item.child := head;
    b.offset := b.offset + 1;
    t := Tree(item, null, item.name, ks);
    ArrayIsBuilt(item, t, b.hooks, base, es);
  }

  lemma NothingMeans(gap: Bytes)
    ensures MeanAll([], ElemsMeaning(NoElems(gap))) && NamedAll([], FieldsMeaning(NoFields(gap)))
  {
  }

  lemma BracketInside(c: Bytes, i: nat)
    requires Terminated(c) && i < |c| && c[i] != NUL
    ensures i + 1 < |c|
  {
  }

  /**
   The loop of parse_array, from the byte in front of the first element to the closing bracket. r0 is the outcome that
   the list as a whole must have.
   */
  method ParseElements(b: ParseBuffer, ghost r0: Result<Parsed<Elems>>) returns (ok: bool, head: Node?,
                       ghost ks: seq<Tree>)
    requires Reading(b) && b.offset + 1 < b.length
    requires ElemsPending(r0, [], ParseElems(b.Text(), b.offset + 1, Room(b)))
    modifies b`offset, b`depth, b.hooks`requests, b.hooks`live
    ensures b.Ready() && b.Apart() && b.offset <= b.length && b.hooks.requests >= old(b.hooks.requests)
    ensures ok <==> r0.Ok? && b.hooks.Granted(old(b.hooks.requests), b.hooks.requests)
    ensures ok ==> b.offset + 1 == r0.value.end && b.offset < b.length && b.depth == old(b.depth)
                   && Growing(ks, b.hooks, old(b.hooks.live)) && head == First(ks)
                      && MeanAll(ks, ElemsMeaning(r0.value.x))
                   && fresh(FootAll(ks))
    ensures !ok ==> b.hooks.live == old(b.hooks.live)
    ensures !ok && b.hooks.Granted(old(b.hooks.requests), b.hooks.requests) ==> r0 == Err(b.offset)
    decreases b.length - b.offset, 2
  {
    hide Terminated, ParseElems, ParseValue, Meaning, ElemsMeaning, Growing, SkipGap, FootAll, MeanAll, ElemsPending,
      NodesOf, Rests;
    ghost var c := b.Text();
    ghost var base := b.hooks.live;
    ghost var vs: seq<Value> := [];
    ghost var room := Room(b);
    head, ks := null, [];
    var current: Node? := null;
    GrowingNothing(b.hooks);
    NothingMeans([]);
    FootNone();
    var more := true;
    while more
      invariant Reading(b) && old(b.offset) <= b.offset && Room(b) == room && b.depth == old(b.depth)
      invariant b.hooks.requests >= old(b.hooks.requests) && b.hooks.Granted(old(b.hooks.requests), b.hooks.requests)
      invariant Growing(ks, b.hooks, base) && head == First(ks) && current == LastNode(ks) && MeanAll(ks, vs)
                && fresh(FootAll(ks))
      invariant if more then b.offset + 1 < b.length && ElemsPending(r0, vs, ParseElems(c, b.offset + 1, room))
                else c[b.offset] != COMMA && ElemsAt(c, b.offset, room, r0, vs)
      decreases b.length - b.offset, more
    {
      RestsInFoot(ks);
      GrowingParts(ks, b.hooks, base);
      ghost var before := ks;
      label Turn:
      ok, more, head, current, ks, vs := ParseElement(b, head, current, r0, ks, base, vs);
      if !ok {
        return false, null, [];
      }
      forall o | o in FootAll(ks) ensures fresh(o) {
        assert old(allocated(o)) ==> old@Turn(allocated(o));
        assert o in FootAll(before) || o in FootAll(ks) - FootAll(before);
      }
    }
    ElemsEnd(c, b.offset, room, r0, vs);
    assert c[b.offset] == b.content[b.offset];
    if b.content[b.offset] != RBRACKET {
      DeleteGrowing(b.hooks, head, ks, base);
      return false, null, [];
    }
    ok := true;
  }

  lemma ElemsEnd(c: Bytes, k: nat, room: nat, r0: Result<Parsed<Elems>>, vs: seq<Value>)
    requires Terminated(c) && k < |c| && c[k] != COMMA && ElemsAt(c, k, room, r0, vs)
    ensures if c[k] == RBRACKET then r0.Ok? && r0.value.end == k + 1 && ElemsMeaning(r0.value.x) == vs else r0 == Err(k)
  {
  }

  lemma ElemsMore(c: Bytes, k: nat, room: nat, r0: Result<Parsed<Elems>>, vs: seq<Value>)
    requires Terminated(c) && k < |c| && c[k] == COMMA && ElemsAt(c, k, room, r0, vs)
    ensures k + 1 < |c| && ElemsPending(r0, vs, ParseElems(c, k + 1, room))
  {
  }

  /**
   One turn of the loop of parse_array: a new item at the end of the list, its value and the gap behind it. When
   anything fails the whole list is freed.
   */
  method ParseElement(b: ParseBuffer, head: Node?, current: Node?, ghost r0: Result<Parsed<Elems>>,
                      ghost ks: seq<Tree>, ghost base: set<object>, ghost vs: seq<Value>)
    returns (ok: bool, more: bool, newHead: Node?, n: Node?, ghost all: seq<Tree>, ghost us: seq<Value>)
    requires Reading(b) && b.offset + 1 < b.length && Growing(ks, b.hooks, base) && head == First(ks)
             && current == LastNode(ks)
    requires MeanAll(ks, vs) && ElemsPending(r0, vs, ParseElems(b.Text(), b.offset + 1, Room(b)))
    modifies b`offset, b`depth, b.hooks`requests, b.hooks`live, NodesOf(ks)`next
    ensures b.Ready() && b.Apart() && b.offset <= b.length && b.hooks.requests >= old(b.hooks.requests)
    ensures ok ==> b.hooks.Granted(old(b.hooks.requests), b.hooks.requests)
                   && old(b.offset) < b.offset < b.length && b.depth == old(b.depth) && Growing(all, b.hooks, base)
                   && newHead == First(all) && n == LastNode(all) && MeanAll(all, us)
                      && fresh(FootAll(all) - FootAll(ks))
    ensures ok && more ==> b.offset + 1 < b.length
                              && ElemsPending(r0, us, ParseElems(b.Text(), b.offset + 1, old(Room(b))))
    ensures ok && !more ==> b.Text()[b.offset] != COMMA && ElemsAt(b.Text(), b.offset, old(Room(b)), r0, us)
    ensures !ok ==> b.hooks.live == base
                    && if b.hooks.Granted(old(b.hooks.requests), b.hooks.requests) then r0 == Err(b.offset) else true
    decreases b.length - b.offset, 1
  {
    hide Terminated, ParseElems, ParseValue, Meaning, ElemsPending, ElemsAt, Growing, SkipGap, FootAll, MeanAll,
      Linked, ShapedAll, SeparateAll,
      Shaped, Separate, Foot, Inner, Built, NodesOf, Rests;
    ghost var c := b.Text();
    ghost var room := Room(b);
    ghost var i := b.offset + 1;
    ok, more, n, newHead, all, us := false, false, null, head, [], [];
    RestsInFoot(ks);
    GrowingParts(ks, b.hooks, base);
    var item: Node?;
    item, newHead := NewLast(b.hooks, head, current, ks, base, vs, []);
    if item == null {
      return;
    }
    n := item;
    GrowingSplit(ks, Blank(n, null), b.hooks, base);
    BlankFoot(n, null);
    ElemsPendingStep(c, i, room, r0, vs);
    label L:
    ok, all := ParseLast(b, newHead, n, ks, base, vs);
    if !ok {
      return;
    }
    forall o | o in FootAll(all) - FootAll(ks) ensures fresh(o) {
      assert old(allocated(o)) ==> old@L(allocated(o));
      assert o == n || o in FootAll(all) - FootAll(ks) - {n};
    }
    us := vs + [Meaning(ParseValue(c, SkipGap(c, i), room).value.x)];
    GrowingParts(all, b.hooks, base);
    more := ElementEnd(b, room, r0, us);
  }

  /** The gap behind an element, and the guard of the loop. */
  method ElementEnd(b: ParseBuffer, ghost room: nat, ghost r0: Result<Parsed<Elems>>,
                    ghost us: seq<Value>) returns (more: bool)
    requires b.Ready() && b.offset < b.length && ElemsAt(b.Text(), SkipGap(b.Text(), b.offset), room, r0, us)
    modifies b`offset
    ensures old(b.offset) <= b.offset < b.length && ElemsAt(b.Text(), b.offset, room, r0, us)
    ensures more <==> b.Text()[b.offset] == COMMA
    ensures more ==> b.offset + 1 < b.length && ElemsPending(r0, us, ParseElems(b.Text(), b.offset + 1, room))
  {
    hide Terminated, ParseElems, ElemsPending, ElemsAt, SkipGap;
    SkipWhitespace(b);
    assert b.Text()[b.offset] == b.content[b.offset];
    more := b.content[b.offset] == COMMA;
    if more {
      ElemsMore(b.Text(), b.offset, room, r0, us);
    }
  }

  /** The value of the new item. */
  method ParseLast(b: ParseBuffer, head: Node?, n: Node, ghost ks: seq<Tree>, ghost base: set<object>,
                   ghost vs: seq<Value>)
    returns (ok: bool, ghost all: seq<Tree>)
    requires Reading(b) && b.offset + 1 < b.length && Growing(ks + [Blank(n, null)], b.hooks, base)
    requires head == First(ks + [Blank(n, null)]) && MeanAll(ks, vs) && Unfilled(n) && n.name == null
    modifies b`offset, b`depth, b.hooks`requests, b.hooks`live
    modifies n`kind, n`valuestring, n`valueint, n`valuedouble, n`child
    ensures b.Ready() && b.Apart() && b.offset <= b.length && b.hooks.requests >= old(b.hooks.requests)
    ensures var r := ParseValue(b.Text(), SkipGap(b.Text(), old(b.offset) + 1), old(Room(b)));
            && (ok <==> r.Ok? && b.hooks.Granted(old(b.hooks.requests), b.hooks.requests))
            && (ok ==> b.offset == r.value.end && b.depth == old(b.depth) && Growing(all, b.hooks, base)
                       && head == First(all) && n == LastNode(all)
                       && MeanAll(all, vs + [Meaning(r.value.x)]) && fresh(FootAll(all) - FootAll(ks) - {n}))
            && (!ok ==> b.hooks.live == base)
            && (!ok && b.hooks.Granted(old(b.hooks.requests), b.hooks.requests) ==> r == Err(b.offset))
    decreases b.length - b.offset, 0
  {
    hide Terminated, ParseValue, Meaning, Growing, SkipGap, FootAll, MeanAll, Linked, ShapedAll, SeparateAll, Shaped,
      Separate,
      Foot, Inner, Built, NodesOf, Rests;
    ghost var c := b.Text();
    ghost var u := ks + [Blank(n, null)];
    RestsInFoot(ks);
    GrowingParts(u, b.hooks, base);
    GrowingSplit(ks, Blank(n, null), b.hooks, base);
    BlankFoot(n, null);
    b.offset := b.offset + 1;
    SkipWhitespace(b);
    ghost var t;
    ok, t := ParseValueInto(b, n);
    if !ok {
      BlankIsShaped(n, null);
      GrowingJoin(ks, Blank(n, null), b.hooks, base);
      DeleteGrowing(b.hooks, head, u, base);
      all := [];
      return;
    }
    ghost var v := Meaning(ParseValue(c, SkipGap(c, old(b.offset) + 1), old(Room(b))).value.x);
    BuiltParts(n, t, v);
    FootOfInner(t);
    LinkedSame(u, ks + [t]);
    GrowingJoin(ks, t, b.hooks, base);
    MeanAppend(ks, t, vs, v);
    FootAppend(ks, t);
    all := ks + [t];
  }

  lemma BuiltParts(item: Node, t: Tree, v: Value)
    requires Built(item, t, v)
    ensures t.node == item && t.name == item.name && Shaped(t) && Separate(t) && Means(t, v)
  {
  }

  method ParseObjectInto(b: ParseBuffer, item: Node) returns (ok: bool, ghost t: Tree)
    requires Reading(b) && Unfilled(item) && item in b.hooks.live && (item.name != null ==> item.name in b.hooks.live)
    requires b.content[b.offset] == LBRACE
    modifies b`offset, b`depth, b.hooks`requests, b.hooks`live
    modifies item`kind, item`child
    ensures b.Ready() && b.Apart() && b.offset <= b.length && b.hooks.requests >= old(b.hooks.requests)
    ensures ok <==> ParseObject(b.Text(), old(b.offset), old(Room(b))).Ok?
                    && b.hooks.Granted(old(b.hooks.requests), b.hooks.requests)
    ensures ok ==>
              var p := ParseObject(b.Text(), old(b.offset), old(Room(b))).value;
              && b.offset == p.end && b.depth == old(b.depth) && Built(item, t, Object(FieldsMeaning(p.x)))
              && fresh(Inner(t)) && b.hooks.live == old(b.hooks.live) + Inner(t)
    ensures !ok ==> Unfilled(item) && b.hooks.live == old(b.hooks.live)
    ensures !ok && b.hooks.Granted(old(b.hooks.requests), b.hooks.requests) ==>
              ParseObject(b.Text(), old(b.offset), old(Room(b))) == Err(b.offset)
    decreases b.length - b.offset, 3
  {
    hide Terminated, ParseObject, ParseFields, FieldsMeaning, Built, Inner, Growing, SkipGap, FootAll, NamedAll,
      FieldsPending;
    ghost var c := b.Text();
    ghost var i := b.offset;
    ghost var base := b.hooks.live;
    ghost var r0 := ParseObject(c, i, Room(b));
    assert c[i] == b.content[i];
    BracketInside(c, i);
    ObjectOpens(c, i, Room(b));
    t := Blank(item, item.name);
    if b.depth >= NESTING_LIMIT {
      return false, t;
    }
    b.depth := b.depth + 1;
    b.offset := b.offset + 1;
    SkipWhitespace(b);
    var head: Node? := null;
    ghost var ks: seq<Tree> := [];
    assert c[b.offset] == b.content[b.offset];
    if b.content[b.offset] == RBRACE {
      GrowingNothing(b.hooks);
    } else {
      b.offset := b.offset - 1;
      ok, head, ks := ParseMembers(b, r0);
      if !ok {
        return false, t;
      }
    }
    ok := true;
    GrowingParts(ks, b.hooks, base);
    t := CloseObject(b, item, head, ks, base, FieldsMeaning(r0.value.x));
  }

  lemma ObjectOpens(c: Bytes, i: nat, room: nat)
    requires Terminated(c) && i + 1 < |c| && c[i] == LBRACE
    ensures var j := SkipGap(c, i + 1);
            var r := ParseObject(c, i, room);
            if room == 0 then r == Err(i)
            else if c[j] == RBRACE then r.Ok? && r.value.end == j + 1 && NamedAll([], FieldsMeaning(r.value.x))
            else FieldsPending(r, [], ParseFields(c, j, room - 1))
  {
    hide Terminated, SkipGap, ParseFields;
    if room > 0 {
      FieldsPendingStart(c, i + 1, room - 1);
    }
  }

  /** The label success of parse_object. */
  method CloseObject(b: ParseBuffer, item: Node, head: Node?, ghost ks: seq<Tree>, ghost base: set<object>,
                     ghost ms: seq<Member>)
    returns (ghost t: Tree)
    requires Growing(ks, b.hooks, base) && head == First(ks) && NamedAll(ks, ms) && b.Apart() && b.depth > 0
    requires item.valuestring == null && IsText(item.name) && item in base && (item.name != null ==> item.name in base)
    modifies b`offset, b`depth, item`kind, item`child
    ensures b.offset == old(b.offset) + 1 && b.depth == old(b.depth) - 1
    ensures Built(item, t, Object(ms)) && Inner(t) == FootAll(ks)
  {
    hide Growing, FootAll, NamedAll, Built, Inner;
    RestsInFoot(ks);
    GrowingParts(ks, b.hooks, base);
    b.depth := b.depth - 1;
    item.kind := ObjectKind;
    item.child := head;
    b.offset := b.offset + 1;
    t := Tree(item, null, item.name, ks);
    ObjectIsBuilt(item, t, b.hooks, base, ms);
  }

  /** The loop of parse_object. */
  method ParseMembers(b: ParseBuffer, ghost r0: Result<Parsed<Fields>>) returns (ok: bool, head: Node?,
                      ghost ks: seq<Tree>)
    requires Reading(b) && b.offset + 1 < b.length
    requires FieldsPending(r0, [], ParseFields(b.Text(), b.offset + 1, Room(b)))
    modifies b`offset, b`depth, b.hooks`requests, b.hooks`live
    ensures b.Ready() && b.Apart() && b.offset <= b.length && b.hooks.requests >= old(b.hooks.requests)
    ensures ok <==> r0.Ok? && b.hooks.Granted(old(b.hooks.requests), b.hooks.requests)
    ensures ok ==> b.offset + 1 == r0.value.end && b.offset < b.length && b.depth == old(b.depth)
                   && Growing(ks, b.hooks, old(b.hooks.live)) && head == First(ks)
                      && NamedAll(ks, FieldsMeaning(r0.value.x))
                   && fresh(FootAll(ks))
    ensures !ok ==> b.hooks.live == old(b.hooks.live)
    ensures !ok && b.hooks.Granted(old(b.hooks.requests), b.hooks.requests) ==> r0 == Err(b.offset)
    decreases b.length - b.offset, 2
  {
    hide Terminated, ParseFields, FieldsMeaning, Growing, SkipGap, FootAll, NamedAll, FieldsPending, FieldsAt,
      NodesOf, Rests;
    ghost var c := b.Text();
    ghost var base := b.hooks.live;
    ghost var ms: seq<Member> := [];
    ghost var room := Room(b);
    head, ks := null, [];
    var current: Node? := null;
    GrowingNothing(b.hooks);
    NothingMeans([]);
    FootNone();
    var more := true;
    while more
      invariant Reading(b) && old(b.offset) <= b.offset && Room(b) == room && b.depth == old(b.depth)
      invariant b.hooks.requests >= old(b.hooks.requests) && b.hooks.Granted(old(b.hooks.requests), b.hooks.requests)
      invariant Growing(ks, b.hooks, base) && head == First(ks) && current == LastNode(ks) && NamedAll(ks, ms)
                && fresh(FootAll(ks))
      invariant if more then b.offset + 1 < b.length && FieldsPending(r0, ms, ParseFields(c, b.offset + 1, room))
                else c[b.offset] != COMMA && FieldsAt(c, b.offset, room, r0, ms)
      decreases b.length - b.offset, more
    {
      RestsInFoot(ks);
      GrowingParts(ks, b.hooks, base);
      ghost var before := ks;
      label Turn:
      ok, more, head, current, ks, ms := ParseMemberTurn(b, head, current, r0, ks, base, ms);
      if !ok {
        return false, null, [];
      }
      forall o | o in FootAll(ks) ensures fresh(o) {
        assert old(allocated(o)) ==> old@Turn(allocated(o));
        assert o in FootAll(before) || o in FootAll(ks) - FootAll(before);
      }
    }
    FieldsEnd(c, b.offset, room, r0, ms);
    assert c[b.offset] == b.content[b.offset];
    if b.content[b.offset] != RBRACE {
      DeleteGrowing(b.hooks, head, ks, base);
      return false, null, [];
    }
    ok := true;
  }

  lemma FieldsEnd(c: Bytes, k: nat, room: nat, r0: Result<Parsed<Fields>>, ms: seq<Member>)
    requires Terminated(c) && k < |c| && c[k] != COMMA && FieldsAt(c, k, room, r0, ms)
    ensures if c[k] == RBRACE then r0.Ok? && r0.value.end == k + 1 && FieldsMeaning(r0.value.x) == ms else r0 == Err(k)
  {
  }

  lemma FieldsMore(c: Bytes, k: nat, room: nat, r0: Result<Parsed<Fields>>, ms: seq<Member>)
    requires Terminated(c) && k < |c| && c[k] == COMMA && FieldsAt(c, k, room, r0, ms)
    ensures k + 1 < |c| && FieldsPending(r0, ms, ParseFields(c, k + 1, room))
  {
  }

  /** One turn of the loop of parse_object. */
  method ParseMemberTurn(b: ParseBuffer, head: Node?, current: Node?, ghost r0: Result<Parsed<Fields>>,
                         ghost ks: seq<Tree>, ghost base: set<object>, ghost ms: seq<Member>)
    returns (ok: bool, more: bool, newHead: Node?, n: Node?, ghost all: seq<Tree>, ghost us: seq<Member>)
    requires Reading(b) && b.offset + 1 < b.length && Growing(ks, b.hooks, base) && head == First(ks)
             && current == LastNode(ks)
    requires NamedAll(ks, ms) && FieldsPending(r0, ms, ParseFields(b.Text(), b.offset + 1, Room(b)))
    modifies b`offset, b`depth, b.hooks`requests, b.hooks`live, NodesOf(ks)`next
    ensures b.Ready() && b.Apart() && b.offset <= b.length && b.hooks.requests >= old(b.hooks.requests)
    ensures ok ==> b.hooks.Granted(old(b.hooks.requests), b.hooks.requests)
                   && old(b.offset) < b.offset < b.length && b.depth == old(b.depth) && Growing(all, b.hooks, base)
                   && newHead == First(all) && n == LastNode(all) && NamedAll(all, us)
                      && fresh(FootAll(all) - FootAll(ks))
    ensures ok && more ==> b.offset + 1 < b.length
                              && FieldsPending(r0, us, ParseFields(b.Text(), b.offset + 1, old(Room(b))))
    ensures ok && !more ==> b.Text()[b.offset] != COMMA && FieldsAt(b.Text(), b.offset, old(Room(b)), r0, us)
    ensures !ok ==> b.hooks.live == base
                    && if b.hooks.Granted(old(b.hooks.requests), b.hooks.requests) then r0 == Err(b.offset) else true
    decreases b.length - b.offset, 1
  {
    hide Terminated, ParseFields, ParseMember, FieldsPending, FieldsAt, Growing, SkipGap, FootAll, NamedAll, Linked,
      ShapedAll, SeparateAll,
      Shaped, Separate, Foot, Inner, Built, NodesOf, Rests;
    ghost var c := b.Text();
    ghost var room := Room(b);
    ghost var i := b.offset + 1;
    ok, more, n, newHead, all, us := false, false, null, head, [], [];
    RestsInFoot(ks);
    GrowingParts(ks, b.hooks, base);
    var item: Node?;
    item, newHead := NewLast(b.hooks, head, current, ks, base, [], ms);
    if item == null {
      return;
    }
    n := item;
    GrowingSplit(ks, Blank(n, null), b.hooks, base);
    BlankFoot(n, null);
    FieldsPendingStep(c, i, room, r0, ms);
    label L:
    ok, all := ParseLastMember(b, newHead, n, ks, base, ms);
    if !ok {
      return;
    }
    forall o | o in FootAll(all) - FootAll(ks) ensures fresh(o) {
      assert old(allocated(o)) ==> old@L(allocated(o));
      assert o == n || o in FootAll(all) - FootAll(ks) - {n};
    }
    us := ms + [ParseMember(c, i, room).value.x];
    GrowingParts(all, b.hooks, base);
    more := MemberEnd(b, room, r0, us);
  }

  method MemberEnd(b: ParseBuffer, ghost room: nat, ghost r0: Result<Parsed<Fields>>,
                   ghost us: seq<Member>) returns (more: bool)
    requires b.Ready() && b.offset < b.length && FieldsAt(b.Text(), SkipGap(b.Text(), b.offset), room, r0, us)
    modifies b`offset
    ensures old(b.offset) <= b.offset < b.length && FieldsAt(b.Text(), b.offset, room, r0, us)
    ensures more <==> b.Text()[b.offset] == COMMA
    ensures more ==> b.offset + 1 < b.length && FieldsPending(r0, us, ParseFields(b.Text(), b.offset + 1, room))
  {
    hide Terminated, ParseFields, FieldsPending, FieldsAt, SkipGap;
    SkipWhitespace(b);
    assert b.Text()[b.offset] == b.content[b.offset];
    more := b.content[b.offset] == COMMA;
    if more {
      FieldsMore(b.Text(), b.offset, room, r0, us);
    }
  }

  /** The name and the value of the new item. */
  method ParseLastMember(b: ParseBuffer, head: Node?, n: Node, ghost ks: seq<Tree>, ghost base: set<object>,
                         ghost ms: seq<Member>)
    returns (ok: bool, ghost all: seq<Tree>)
    requires Reading(b) && b.offset + 1 < b.length && Growing(ks + [Blank(n, null)], b.hooks, base)
    requires head == First(ks + [Blank(n, null)]) && NamedAll(ks, ms) && Unfilled(n) && n.name == null
    modifies b`offset, b`depth, b.hooks`requests, b.hooks`live
    modifies n`kind, n`valuestring, n`valueint, n`valuedouble, n`child, n`name
    ensures b.Ready() && b.Apart() && b.offset <= b.length && b.hooks.requests >= old(b.hooks.requests)
    ensures var r := ParseMember(b.Text(), old(b.offset) + 1, old(Room(b)));
            && (ok <==> r.Ok? && b.hooks.Granted(old(b.hooks.requests), b.hooks.requests))
            && (ok ==> b.offset == r.value.end && b.depth == old(b.depth) && Growing(all, b.hooks, base)
                       && head == First(all) && n == LastNode(all)
                       && NamedAll(all, ms + [r.value.x]) && fresh(FootAll(all) - FootAll(ks) - {n}))
            && (!ok ==> b.hooks.live == base)
            && (!ok && b.hooks.Granted(old(b.hooks.requests), b.hooks.requests) ==> r == Err(b.offset))
    decreases b.length - b.offset, 0
  {
    hide Terminated, ParseHead, ParseValue, Meaning, Growing, SkipGap, FootAll, NamedAll, Linked, ShapedAll,
      SeparateAll, Shaped, Separate,
      Foot, Inner, Built, NodesOf, Rests, Spells, LiteralText;
    ghost var c := b.Text();
    ghost var i := b.offset + 1;
    ghost var u := ks + [Blank(n, null)];
    RestsInFoot(ks);
    GrowingParts(u, b.hooks, base);
    GrowingSplit(ks, Blank(n, null), b.hooks, base);
    BlankFoot(n, null);
    ok := ParseNameInto(b, n);
    ghost var t := Blank(n, n.name);
    BlankFoot(n, n.name);
    if ok {
      ok, t := ParseValueInto(b, n);
    }
    if !ok {
      t := Blank(n, n.name);
      BlankIsShaped(n, n.name);
      LinkedSame(u, ks + [t]);
      GrowingJoin(ks, t, b.hooks, base);
      DeleteGrowing(b.hooks, head, ks + [t], base);
      all := [];
      return;
    }
    ghost var m := ParseMember(c, i, old(Room(b))).value.x;
    BuiltParts(n, t, m.value);
    FootOfInner(t);
    LinkedSame(u, ks + [t]);
    GrowingJoin(ks, t, b.hooks, base);
    NamedAppend(ks, t, ms, m);
    FootAppend(ks, t);
    all := ks + [t];
  }

  /** The name with its colon; parse_string leaves it in valuestring, from where it is moved. */
  method ParseNameInto(b: ParseBuffer, n: Node) returns (ok: bool)
    requires Reading(b) && b.offset + 1 < b.length && Unfilled(n) && n.name == null
    modifies b`offset, b.hooks`requests, b.hooks`live, n`kind, n`valuestring, n`name
    ensures b.Ready() && b.Apart() && b.offset <= b.length && b.hooks.requests >= old(b.hooks.requests)
    ensures Unfilled(n) && b.hooks.live == old(b.hooks.live) + Opt(n.name) && fresh(Opt(n.name))
    ensures var r := ParseHead(b.Text(), old(b.offset) + 1);
            && (ok <==> r.Ok? && b.hooks.Granted(old(b.hooks.requests), b.hooks.requests))
            && (ok ==> b.offset == r.value.end && Spells(n.name, LiteralText(r.value.x.key)))
            && (!ok && b.hooks.Granted(old(b.hooks.requests), b.hooks.requests) ==> r == Err(b.offset))
  {
    hide Terminated, ParseString, SkipGap, Spells, LiteralText, IsText;
    ghost var c := b.Text();
    assert IsText(n.name);
    b.offset := b.offset + 1;
    SkipWhitespace(b);
    ok := ParseStringInto(b, n);
    if !ok {
      return;
    }
    SpellsIsText(n.valuestring, LiteralText(ParseString(c, SkipGap(c, old(b.offset) + 1)).value.x));
    SkipWhitespace(b);
    n.name := n.valuestring;
    n.valuestring := null;
    assert c[b.offset] == b.content[b.offset];
    if b.content[b.offset] != COLON {
      return false;
    }
    BracketInside(c, b.offset);
    b.offset := b.offset + 1;
    SkipWhitespace(b);
  }

  // ---------- whole texts ----------

  /** The root of a tree: an item without siblings and without a name. */
  ghost predicate Root(t: Tree)
    reads t.node`next, t.node`prev, t.node`child, t.node`valuestring, t.node`name, Rest(t)
  {
    t.node.next == null && t.node.prev == null && t.name == null && Shaped(t) && Separate(t)
  }

  /** What cJSON_Delete asks of its argument holds of every root. */
  lemma RootIsDeletable(t: Tree)
    requires Root(t)
    ensures t.node == First([t]) && Linked([t]) && ShapedAll([t]) && SeparateAll([t]) && FootAll([t]) == Foot(t)
  {
    hide Shaped, Separate, Foot, FootAll;
    FootOne(t);
    assert LinkedAt([t], 0);
  }

  method DeleteRoot(h: Heap, item: Node, ghost t: Tree)
    requires Root(t) && t.node == item && Foot(t) <= h.live && h !in h.live
    modifies h`live
    ensures h.live == old(h.live) - Foot(t)
  {
    hide Root, Foot;
    RootIsDeletable(t);
    Delete(h, item, [t]);
  }

  /** skip_utf8_bom */
  method SkipBom(b: ParseBuffer)
    requires b.Ready() && b.offset == 0
    modifies b`offset
    ensures b.offset == if HasBom(b.Text()) then 3 else 0
    ensures b.offset < b.length
  {
    if 4 < b.length && b.content[..3] == BOM {
      assert b.Text()[0..0 + 3] == b.content[..3];
      b.offset := b.offset + 3;
    } else if b.length >= 5 {
      assert b.Text()[0..0 + 3] == b.content[..3];
    }
  }

  /** The position that a failed parse reports: the last one in the text that is not behind the offset. */
  method ErrorPosition(b: ParseBuffer) returns (at: nat)
    requires b.length > 0
    ensures at < b.length && at <= b.offset && (at == b.offset || at + 1 == b.length)
  {
    at := 0;
    if b.offset < b.length {
      at := b.offset;
    } else if b.length > 0 {
      at := b.length - 1;
    }
  }

  /** The bytes the parser sees of a C string. */
  function Seen(value: array<Byte>): (c: Bytes)
    requires NUL in value[..]
    reads value
    ensures Terminated(c)
  {
    CStr(value[..]) + [NUL]
  }

  /**
   cJSON_ParseWithOpts. With every allocation granted it returns an item exactly for the accepted texts, and `end` is
   the parse end or the position of the error, which always lies within the text. The item is a root that denotes the
   value of the text; the live blocks are then those from before and those of its tree. After a failure of any kind
   the live blocks are those from before.
   */
  method ParseWithOpts(h: Heap, value: array?<Byte>, strict: bool, round: real -> real)
    returns (item: Node?, end: nat, ghost t: Option<Tree>)
    requires h !in h.live && (value != null ==> NUL in value[..]) && IsRounding(round)
    modifies h`requests, h`live
    ensures h.requests >= old(h.requests) && h !in h.live
    ensures item == null ==> h.live == old(h.live)
    ensures value == null ==> item == null && end == 0
    ensures value != null ==>
              var r := ParseText(Seen(value), strict);
              && (item != null <==> r.Ok? && h.Granted(old(h.requests), h.requests))
              && (item == null && h.Granted(old(h.requests), h.requests) ==> r == Err(end))
              && end <= |CStr(value[..])|
              && (item != null ==>
                    && t.Some? && t.value.node == item && Root(t.value) && Means(t.value, Meaning(r.value.x.x))
                    && end == r.value.end && fresh(Foot(t.value)) && h.live == old(h.live) + Foot(t.value))
  {
    hide Terminated, ParseText, Meaning, Means, Foot, Root;
    item, end, t := null, 0, None;
    if value == null {
      return;
    }
    var length := StrLen(value, 0);
    length := length + 1;
    ghost var c := Seen(value);
    assert value[0..] == value[..] && value[..length] == c;
    var root := h.NewItem();
    if root == null {
      return;
    }
    var b := new ParseBuffer(value, length, h, round);
    var ok;
    ghost var u;
    label Parsing:
    ok, u := ParseDocument(b, root, strict);
    FootOfRest(u);
    forall o | o in Foot(u) ensures fresh(o) {
      assert old(allocated(o)) ==> old@Parsing(allocated(o));
      assert o == root || o in Foot(u) - {root};
    }
    if !ok {
      end := ErrorPosition(b);
      DeleteRoot(h, root, u);
      return;
    }
    item, end, t := root, b.offset, Some(u);
  }

  /** Where the error position of a failed parse is cut off. */
  ghost function Clipped(at: nat, length: nat): nat
    requires length > 0
  {
    if at < length then at else length - 1
  }

  /** What is parsed into the new root item; whether that succeeds or not, the item can be deleted afterwards. */
  method ParseDocument(b: ParseBuffer, item: Node, strict: bool) returns (ok: bool, ghost t: Tree)
    requires b.Ready() && b.Apart() && IsRounding(b.round) && b.offset == b.depth == 0 && Unfilled(item)
             && item in b.hooks.live
    requires item.name == null && item.next == null && item.prev == null
    modifies b`offset, b`depth, b.hooks`requests, b.hooks`live
    modifies item`kind, item`valuestring, item`valueint, item`valuedouble, item`child
    ensures b.Ready() && b.Apart() && b.hooks.requests >= old(b.hooks.requests)
    ensures Root(t) && t.node == item && b.hooks.live == old(b.hooks.live) + Foot(t) && fresh(Foot(t) - {item})
    ensures var r := ParseText(b.Text(), strict);
            && (ok <==> r.Ok? && b.hooks.Granted(old(b.hooks.requests), b.hooks.requests))
            && (ok ==> b.offset == r.value.end && Means(t, Meaning(r.value.x.x)))
            && (!ok && b.hooks.Granted(old(b.hooks.requests), b.hooks.requests) ==>
               r == Err(Clipped(b.offset, b.length)))
  {
    hide Terminated, ParseValue, SkipGap, Meaning, Shaped, Separate, Means, Built, Inner, Foot, HasBom, Root;
    ghost var c := b.Text();
    SkipBom(b);
    SkipWhitespace(b);
    ok, t := ParseValueInto(b, item);
    if !ok {
      BlankFoot(item, null);
      BlankIsRoot(item);
      t := Blank(item, null);
      return;
    }
    BuiltIsRoot(item, t, Meaning(ParseText(c, false).value.x.x));
    FootOfInner(t);
    if strict {
      FootOfRest(t);
      SkipWhitespace(b);
      assert c[b.offset] == b.content[b.offset];
      if b.offset >= b.length || b.content[b.offset] != NUL {
        ok := false;
      }
    }
  }

  lemma BlankIsRoot(n: Node)
    requires Unfilled(n) && n.name == null && n.next == null && n.prev == null
    ensures Root(Blank(n, null))
  {
    BlankFoot(n, null);
    BlankIsShaped(n, null);
  }

  lemma BuiltIsRoot(n: Node, t: Tree, v: Value)
    requires Built(n, t, v) && n.name == null && n.next == null && n.prev == null
    ensures Root(t) && t.node == n && t.name == null && Means(t, v)
  {
  }
}
