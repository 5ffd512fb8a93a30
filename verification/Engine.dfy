/** The printers, the parser, the copier and the comparison together, on the heap. */
module Engine {
  import opened Text
  import opened Numbers
  import opened Values
  import opened Grammar
  import opened Rendering
  import opened RoundTrip
  import opened Nodes
  import opened JsonParser
  import opened Printer
  import opened Copies
  import opened Comparison
  import opened ItemComparison

  /** What the strict parser sees in a printed block: it accepts values up to the nesting limit and reads them back. */
  lemma PrintedBlockParses(printed: array<Byte>, v: Value, format: bool)
    requires printed[..] == Render(v, format, 0) + [NUL] && IsJson(v) && Printable(v)
    ensures NUL in printed[..]
    ensures var r := ParseText(Seen(printed), true);
            && (r.Ok? <==> Depth(v) <= NESTING_LIMIT)
            && (r.Ok? ==> Meaning(r.value.x.x) == v && r.value.end == |Render(v, format, 0)|)
  {
    hide Render, ParseText, Meaning;
    PrintThenParse(v, format);
    var s := Render(v, format, 0);
    assert printed[..][|s|] == NUL && printed[..][..|s|] == s;
    assert 0 !in s by {
      assert forall k | 0 <= k < |s| :: (s + [NUL])[k] != 0;
    }
    CStrIs(printed[..], |s|);
  }

  /**
   A recursive copy denotes what the original denotes, and compares equal to it unless the value contradicts itself.
   */
  lemma CopyComparesEqual(t: Tree, u: Tree, v: Value, sensitive: bool)
    requires Alike(t, u) && Means(t, v)
    ensures Means(u, v)
    ensures Compare(v, v, sensitive) <==> Uniform(v, sensitive)
    ensures DistinctNames(v, sensitive) ==> Compare(v, v, sensitive)
  {
    AlikeMeans(t, u, v);
    CompareCopy(v, sensitive);
  }

  /**
   Printing an item, strictly parsing the text, comparing the result with the item and deleting it: this goes through
   exactly for values that fit the printer's limit and the parser's nesting limit, when memory is granted; the result
   compares equal exactly when the value does not contradict itself; and in every case the live blocks are those from
   before.
   */
  method PrintParseCompare(h: Heap, item: Node, format: bool, sensitive: bool, round: real -> real,
                  ghost t: Tree, ghost v: Value)
    returns (outcome: Option<bool>)
    requires h !in h.live && Operand(item, t, v, h) && IsJson(v) && Printable(v) && IsRounding(round)
    modifies h`requests, h`live
    ensures h.live == old(h.live) && h.requests >= old(h.requests)
    ensures outcome.Some? <==> |Render(v, format, 0)| + 2 <= INT_MAX && Depth(v) <= NESTING_LIMIT
                               && h.Granted(old(h.requests), h.requests)
    ensures outcome.Some? ==> (outcome.value <==> Uniform(v, sensitive))
  {
    hide Foot, Shaped, Separate, Means, Render, Printable, IsJson, ParseText, Meaning, Compare, Uniform, Root;
    FootOfRest(t);
    var text := Print(h, item, format, Some(t), v);
    if text == null {
      return None;
    }
    label Reading:
    outcome := ReadBack(h, item, text, format, sensitive, round, t, v);
    GrantedSplit(h, old(h.requests), old@Reading(h.requests), h.requests);
    h.Free(text);
  }

  /** The part behind the printing. */
  method ReadBack(h: Heap, item: Node, text: array<Byte>, format: bool, sensitive: bool, round: real -> real,
                  ghost t: Tree, ghost v: Value)
    returns (outcome: Option<bool>)
    requires h !in h.live && Operand(item, t, v, h) && IsJson(v) && Printable(v) && IsRounding(round)
    requires text[..] == Render(v, format, 0) + [NUL]
    modifies h`requests, h`live
    ensures h.live == old(h.live) && h.requests >= old(h.requests)
    ensures outcome.Some? <==> Depth(v) <= NESTING_LIMIT && h.Granted(old(h.requests), h.requests)
    ensures outcome.Some? ==> (outcome.value <==> Uniform(v, sensitive))
  {
    hide Foot, Shaped, Separate, Means, Render, Printable, IsJson, ParseText, Meaning, Compare, Uniform, Root;
    FootOfRest(t);
    PrintedBlockParses(text, v, format);
    var copy, end, u := ParseWithOpts(h, text, true, round);
    if copy == null {
      return None;
    }
    RootParts(u.value);
    CompareCopy(v, sensitive);
    var same := CompareItems(item, copy, sensitive, t, u.value, v, v, h);
    DeleteRoot(h, copy, u.value);
    outcome := Some(same);
  }

  lemma RootParts(t: Tree)
    requires Root(t)
    ensures Shaped(t) && Separate(t) && Foot(t) == {t.node} + Rest(t) && t.node in Foot(t)
  {
  }
}
