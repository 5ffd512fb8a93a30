/** cJSON_Duplicate and cJSON_strdup. */
module Copies {
  import opened Text
  import opened Values
  import opened Nodes
  import opened Lists

  // ---------- likeness of trees ----------

  /** Both missing, or the same C string. */
  ghost predicate SameText(a: array?<Byte>, b: array?<Byte>)
    reads a, b
  {
    if a == null then b == null else b != null && IsText(b) && CStr(a[..]) == CStr(b[..])
  }

  /** Two items agree in everything but their places in memory and what is below them. */
  ghost predicate AlikeItem(t: Tree, u: Tree)
    reads t.node`kind, t.node`valueint, t.node`valuedouble, u.node`kind, u.node`valueint, u.node`valuedouble
    reads t.text, t.name, u.text, u.name
  {
    && t.node.kind == u.node.kind && t.node.valueint == u.node.valueint && t.node.valuedouble == u.node.valuedouble
    && SameText(t.text, u.text) && SameText(t.name, u.name)
  }

  ghost predicate Alike(t: Tree, u: Tree)
    reads t.node`kind, t.node`valueint, t.node`valuedouble, u.node`kind, u.node`valueint, u.node`valuedouble,
          Rest(t), Rest(u)
    decreases t, 1
  {
    RestsInFoot(t.kids);
    RestsInFoot(u.kids);
    AlikeItem(t, u) && AlikeAll(t.kids, u.kids)
  }

  ghost predicate AlikeAll(ks: seq<Tree>, us: seq<Tree>)
    reads NodesOf(ks)`kind, NodesOf(ks)`valueint, NodesOf(ks)`valuedouble, Rests(ks)
    reads NodesOf(us)`kind, NodesOf(us)`valueint, NodesOf(us)`valuedouble, Rests(us)
    decreases ks, 0
  {
    |ks| == |us| && forall i | 0 <= i < |ks| :: Alike(ks[i], us[i])
  }

  /** Likeness carries the denotation over. */
  lemma {:induction false} AlikeMeans(t: Tree, u: Tree, v: Value)
    requires Alike(t, u) && Means(t, v)
    ensures Means(u, v)
    decreases t
  {
    hide SameText;
    if v.String? || v.Raw? {
      SameSpelling(t.text, u.text, v.s);
    } else if v.Array? {
      forall i | 0 <= i < |t.kids| ensures Means(u.kids[i], v.elems[i]) {
        AlikeMeans(t.kids[i], u.kids[i], v.elems[i]);
      }
    } else if v.Object? {
      forall i | 0 <= i < |t.kids| ensures KeyIs(u.kids[i], Some(v.members[i].key))
        && Means(u.kids[i], v.members[i].value) {
        assert KeyIs(t.kids[i], Some(v.members[i].key)) && Alike(t.kids[i], u.kids[i]);
        SameSpelling(t.kids[i].name, u.kids[i].name, v.members[i].key);
        AlikeMeans(t.kids[i], u.kids[i], v.members[i].value);
      }
    }
  }

  lemma SameSpelling(a: array?<Byte>, b: array?<Byte>, s: Bytes)
    requires SameText(a, b) && Spells(a, s)
    ensures Spells(b, s)
  {
    CStrIs(a[..], |s|);
    assert a[..][..|s|] == s;
    TextSpells(b);
  }

  /** A string block spells its own C string. */
  lemma TextSpells(a: array?<Byte>)
    requires a != null && IsText(a)
    ensures Spells(a, CStr(a[..]))
  {
    var w := a[..];
    var s := CStr(w);
    assert |s| == |w| ==> s == w;
  }

  // ---------- strings ----------

  /** cJSON_strdup on a string that is there. */
  method StrDup(h: Heap, text: array<Byte>) returns (copy: array?<Byte>)
    requires h !in h.live && IsText(text)
    modifies h`requests, h`live
    ensures h.requests == old(h.requests) + 1 && h !in h.live
    ensures copy != null <==> h.grants(old(h.requests))
    ensures copy == null ==> h.live == old(h.live)
    ensures copy != null ==> fresh(copy) && h.live == old(h.live) + {copy} && SameText(text, copy) && IsText(copy)
  {
    assert text[0..] == text[..];
    var n := StrLen(text, 0);
    copy := h.NewBytes(n + 1);
    if copy != null {
      CopyBytes(copy, 0, text, n + 1);
      assert copy[..] == text[..n + 1] && text[..n + 1][..n] == text[..n];
      CStrIs(copy[..], n);
      assert copy[..][n] == NUL;
    }
  }

  // ---------- items ----------

  /** The copy of a string that may be missing. */
  method DupText(h: Heap, text: array?<Byte>) returns (ok: bool, copy: array?<Byte>)
    requires h !in h.live && IsText(text)
    modifies h`requests, h`live
    ensures h.requests >= old(h.requests) && h !in h.live
    ensures ok <==> h.Granted(old(h.requests), h.requests)
    ensures h.live == old(h.live) + Opt(copy) && fresh(Opt(copy)) && IsText(copy)
    ensures ok ==> SameText(text, copy)
  {
    ok, copy := true, null;
    if text != null {
      copy := StrDup(h, text);
      ok := copy != null;
    }
  }

  /** The first part of cJSON_Duplicate: a new item with the same fields and copies of both strings. */
  method CopyItem(h: Heap, item: Node, ghost t: Tree) returns (ok: bool, n: Node?)
    requires h !in h.live && t.node == item && Shaped(t) && Foot(t) <= h.live
    modifies h`requests, h`live
    ensures h.requests >= old(h.requests) && h !in h.live
    ensures ok <==> h.Granted(old(h.requests), h.requests)
    ensures ok ==> n != null && AlikeItem(t, Tree(n, n.valuestring, n.name, []))
    ensures n == null ==> h.live == old(h.live)
    ensures n != null ==>
              var u := Tree(n, n.valuestring, n.name, []);
              n.child == null && Loose(u, h) && fresh(Foot(u)) && h.live == old(h.live) + Foot(u)
  {
    hide Loose, Foot, Shaped, IsText, SameText;
    ItemTexts(t);
    ok := false;
    n := h.NewItem();
    if n == null {
      return;
    }
    n.kind := item.kind;
    n.valueint := item.valueint;
    n.valuedouble := item.valuedouble;
    NoText();
    label L:
    ok := CopyTexts(h, item, n);
    GrantedSplit(h, old(h.requests), old@L(h.requests), h.requests);
    LeafIsLoose(n, h);
  }

  method CopyTexts(h: Heap, item: Node, n: Node) returns (ok: bool)
    requires h !in h.live && IsText(item.valuestring) && IsText(item.name) && n.valuestring == n.name == null
             && n != item
    modifies h`requests, h`live, n`valuestring, n`name
    ensures h.requests >= old(h.requests) && h !in h.live
    ensures ok <==> h.Granted(old(h.requests), h.requests)
    ensures IsText(n.valuestring) && IsText(n.name) && (n.valuestring != null ==> n.valuestring != n.name)
    ensures h.live == old(h.live) + Opt(n.valuestring) + Opt(n.name) && fresh(Opt(n.valuestring)) && fresh(Opt(n.name))
    ensures ok ==> SameText(item.valuestring, n.valuestring) && SameText(item.name, n.name)
  {
    hide IsText, SameText;
    NoText();
    var text, name;
    ok, text := DupText(h, item.valuestring);
    n.valuestring := text;
    if ok {
      label M:
      ok, name := DupText(h, item.name);
      n.name := name;
      GrantedSplit(h, old(h.requests), old@M(h.requests), h.requests);
    }
  }

  lemma NoText()
    ensures IsText(null)
  {
  }

  lemma ItemTexts(t: Tree)
    requires Shaped(t)
    ensures t.node.valuestring == t.text && t.node.name == t.name && IsText(t.text) && IsText(t.name)
    ensures {t.node} + Opt(t.text) + Opt(t.name) <= Foot(t)
  {
  }

  lemma LeafIsLoose(n: Node, h: Heap)
    requires n.next == n.prev == n.child == null && IsText(n.valuestring) && IsText(n.name)
    requires n.valuestring != null ==> n.valuestring != n.name
    requires {n} + Opt(n.valuestring) + Opt(n.name) <= h.live && h !in h.live
    ensures var u := Tree(n, n.valuestring, n.name, []);
            Loose(u, h) && Foot(u) == {n} + Opt(n.valuestring) + Opt(n.name)
  {
    FootNone();
  }

  // ---------- whole trees ----------

  /**
   cJSON_Duplicate. It succeeds exactly when every allocation is granted, and then yields an item of its own whose
   blocks are all new and which is like the original, children included when they are asked for. When it fails nothing
   stays allocated. Only the allocator's state is written, so the original is untouched.
   */
  method Duplicate(h: Heap, item: Node?, recurse: bool, ghost t: Tree) returns (copy: Node?, ghost u: Option<Tree>)
    requires h !in h.live && (item != null ==> t.node == item && Shaped(t) && Foot(t) <= h.live)
    modifies h`requests, h`live
    ensures h.requests >= old(h.requests) && h !in h.live
    ensures copy != null <==> item != null && h.Granted(old(h.requests), h.requests)
    ensures copy == null ==> h.live == old(h.live)
    ensures copy != null ==>
              && u.Some? && u.value.node == copy && Loose(u.value, h) && AlikeItem(t, u.value)
              && (if recurse then AlikeAll(t.kids, u.value.kids) else u.value.kids == [])
              && fresh(Foot(u.value)) && h.live == old(h.live) + Foot(u.value)
    decreases t, 2
  {
    hide Loose, Foot, FootAll, Shaped, ShapedAll, Linked, SameText, AlikeAll, Growing;
    copy, u := null, None;
    if item == null {
      return;
    }
    KidsOf(t);
    var ok, n := CopyItem(h, item, t);
    if n == null {
      return;
    }
    ghost var c := Tree(n, n.valuestring, n.name, []);
    if ok && recurse {
      LeafParts(n, h);
      label Children:
      ok, c := CopyBelow(h, n, item, t);
      GrantedSplit(h, old(h.requests), old@Children(h.requests), h.requests);
      forall o | o in Foot(c) ensures fresh(o) {
        assert old(allocated(o)) ==> old@Children(allocated(o));
        assert o in Foot(Tree(n, n.valuestring, n.name, [])) || o in Foot(c) - Foot(Tree(n, n.valuestring, n.name, []));
      }
    }
    if !ok {
      DeleteLoose(h, n, c);
      return;
    }
    copy, u := n, Some(c);
  }

  /** What a tree consists of, as far as copying is concerned. */
  lemma KidsOf(t: Tree)
    requires Shaped(t)
    ensures t.node.child == First(t.kids) && Linked(t.kids) && ShapedAll(t.kids) && FootAll(t.kids) <= Foot(t)
    ensures Foot(t) == {t.node} + Rest(t)
  {
  }

  method DeleteLoose(h: Heap, item: Node, ghost t: Tree)
    requires t.node == item && Loose(t, h)
    modifies h`live
    ensures h.live == old(h.live) - Foot(t) && h !in h.live
  {
    hide Loose, Foot, Linked, ShapedAll, SeparateAll, FootAll;
    LooseParts(t, h);
    LooseIsDeletable(t, h);
    Delete(h, item, [t]);
  }

  /** The copies of the children of an item, below the copy n of the item itself. */
  method CopyBelow(h: Heap, n: Node, item: Node, ghost t: Tree) returns (ok: bool, ghost c: Tree)
    requires t.node == item && Shaped(t) && Foot(t) <= h.live
    requires var leaf := Tree(n, n.valuestring, n.name, []);
             n.child == null && Loose(leaf, h) && Foot(leaf) !! Foot(t) && AlikeItem(t, leaf)
    modifies h`requests, h`live, n`child
    ensures h.requests >= old(h.requests) && h !in h.live
    ensures ok <==> h.Granted(old(h.requests), h.requests)
    ensures c.node == n && Loose(c, h) && AlikeItem(t, c) && (ok ==> AlikeAll(t.kids, c.kids))
    ensures h.live == old(h.live) + Foot(c)
    ensures var leaf := Tree(n, n.valuestring, n.name, []);
            Foot(leaf) <= Foot(c) && fresh(Foot(c) - Foot(leaf))
    decreases t, 1
  {
    hide Loose, Foot, FootAll, Shaped, ShapedAll, Linked, SameText, AlikeAll, Growing, Separate, SeparateAll;
    ghost var base := h.live;
    LeafParts(n, h);
    KidsOf(t);
    RestsInFoot(t.kids);
    ghost var us;
    ok, us := CopyChildren(h, n, item.child, t.kids);
    c := Tree(n, n.valuestring, n.name, us);
    GrowingParts(us, h, base);
    CopyIsLoose(n, us, h, base);
  }

  lemma LeafParts(n: Node, h: Heap)
    requires Loose(Tree(n, n.valuestring, n.name, []), h)
    ensures n.next == n.prev == null && IsText(n.valuestring) && IsText(n.name) && (n.valuestring != null ==>
            n.valuestring != n.name)
    ensures Foot(Tree(n, n.valuestring, n.name, [])) == {n} + Opt(n.valuestring) + Opt(n.name)
    ensures {n} + Opt(n.valuestring) + Opt(n.name) <= h.live && h !in h.live
  {
    FootNone();
  }

  lemma CopyIsLoose(n: Node, us: seq<Tree>, h: Heap, base: set<object>)
    requires Growing(us, h, base) && n.child == First(us) && {n} + Opt(n.valuestring) + Opt(n.name) <= base
    requires n.next == n.prev == null && IsText(n.valuestring) && IsText(n.name) && (n.valuestring != null ==>
             n.valuestring != n.name)
    ensures var c := Tree(n, n.valuestring, n.name, us);
            Loose(c, h) && Foot(c) == {n} + Opt(n.valuestring) + Opt(n.name) + FootAll(us)
  {
    hide FootAll, ShapedAll, Linked, SeparateAll;
    GrowingParts(us, h, base);
    var c := Tree(n, n.valuestring, n.name, us);
    assert Separate(c);
  }

  /** The loop of cJSON_Duplicate. The finished copies hang below n, whether or not all of them could be made. */
  method CopyChildren(h: Heap, n: Node, first: Node?, ghost ks: seq<Tree>) returns (ok: bool, ghost us: seq<Tree>)
    requires first == First(ks) && Linked(ks) && ShapedAll(ks) && FootAll(ks) <= h.live && h !in h.live
    requires n in h.live && n !in FootAll(ks) && n.child == null
    modifies h`requests, h`live, n`child
    ensures h.requests >= old(h.requests)
    ensures ok <==> h.Granted(old(h.requests), h.requests)
    ensures Growing(us, h, old(h.live)) && n.child == First(us) && fresh(FootAll(us))
    ensures ok ==> AlikeAll(ks, us)
    decreases ks, 1
  {
    hide Growing, FootAll, ShapedAll, AlikeAll, NodesOf, Rests;
    ghost var base := h.live;
    var child := first;
    var next: Node? := null;
    ghost var i: nat := 0;
    us := [];
    GrowingNothing(h);
    FootNone();
    NoneAlike(ks);
    RestsInFoot(ks);
    while child != null
      invariant i <= |ks| && child == (if i < |ks| then ks[i].node else null)
      invariant h.requests >= old(h.requests) && h.Granted(old(h.requests), h.requests)
      invariant Growing(us, h, base) && n.child == First(us) && next == LastNode(us) && fresh(FootAll(us))
      invariant Linked(ks) && ShapedAll(ks) && AlikeAll(ks[..i], us)
      decreases |ks| - i
    {
      RestsInFoot(us);
      GrowingParts(us, h, base);
      ghost var before := us;
      label Turn:
      ok, next, us := CopyChild(h, n, next, child, ks, i, us, base);
      GrantedSplit(h, old(h.requests), old@Turn(h.requests), h.requests);
      forall o | o in FootAll(us) ensures fresh(o) {
        assert old(allocated(o)) ==> old@Turn(allocated(o));
        assert o in FootAll(before) || o in FootAll(us) - FootAll(before);
      }
      if !ok {
        return;
      }
      assert LinkedAt(ks, i);
      child := child.next;
      i := i + 1;
    }
    assert ks[..i] == ks;
    ok := true;
  }

  lemma NoneAlike(ks: seq<Tree>)
    ensures AlikeAll(ks[..0], [])
  {
  }

  /** One turn of that loop. */
  method CopyChild(h: Heap, n: Node, next: Node?, child: Node, ghost ks: seq<Tree>, ghost i: nat, ghost us: seq<Tree>,
                   ghost base: set<object>)
    returns (ok: bool, last: Node?, ghost all: seq<Tree>)
    requires i < |ks| && child == ks[i].node && ShapedAll(ks) && FootAll(ks) <= base && Growing(us, h, base)
    requires n in base && n !in FootAll(ks) && n.child == First(us) && next == LastNode(us) && AlikeAll(ks[..i], us)
    modifies h`requests, h`live, n`child, NodesOf(us)`next
    ensures h.requests >= old(h.requests)
    ensures ok <==> h.Granted(old(h.requests), h.requests)
    ensures Growing(all, h, base) && n.child == First(all) && fresh(FootAll(all) - FootAll(us))
    ensures ok ==> last == LastNode(all) && AlikeAll(ks[..i + 1], all)
    decreases ks, 0
  {
    hide Growing, FootAll, ShapedAll, AlikeAll, NodesOf, Rests, Linked, SeparateAll, Shaped, Separate, Foot, Rest,
      SameText, Alike, Loose;
    GrowingParts(us, h, base);
    NodesOutsideRests(us);
    DistinctNodes(us);
    RestsInFoot(ks);
    FootSplit(ks, i);
    PartsOfList(ks, i);
    ghost var u;
    last, u := Duplicate(h, child, true, ks[i]);
    ok := last != null;
    if !ok {
      GrowingAgain(us, h, base);
      all := us;
      return;
    }
    LooseParts(u.value, h);
    AlikeFromParts(ks[i], u.value);
    AttachCopy(n, next, last, us, u.value);
    AlikeAppend(ks, i, us, u.value);
    GrowingJoin(us, u.value, h, base);
    FootAppend(us, u.value);
    all := us + [u.value];
  }

  lemma PartsOfList(ks: seq<Tree>, i: nat)
    requires i < |ks| && ShapedAll(ks)
    ensures Shaped(ks[i]) && Foot(ks[i]) <= FootAll(ks) && Foot(ks[i]) == {ks[i].node} + Rest(ks[i])
    ensures FootAll(ks[..i]) <= FootAll(ks) && Rests(ks[..i]) <= FootAll(ks) && NodesOf(ks[..i]) <= FootAll(ks)
  {
    hide Foot, FootAll, Shaped, Rest;
    FootSplit(ks, i);
    FootOfRest(ks[i]);
    RestsInFoot(ks[..i]);
  }

  lemma GrowingAgain(us: seq<Tree>, h: Heap, base: set<object>)
    requires Linked(us) && ShapedAll(us) && SeparateAll(us) && h.live == base + FootAll(us) && FootAll(us) !! base
             && h !in h.live
    ensures Growing(us, h, base)
  {
  }

  lemma AlikeFromParts(t: Tree, u: Tree)
    requires AlikeItem(t, u) && AlikeAll(t.kids, u.kids)
    ensures Alike(t, u)
  {
  }

  lemma AlikeAppend(ks: seq<Tree>, i: nat, us: seq<Tree>, u: Tree)
    requires i < |ks| && AlikeAll(ks[..i], us) && Alike(ks[i], u)
    ensures AlikeAll(ks[..i + 1], us + [u])
  {
    hide Alike;
  }

  /** The wiring of a finished copy behind the ones before. */
  method AttachCopy(n: Node, next: Node?, newchild: Node, ghost us: seq<Tree>, ghost u: Tree)
    requires Linked(us) && next == LastNode(us) && n.child == First(us)
    requires u.node == newchild && newchild !in NodesOf(us) && newchild.next == newchild.prev == null
    requires forall i, j | 0 <= i < j < |us| :: us[i].node != us[j].node
    modifies n`child, NodesOf(us)`next, newchild`prev
    ensures Linked(us + [u]) && n.child == First(us + [u])
  {
    AttachLinks(next, newchild, us, u);
    if next == null {
      n.child := newchild;
    }
  }
}
