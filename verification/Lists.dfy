/** The child list of an array or object: lookup by index, append, insert, detach, delete and replace. */
module Lists {
  import opened Text
  import opened Values
  import opened Numbers
  import opened Nodes

  // ---------- the sequence operations ----------

  function InsertAt<T>(s: seq<T>, i: nat, x: T): seq<T>
    requires i <= |s|
  {
    s[..i] + [x] + s[i..]
  }

  function RemoveAt<T>(s: seq<T>, i: nat): seq<T>
    requires i < |s|
  {
    s[..i] + s[i + 1..]
  }

  /** Where an insertion at index `which` takes place: past the end it appends. */
  function Place(which: nat, length: nat): (i: nat)
    ensures i <= length
  {
    if which < length then which else length
  }

  // ---------- what a parent owns ----------

  /** The parent's list consists of these trees, chained both ways, sharing nothing, and all of it is live. */
  ghost predicate Owns(parent: Node, ks: seq<Tree>, h: Heap)
    reads parent`child, h`live, FootAll(ks)
  {
    RestsInFoot(ks);
    && parent.child == First(ks) && Linked(ks) && ShapedAll(ks) && SeparateAll(ks)
    && FootAll(ks) <= h.live && parent !in FootAll(ks) && h !in h.live
  }

  /** An item of its own, with everything below it. */
  ghost predicate Loose(t: Tree, h: Heap)
    reads h`live, Foot(t)
  {
    FootOfRest(t);
    t.node.next == null && t.node.prev == null && Shaped(t) && Separate(t) && Foot(t) <= h.live && h !in h.live
  }

  lemma OwnsParts(parent: Node, ks: seq<Tree>, h: Heap)
    requires Owns(parent, ks, h)
    ensures Linked(ks) && ShapedAll(ks) && SeparateAll(ks) && FootAll(ks) <= h.live && parent.child == First(ks)
    ensures parent !in FootAll(ks) && parent !in Rests(ks) && parent !in NodesOf(ks) && NodesOf(ks) !! Rests(ks)
            && Rests(ks) <= h.live && NodesOf(ks) <= h.live
    ensures h !in h.live
    ensures forall i, j | 0 <= i < j < |ks| :: ks[i].node != ks[j].node
  {
    RestsInFoot(ks);
    NodesOutsideRests(ks);
    DistinctNodes(ks);
  }

  ghost function The(n: Node?): set<Node> {
    if n == null then {} else {n}
  }

  /** The nodes whose links an operation on the parent's list may write. */
  ghost function Listed(parent: Node?, ks: seq<Tree>): set<Node> {
    if parent == null then {} else NodesOf(ks)
  }

  // ---------- lookup ----------

  /** get_array_item */
  method GetArrayItem(parent: Node?, index: nat, ghost ks: seq<Tree>) returns (item: Node?)
    requires parent != null ==> parent.child == First(ks) && Linked(ks)
    ensures item == if parent != null && index < |ks| then ks[index].node else null
  {
    if parent == null {
      return null;
    }
    item := parent.child;
    var left := index;
    ghost var i: nat := 0;
    while item != null && left > 0
      invariant i + left == index && i <= |ks| && item == (if i < |ks| then ks[i].node else null)
      decreases left
    {
      assert LinkedAt(ks, i);
      left := left - 1;
      item := item.next;
      i := i + 1;
    }
  }

  /** A size_t as an int of 32 bits. */
  function ToInt(n: nat): int {
    var m := n % 0x1_0000_0000;
    if m > INT_MAX then m - 0x1_0000_0000 else m
  }

  /** cJSON_GetArraySize, with the truncation to int that its comment admits. */
  method GetArraySize(parent: Node?, ghost ks: seq<Tree>) returns (n: int)
    requires parent != null ==> parent.child == First(ks) && Linked(ks)
    ensures n == if parent == null then 0 else ToInt(|ks|)
    ensures parent != null && |ks| <= INT_MAX ==> n == |ks|
  {
    if parent == null {
      return 0;
    }
    var child := parent.child;
    var size: nat := 0;
    while child != null
      invariant size <= |ks| && child == (if size < |ks| then ks[size].node else null)
      decreases |ks| - size
    {
      assert LinkedAt(ks, size);
      size := size + 1;
      child := child.next;
    }
    n := ToInt(size);
  }

  // ---------- append and insert ----------

  /** suffix_object at the end of the list, and the search for that end. */
  method AppendLinks(parent: Node, item: Node, ghost ks: seq<Tree>, ghost t: Tree)
    requires parent.child == First(ks) && Linked(ks) && t.node == item && item !in NodesOf(ks)
             && item.next == item.prev == null
    requires forall i, j | 0 <= i < j < |ks| :: ks[i].node != ks[j].node
    modifies parent`child, NodesOf(ks)`next, item`prev
    ensures parent.child == First(ks + [t]) && Linked(ks + [t])
  {
    var child := parent.child;
    if child == null {
      parent.child := item;
      assert LinkedAt([t], 0);
      assert ks + [t] == [t];
      return;
    }
    ghost var i: nat := 0;
    assert LinkedAt(ks, 0);
    while child.next != null
      invariant i < |ks| && child == ks[i].node && LinkedAt(ks, i)
      decreases |ks| - i
    {
      child := child.next;
      i := i + 1;
      assert LinkedAt(ks, i);
    }
    AttachLinks(child, item, ks, t);
  }

  /** The pointers at and around an index. */
  lemma Neighbours(ks: seq<Tree>, i: nat)
    requires Linked(ks) && i < |ks|
    ensures LinkedAt(ks, i) && (i > 0 ==> LinkedAt(ks, i - 1)) && (i + 1 < |ks| ==> LinkedAt(ks, i + 1))
    ensures i > 0 ==> ks[i].node.prev == ks[i - 1].node && ks[i - 1].node in NodesOf(ks)
    ensures i + 1 < |ks| ==> ks[i].node.next == ks[i + 1].node && ks[i + 1].node in NodesOf(ks)
    ensures i == 0 <==> ks[i].node.prev == null
    ensures i + 1 == |ks| <==> ks[i].node.next == null
    ensures ks[i].node in NodesOf(ks)
  {
    assert LinkedAt(ks, i);
  }

  /** The insertion in front of the item at index i. */
  method InsertLinks(parent: Node, after: Node, item: Node, ghost ks: seq<Tree>, ghost i: nat, ghost t: Tree)
    requires parent.child == First(ks) && Linked(ks) && i < |ks| && after == ks[i].node && t.node == item
    requires item !in NodesOf(ks)
    requires forall i, j | 0 <= i < j < |ks| :: ks[i].node != ks[j].node
    modifies parent`child, NodesOf(ks)`next, NodesOf(ks)`prev, item`next, item`prev
    ensures parent.child == First(InsertAt(ks, i, t)) && Linked(InsertAt(ks, i, t))
  {
    ghost var all := InsertAt(ks, i, t);
    Neighbours(ks, i);
    item.next := after;
    item.prev := after.prev;
    after.prev := item;
    if after == parent.child {
      parent.child := item;
    } else {
      item.prev.next := item;
    }
    forall k | 0 <= k < |all| ensures LinkedAt(all, k) {
      if k < i {
        assert all[k] == ks[k] && old(LinkedAt(ks, k));
      } else if k > i {
        assert all[k] == ks[k - 1] && old(LinkedAt(ks, k - 1));
      }
    }
  }

  /** The removal of the item at index i. */
  method DetachLinks(parent: Node, item: Node, ghost ks: seq<Tree>, ghost i: nat)
    requires parent.child == First(ks) && Linked(ks) && i < |ks| && item == ks[i].node
    requires forall i, j | 0 <= i < j < |ks| :: ks[i].node != ks[j].node
    modifies parent`child, NodesOf(ks)`next, NodesOf(ks)`prev
    ensures parent.child == First(RemoveAt(ks, i)) && Linked(RemoveAt(ks, i)) && item.next == item.prev == null
  {
    ghost var all := RemoveAt(ks, i);
    Neighbours(ks, i);
    if item.prev != null {
      item.prev.next := item.next;
    }
    if item.next != null {
      item.next.prev := item.prev;
    }
    if item == parent.child {
      parent.child := item.next;
    }
    item.prev := null;
    item.next := null;
    forall k | 0 <= k < |all| ensures LinkedAt(all, k) {
      if k < i {
        assert all[k] == ks[k] && old(LinkedAt(ks, k));
      } else {
        assert all[k] == ks[k + 1] && old(LinkedAt(ks, k + 1));
      }
    }
  }

  /** The replacement takes over both neighbours and the parent's pointer. */
  method ReplaceLinks(parent: Node, item: Node, replacement: Node, ghost ks: seq<Tree>, ghost i: nat, ghost t: Tree)
    requires parent.child == First(ks) && Linked(ks) && i < |ks| && item == ks[i].node && t.node == replacement
    requires replacement !in NodesOf(ks)
    requires forall i, j | 0 <= i < j < |ks| :: ks[i].node != ks[j].node
    modifies parent`child, NodesOf(ks)`next, NodesOf(ks)`prev, replacement`next, replacement`prev
    ensures parent.child == First(ks[i := t]) && Linked(ks[i := t]) && item.next == item.prev == null
  {
    ghost var all := ks[i := t];
    Neighbours(ks, i);
    replacement.next := item.next;
    replacement.prev := item.prev;
    if replacement.next != null {
      replacement.next.prev := replacement;
    }
    if replacement.prev != null {
      replacement.prev.next := replacement;
    }
    if parent.child == item {
      parent.child := replacement;
    }
    item.next := null;
    item.prev := null;
    forall k | 0 <= k < |all| ensures LinkedAt(all, k) {
      assert old(LinkedAt(ks, k));
      if k == i {
        assert all[k] == t;
      } else {
        assert all[k] == ks[k] && ks[k].node != item;
      }
    }
  }

  // ---------- what the lists keep ----------

  lemma FootInsert(ks: seq<Tree>, i: nat, t: Tree)
    requires i <= |ks|
    ensures FootAll(InsertAt(ks, i, t)) == FootAll(ks) + Foot(t)
  {
    hide Foot, FootAll;
    FootConcat(ks[..i], [t]);
    FootConcat(ks[..i] + [t], ks[i..]);
    FootConcat(ks[..i], ks[i..]);
    FootOne(t);
    assert ks == ks[..i] + ks[i..];
  }

  lemma FootRemove(ks: seq<Tree>, i: nat)
    requires i < |ks| && SeparateAll(ks)
    ensures FootAll(RemoveAt(ks, i)) == FootAll(ks) - Foot(ks[i]) && Foot(ks[i]) <= FootAll(ks) && Separate(ks[i])
  {
    hide Foot, FootAll, Separate, SeparateAll;
    FootConcat(ks[..i], ks[i + 1..]);
    FootSplit(ks, i);
    SeparateSplit(ks, i);
  }

  lemma SeparateInsert(ks: seq<Tree>, i: nat, t: Tree)
    requires i <= |ks| && SeparateAll(ks) && Separate(t) && Foot(t) !! FootAll(ks)
    ensures SeparateAll(InsertAt(ks, i, t))
  {
    hide Foot, Separate;
    var all := InsertAt(ks, i, t);
    forall j, k | 0 <= j < k < |all| ensures Foot(all[j]) !! Foot(all[k]) {
      assert j < i ==> all[j] == ks[j];
      assert j > i ==> all[j] == ks[j - 1];
      assert k < i ==> all[k] == ks[k];
      assert k > i ==> all[k] == ks[k - 1];
    }
  }

  lemma SeparateRemove(ks: seq<Tree>, i: nat)
    requires i < |ks| && SeparateAll(ks)
    ensures SeparateAll(RemoveAt(ks, i))
  {
    hide Foot, Separate;
    var all := RemoveAt(ks, i);
    forall j, k | 0 <= j < k < |all| ensures Foot(all[j]) !! Foot(all[k]) {
      assert all[j] == ks[if j < i then j else j + 1] && all[k] == ks[if k < i then k else k + 1];
    }
  }

  /** The new item's blocks are not among those of the list or the parent. */
  ghost predicate Foreign(parent: Node, ks: seq<Tree>, t: Tree) {
    Foot(t) !! FootAll(ks) && parent !in Foot(t)
  }

  lemma ForeignParts(parent: Node, ks: seq<Tree>, u: Tree)
    requires Foreign(parent, ks, u)
    ensures NodesOf(ks) !! Foot(u) && Rests(ks) !! Foot(u) && u.node !in NodesOf(ks) && u.node !in Rests(ks)
            && parent !in Foot(u)
    ensures Rest(u) <= Foot(u) && Foot(u) !! FootAll(ks)
  {
    RestsInFoot(ks);
  }

  lemma OwnsInsert(parent: Node, ks: seq<Tree>, i: nat, t: Tree, h: Heap)
    requires i <= |ks| && parent.child == First(InsertAt(ks, i, t)) && Linked(InsertAt(ks, i, t)) && ShapedAll(ks)
             && Shaped(t)
    requires SeparateAll(ks) && Separate(t) && Foreign(parent, ks, t)
    requires FootAll(ks) <= h.live && Foot(t) <= h.live && parent !in FootAll(ks) && h !in h.live
    ensures Owns(parent, InsertAt(ks, i, t), h)
  {
    hide Linked, Shaped, Separate, SeparateAll, Foot, FootAll;
    SeparateInsert(ks, i, t);
    FootInsert(ks, i, t);
  }

  lemma OwnsRemove(parent: Node, ks: seq<Tree>, i: nat, h: Heap)
    requires i < |ks| && parent.child == First(RemoveAt(ks, i)) && Linked(RemoveAt(ks, i)) && ShapedAll(ks)
    requires SeparateAll(ks) && FootAll(ks) <= h.live && parent !in FootAll(ks) && h !in h.live
    requires ks[i].node.next == ks[i].node.prev == null
    ensures Owns(parent, RemoveAt(ks, i), h) && Loose(ks[i], h) && Foreign(parent, RemoveAt(ks, i), ks[i])
  {
    hide Linked, Shaped, Separate, SeparateAll, Foot, FootAll;
    SeparateRemove(ks, i);
    FootRemove(ks, i);
  }

  lemma MeanInsert(ks: seq<Tree>, i: nat, t: Tree, es: seq<Value>, v: Value)
    requires i <= |ks| && MeanAll(ks, es) && Means(t, v)
    ensures MeanAll(InsertAt(ks, i, t), InsertAt(es, i, v))
  {
    hide Means;
  }

  lemma MeanRemove(ks: seq<Tree>, i: nat, es: seq<Value>)
    requires i < |ks| && MeanAll(ks, es)
    ensures MeanAll(RemoveAt(ks, i), RemoveAt(es, i)) && Means(ks[i], es[i])
  {
    hide Means;
  }

  lemma NamedRemove(ks: seq<Tree>, i: nat, ms: seq<Member>)
    requires i < |ks| && NamedAll(ks, ms)
    ensures NamedAll(RemoveAt(ks, i), RemoveAt(ms, i)) && Means(ks[i], ms[i].value) && KeyIs(ks[i], Some(ms[i].key))
  {
    hide Means, KeyIs;
  }

  // ---------- the operations ----------

  /** add_item_to_array: the item becomes the last of the list. Nothing but links is written. */
  method AddItemToArray(parent: Node?, item: Node?, ghost ks: seq<Tree>, ghost t: Tree, ghost h: Heap,
                        ghost es: seq<Value>, ghost v: Value)
    returns (ok: bool)
    requires parent != null ==> Owns(parent, ks, h)
    requires item != null ==> item == t.node && Loose(t, h)
    requires parent != null && item != null ==> Foreign(parent, ks, t)
    modifies The(parent)`child, Listed(parent, ks)`next, The(item)`prev
    ensures ok <==> parent != null && item != null
    ensures ok ==> Owns(parent, ks + [t], h)
    ensures ok && old(MeanAll(ks, es)) && old(Means(t, v)) ==> MeanAll(ks + [t], es + [v])
    ensures !ok && parent != null ==> Owns(parent, ks, h)
    ensures !ok && item != null ==> Loose(t, h)
  {
    if parent == null || item == null {
      return false;
    }
    InsertAtEnd(ks, t);
    OwnsParts(parent, ks, h);
    FootOfRest(t);
    hide Linked, ShapedAll, SeparateAll, FootAll, NodesOf, Rests, MeanAll, Means, Shaped, Separate;
    RestsInFoot(ks);
    AppendLinks(parent, item, ks, t);
    OwnsInsert(parent, ks, |ks|, t, h);
    if old(MeanAll(ks, es)) && old(Means(t, v)) {
      MeanAppend(ks, t, es, v);
    }
    ok := true;
  }

  lemma InsertAtEnd<T>(s: seq<T>, x: T)
    ensures InsertAt(s, |s|, x) == s + [x]
  {
  }

  /** In front of the element at an index, or behind the last one. */
  lemma PlacedAt<T>(s: seq<T>, w: nat, x: T)
    ensures var r := InsertAt(s, Place(w, |s|), x);
            if w < |s| then |r| == |s| + 1 && r[..w] == s[..w] && r[w] == x && r[w + 1..] == s[w..] else r == s + [x]
  {
  }

  /**
   cJSON_InsertItemInArray: in front of the item at index `which`, or at the end when there is none. `missing` says
   whether the call follows a new item that is not there; only the branch in front of an item does so.
   */
  method InsertItemInArray(parent: Node?, which: int, newitem: Node?, ghost ks: seq<Tree>, ghost t: Tree, ghost h: Heap,
                           ghost es: seq<Value>, ghost v: Value)
    returns (ghost missing: bool)
    requires parent != null ==> Owns(parent, ks, h)
    requires newitem != null ==> newitem == t.node && Loose(t, h)
    requires parent != null && newitem != null ==> Foreign(parent, ks, t)
    modifies The(parent)`child, Listed(parent, ks)`next, Listed(parent, ks)`prev, The(newitem)`next, The(newitem)`prev
    ensures missing <==> newitem == null && parent != null && 0 <= which < |ks|
    ensures parent != null && (which < 0 || newitem == null) ==> Owns(parent, ks, h)
    ensures newitem != null && (which < 0 || parent == null) ==> Loose(t, h)
    ensures parent != null && which >= 0 && newitem != null ==> Owns(parent, InsertAt(ks, Place(which, |ks|), t), h)
    ensures parent != null && which >= 0 && newitem != null && old(MeanAll(ks, es)) && old(Means(t, v)) ==>
              MeanAll(InsertAt(ks, Place(which, |ks|), t), InsertAt(es, Place(which, |ks|), v))
  {
    hide Owns, Loose, Foreign, MeanAll, Means, Linked, NodesOf, Foot, FootAll, InsertAt;
    missing := false;
    if which < 0 {
      return;
    }
    if parent != null {
      OwnsParts(parent, ks, h);
    }
    if newitem != null {
      LooseParts(t, h);
    }
    var after := GetArrayItem(parent, which, ks);
    if after == null {
      InsertAtEnd(ks, t);
      if parent != null && old(MeanAll(ks, es)) {
        MeanLength(ks, es);
        InsertAtEnd(es, v);
      }
      var _ := AddItemToArray(parent, newitem, ks, t, h, es, v);
      return;
    }
    if newitem == null {
      missing := true;
      return;
    }
    InsertBefore(parent, after, newitem, ks, which, t, h, es, v);
  }

  /** The insertion in front of an item of the list. */
  method InsertBefore(parent: Node, after: Node, newitem: Node, ghost ks: seq<Tree>, ghost i: nat, ghost t: Tree,
                      ghost h: Heap,
                      ghost es: seq<Value>, ghost v: Value)
    requires Owns(parent, ks, h) && newitem == t.node && Loose(t, h) && Foreign(parent, ks, t) && i < |ks|
             && after == ks[i].node
    modifies parent`child, NodesOf(ks)`next, NodesOf(ks)`prev, newitem`next, newitem`prev
    ensures Owns(parent, InsertAt(ks, i, t), h)
    ensures old(MeanAll(ks, es)) && old(Means(t, v)) ==> MeanAll(InsertAt(ks, i, t), InsertAt(es, i, v))
  {
    hide Linked, ShapedAll, SeparateAll, FootAll, NodesOf, Rests, MeanAll, Means, Shaped, Separate, Owns, Foot, Rest,
      First, InsertAt,
      Loose, Foreign;
    OwnsParts(parent, ks, h);
    LooseParts(t, h);
    ForeignParts(parent, ks, t);
    InsertLinks(parent, after, newitem, ks, i, t);
    OwnsInsert(parent, ks, i, t, h);
    if old(MeanAll(ks, es)) && old(Means(t, v)) {
      MeanInsert(ks, i, t, es, v);
    }
  }

  lemma LooseParts(t: Tree, h: Heap)
    requires Loose(t, h)
    ensures t.node.next == null && t.node.prev == null && Shaped(t) && Separate(t) && Foot(t) <= h.live && h !in h.live
    ensures Foot(t) == {t.node} + Rest(t) && t.node !in Rest(t)
  {
  }

  /** cJSON_DetachItemViaPointer on a child of the parent: the item comes out with everything below it. */
  method DetachItemViaPointer(parent: Node?, item: Node?, ghost ks: seq<Tree>, ghost i: nat, ghost h: Heap,
                              ghost es: seq<Value>)
    returns (detached: Node?)
    requires parent != null ==> Owns(parent, ks, h)
    requires parent != null && item != null ==> i < |ks| && item == ks[i].node
    modifies The(parent)`child, Listed(parent, ks)`next, Listed(parent, ks)`prev
    ensures detached == if parent == null then null else item
    ensures detached != null ==> Owns(parent, RemoveAt(ks, i), h) && Loose(ks[i], h)
                                    && Foreign(parent, RemoveAt(ks, i), ks[i])
    ensures detached != null && old(MeanAll(ks, es)) ==> MeanAll(RemoveAt(ks, i), RemoveAt(es, i))
                                                            && Means(ks[i], es[i])
    ensures detached == null && parent != null ==> Owns(parent, ks, h)
  {
    if parent == null || item == null {
      return null;
    }
    OwnsParts(parent, ks, h);
    hide Linked, ShapedAll, SeparateAll, FootAll, NodesOf, Rests, MeanAll, Means, Shaped, Separate;
    RestsInFoot(ks);
    DetachLinks(parent, item, ks, i);
    OwnsRemove(parent, ks, i, h);
    if old(MeanAll(ks, es)) {
      MeanRemove(ks, i, es);
    }
    detached := item;
  }

  /** cJSON_DetachItemFromArray */
  method DetachItemFromArray(parent: Node?, which: int, ghost ks: seq<Tree>, ghost h: Heap, ghost es: seq<Value>)
    returns (detached: Node?)
    requires parent != null ==> Owns(parent, ks, h)
    modifies The(parent)`child, Listed(parent, ks)`next, Listed(parent, ks)`prev
    ensures detached == if parent != null && 0 <= which < |ks| then ks[which].node else null
    ensures detached != null ==> Owns(parent, RemoveAt(ks, which), h) && Loose(ks[which], h)
                                 && Foreign(parent, RemoveAt(ks, which), ks[which])
    ensures detached != null && old(MeanAll(ks, es)) ==> MeanAll(RemoveAt(ks, which), RemoveAt(es, which))
                                                            && Means(ks[which], es[which])
    ensures detached == null && parent != null ==> Owns(parent, ks, h)
  {
    if which < 0 {
      return null;
    }
    if parent != null {
      OwnsParts(parent, ks, h);
    }
    var item := GetArrayItem(parent, which, ks);
    detached := DetachItemViaPointer(parent, item, ks, which, h, es);
  }

  /** cJSON_DeleteItemFromArray: the item leaves the list and all its blocks are freed, and only those. */
  method DeleteItemFromArray(parent: Node?, which: int, ghost ks: seq<Tree>, h: Heap, ghost es: seq<Value>)
    requires parent != null ==> Owns(parent, ks, h)
    modifies The(parent)`child, Listed(parent, ks)`next, Listed(parent, ks)`prev, h`live
    ensures parent != null && 0 <= which < |ks| ==>
              && Owns(parent, RemoveAt(ks, which), h) && h.live == old(h.live) - Foot(ks[which])
              && (old(MeanAll(ks, es)) ==> MeanAll(RemoveAt(ks, which), RemoveAt(es, which)))
    ensures !(parent != null && 0 <= which < |ks|) ==> h.live == old(h.live) && (parent != null ==> Owns(parent, ks, h))
  {
    hide Owns, Loose, Foreign, MeanAll, Means, Linked, NodesOf, Foot, FootAll, RemoveAt, Rests;
    var item := DetachItemFromArray(parent, which, ks, h, es);
    if item != null {
      OwnsParts(parent, RemoveAt(ks, which), h);
      DeleteDetached(h, item, parent, ks[which], RemoveAt(ks, which));
    }
  }

  /** cJSON_Delete of an item that belongs to no list. */
  method DeleteDetached(h: Heap, item: Node, parent: Node, ghost t: Tree, ghost ks: seq<Tree>)
    requires item == t.node && Loose(t, h) && Owns(parent, ks, h) && Foreign(parent, ks, t)
    modifies h`live
    ensures h.live == old(h.live) - Foot(t) && Owns(parent, ks, h)
  {
    OwnsParts(parent, ks, h);
    hide Linked, ShapedAll, SeparateAll, FootAll, Shaped, Separate, Foot;
    LooseIsDeletable(t, h);
    Delete(h, item, [t]);
  }

  lemma LooseIsDeletable(t: Tree, h: Heap)
    requires Loose(t, h)
    ensures t.node == First([t]) && Linked([t]) && ShapedAll([t]) && SeparateAll([t]) && FootAll([t]) == Foot(t)
  {
    hide Shaped, Separate, Foot, FootAll;
    FootOne(t);
    assert LinkedAt([t], 0);
  }

  /** cJSON_ReplaceItemViaPointer: the replacement takes the item's place, and the item is deleted. */
  method ReplaceItemViaPointer(parent: Node?, item: Node?, replacement: Node?, ghost ks: seq<Tree>, ghost i: nat,
                               ghost t: Tree, h: Heap, ghost es: seq<Value>, ghost v: Value)
    returns (ok: bool)
    requires parent != null ==> Owns(parent, ks, h)
    requires parent != null && item != null ==> i < |ks| && item == ks[i].node
    requires replacement != null ==> replacement == t.node
    requires parent != null && item != null && replacement != null && replacement != item ==>
               Loose(t, h) && Foreign(parent, ks, t)
    modifies The(parent)`child, Listed(parent, ks)`next, Listed(parent, ks)`prev, The(replacement)`next,
             The(replacement)`prev, h`live
    ensures ok <==> parent != null && item != null && replacement != null
    ensures ok && replacement != item ==>
              && Owns(parent, ks[i := t], h) && h.live == old(h.live) - Foot(ks[i])
              && (old(MeanAll(ks, es)) && old(Means(t, v)) ==> MeanAll(ks[i := t], es[i := v]))
    ensures !ok || replacement == item ==> h.live == old(h.live) && (parent != null ==> Owns(parent, ks, h))
    ensures !ok && replacement != null ==> replacement.next == old(replacement.next)
                                              && replacement.prev == old(replacement.prev)
  {
    if parent == null || replacement == null || item == null {
      return false;
    }
    if replacement == item {
      return true;
    }
    hide MeanAll, Means, Owns, Loose, Foreign, Foot, NodesOf;
    OwnsParts(parent, ks, h);
    SwapIn(parent, item, replacement, ks, i, t, h, es, v);
    OwnsParts(parent, ks[i := t], h);
    DeleteDetached(h, item, parent, ks[i], ks[i := t]);
    ok := true;
  }

  /** The replacement of an item of the list by one that is not. */
  method SwapIn(parent: Node, item: Node, replacement: Node, ghost ks: seq<Tree>, ghost i: nat, ghost t: Tree,
                ghost h: Heap,
                ghost es: seq<Value>, ghost v: Value)
    requires Owns(parent, ks, h) && replacement == t.node && Loose(t, h) && Foreign(parent, ks, t) && i < |ks|
             && item == ks[i].node
    modifies parent`child, NodesOf(ks)`next, NodesOf(ks)`prev, replacement`next, replacement`prev
    ensures Owns(parent, ks[i := t], h) && Loose(ks[i], h) && Foreign(parent, ks[i := t], ks[i])
    ensures old(MeanAll(ks, es)) && old(Means(t, v)) ==> MeanAll(ks[i := t], es[i := v])
  {
    hide Linked, ShapedAll, SeparateAll, FootAll, NodesOf, Rests, MeanAll, Means, Shaped, Separate, Owns, Foot, Rest,
      First, InsertAt,
      Loose, Foreign;
    OwnsParts(parent, ks, h);
    LooseParts(t, h);
    ForeignParts(parent, ks, t);
    ReplaceLinks(parent, item, replacement, ks, i, t);
    OwnsReplace(parent, ks, i, t, h);
    if old(MeanAll(ks, es)) && old(Means(t, v)) {
      MeanReplace(ks, i, t, es, v);
    }
  }

  lemma MeanReplace(ks: seq<Tree>, i: nat, t: Tree, es: seq<Value>, v: Value)
    requires i < |ks| && MeanAll(ks, es) && Means(t, v)
    ensures MeanAll(ks[i := t], es[i := v])
  {
    hide Means;
  }

  lemma ReplaceIsRemoveInsert<T>(s: seq<T>, i: nat, x: T)
    requires i < |s|
    ensures s[i := x] == InsertAt(RemoveAt(s, i), i, x)
  {
  }

  lemma OwnsReplace(parent: Node, ks: seq<Tree>, i: nat, t: Tree, h: Heap)
    requires i < |ks| && parent.child == First(ks[i := t]) && Linked(ks[i := t]) && ShapedAll(ks) && Shaped(t)
    requires SeparateAll(ks) && Separate(t) && Foreign(parent, ks, t)
    requires FootAll(ks) <= h.live && Foot(t) <= h.live && parent !in FootAll(ks) && h !in h.live
    requires ks[i].node.next == ks[i].node.prev == null
    ensures Owns(parent, ks[i := t], h) && Loose(ks[i], h) && Foreign(parent, ks[i := t], ks[i])
  {
    hide Linked, Shaped, Separate, SeparateAll, Foot, FootAll;
    ReplaceIsRemoveInsert(ks, i, t);
    SeparateRemove(ks, i);
    FootRemove(ks, i);
    FootInsert(RemoveAt(ks, i), i, t);
    OwnsInsert(parent, RemoveAt(ks, i), i, t, h);
  }

  /** The item is the one at that index already. */
  ghost predicate IsAt(parent: Node?, which: int, item: Node?, ks: seq<Tree>) {
    parent != null && 0 <= which < |ks| && item == ks[which].node
  }

  /** cJSON_ReplaceItemInArray; replacing an item by itself changes nothing. */
  method ReplaceItemInArray(parent: Node?, which: int, newitem: Node?, ghost ks: seq<Tree>, ghost t: Tree, h: Heap,
                            ghost es: seq<Value>, ghost v: Value)
    requires parent != null ==> Owns(parent, ks, h)
    requires newitem != null && !IsAt(parent, which, newitem, ks) ==> newitem == t.node && Loose(t, h)
    requires parent != null && newitem != null && !IsAt(parent, which, newitem, ks) ==> Foreign(parent, ks, t)
    modifies The(parent)`child, Listed(parent, ks)`next, Listed(parent, ks)`prev, The(newitem)`next,
             The(newitem)`prev, h`live
    ensures IsAt(parent, which, newitem, ks) ==> Owns(parent, ks, h) && h.live == old(h.live)
    ensures parent != null && newitem != null && 0 <= which < |ks| && !IsAt(parent, which, newitem, ks) ==>
              && Owns(parent, ks[which := t], h) && h.live == old(h.live) - Foot(ks[which])
              && (old(MeanAll(ks, es)) && old(Means(t, v)) ==> MeanAll(ks[which := t], es[which := v]))
    ensures !(parent != null && newitem != null && 0 <= which < |ks|) ==>
              && h.live == old(h.live) && (parent != null ==> Owns(parent, ks, h)) && (newitem != null ==> Loose(t, h))
  {
    hide Owns, Loose, Foreign, Foot, FootAll, NodesOf, MeanAll, Means, Linked, ShapedAll, SeparateAll, Rests;
    if which < 0 {
      return;
    }
    if parent != null {
      OwnsParts(parent, ks, h);
      RestsInFoot(ks);
    }
    if newitem != null && !IsAt(parent, which, newitem, ks) {
      LooseParts(t, h);
      if parent != null {
        ForeignNode(parent, ks, t, which);
        ForeignParts(parent, ks, t);
      }
    }
    var item := GetArrayItem(parent, which, ks);
    ghost var u := if IsAt(parent, which, newitem, ks) then ks[which] else t;
    var _ := ReplaceItemViaPointer(parent, item, newitem, ks, which, u, h, es, v);
  }

  lemma ForeignNode(parent: Node, ks: seq<Tree>, t: Tree, i: nat)
    requires Foreign(parent, ks, t)
    ensures i < |ks| ==> ks[i].node != t.node
  {
    RestsInFoot(ks);
    if i < |ks| {
      assert ks[i].node in NodesOf(ks) && t.node in Foot(t);
    }
  }

  // ---------- laws ----------

  /** Detaching what was inserted, and inserting what was detached, restore the list. */
  lemma DetachUndoesInsert<T>(s: seq<T>, i: nat, x: T)
    requires i <= |s|
    ensures RemoveAt(InsertAt(s, i, x), i) == s
    ensures i < |s| ==> InsertAt(RemoveAt(s, i), i, s[i]) == s
  {
  }
}
