/** The operations on objects that go by name: adding, detaching, deleting and replacing members. */
module ObjectEdits {
  import opened Text
  import opened Values
  import opened Nodes
  import opened Lists
  import opened Copies
  import opened Comparison
  import opened ItemComparison

  /** The tree of an item under another name. */
  ghost function Renamed(t: Tree, name: array?<Byte>): Tree {
    Tree(t.node, t.text, name, t.kids)
  }

  lemma FootRenamed(t: Tree, name: array?<Byte>)
    requires Separate(t)
    ensures Foot(Renamed(t, name)) == Foot(t) - Opt(t.name) + Opt(name)
    ensures Opt(t.name) <= Foot(t)
  {
    hide FootAll, SeparateAll;
  }

  /** A new name in place of the old one leaves an item of its own. */
  lemma RenamedIsLoose(t: Tree, name: array?<Byte>, h: Heap)
    requires t.node.child == First(t.kids) && t.node.valuestring == t.text && t.node.name == name
    requires IsText(t.text) && IsText(name) && Linked(t.kids) && ShapedAll(t.kids) && Separate(t)
    requires t.node.next == null && t.node.prev == null && (name != null ==> name !in Foot(t))
    requires Foot(t) - Opt(t.name) + Opt(name) <= h.live && h !in h.live
    ensures Loose(Renamed(t, name), h)
  {
    hide FootAll, SeparateAll, Linked, ShapedAll;
    FootRenamed(t, name);
    assert Separate(Renamed(t, name));
  }

  /** The value does not depend on the name. */
  lemma MeansRenamed(t: Tree, name: array?<Byte>, v: Value)
    requires Means(t, v)
    ensures Means(Renamed(t, name), v)
  {
    hide MeanAll, NamedAll;
  }

  lemma LooseFields(t: Tree, h: Heap)
    requires Loose(t, h)
    ensures t.node.child == First(t.kids) && t.node.valuestring == t.text && t.node.name == t.name && IsText(t.text)
    ensures Linked(t.kids) && ShapedAll(t.kids) && Separate(t) && t.node.next == null && t.node.prev == null
    ensures Foot(t) <= h.live && h !in h.live && Foot(t) == {t.node} + Rest(t)
    ensures FootAll(t.kids) <= Foot(t) && NodesOf(t.kids) <= Foot(t) && Rests(t.kids) <= Foot(t)
            && Opt(t.text) <= Foot(t)
    ensures t.node !in NodesOf(t.kids) && t.node !in Rests(t.kids) && t.node !in Rest(t) && Opt(t.name) <= Foot(t)
  {
    RestsInFoot(t.kids);
  }

  /** cJSON_strdup of a name. */
  method CopyName(h: Heap, name: array<Byte>, ghost key: Bytes) returns (copy: array?<Byte>)
    requires h !in h.live && Spells(name, key)
    modifies h`requests, h`live
    ensures h.requests == old(h.requests) + 1 && h !in h.live
    ensures copy != null <==> h.grants(old(h.requests))
    ensures h.live == old(h.live) + Opt(copy) && fresh(Opt(copy)) && IsText(copy)
    ensures copy != null ==> Spells(copy, key)
  {
    hide Spells;
    SpellsIsText(name, key);
    copy := StrDup(h, name);
    if copy != null {
      SameSpelling(name, copy, key);
    }
  }

  /**
   The part of add_item_to_object in front of the list: the item gets a copy of the name, and its old name is freed.
   When the copy is refused nothing changes.
   */
  method NameItem(h: Heap, name: array<Byte>, item: Node, ghost t: Tree, ghost key: Bytes,
                  ghost v: Value) returns (ok: bool)
    requires item == t.node && Loose(t, h) && Spells(name, key)
    modifies h`requests, h`live, item`name
    ensures h.requests == old(h.requests) + 1
    ensures ok <==> h.grants(old(h.requests))
    ensures ok ==> item.name != null && fresh(item.name) && Spells(item.name, key) && Loose(Renamed(t, item.name), h)
                   && h.live == old(h.live) - Opt(t.name) + {item.name}
    ensures ok && old(Means(t, v)) ==> Means(Renamed(t, item.name), v)
    ensures h !in h.live
    ensures !ok ==> Loose(t, h) && h.live == old(h.live) && item.name == old(item.name) && (old(Means(t, v)) ==>
            Means(t, v))
  {
    hide Loose, Foot, FootAll, Separate, Linked, ShapedAll, Means, Rest, NodesOf, Rests;
    LooseFields(t, h);
    assert Opt(t.name) <= Foot(t);
    var copy := CopyName(h, name, key);
    ok := copy != null;
    if ok {
      if item.name != null {
        h.Free(item.name);
      }
      item.name := copy;
      RenamedIsLoose(t, copy, h);
      if old(Means(t, v)) {
        MeansRenamed(t, copy, v);
      }
    } else {
      assert h.live == old(h.live);
    }
  }

  /**
   add_item_to_object with a copied name: the object gets a last member of that name, even when it has one already.
   When the copy is refused nothing changes.
   */
  method AddItemToObject(h: Heap, parent: Node?, name: array?<Byte>, item: Node?, ghost ks: seq<Tree>,
                         ghost ms: seq<Member>, ghost t: Tree, ghost key: Bytes, ghost v: Value)
    returns (ok: bool)
    requires parent != null ==> Owns(parent, ks, h)
    requires item != null ==> item == t.node && Loose(t, h)
    requires parent != null && item != null ==> Foreign(parent, ks, t)
    requires name != null ==> Spells(name, key)
    modifies h`requests, h`live, The(item)`name, The(item)`prev, The(parent)`child, Listed(parent, ks)`next
    ensures ok <==> parent != null && name != null && item != null && h.Granted(old(h.requests), h.requests)
    ensures ok ==>
              var u := Renamed(t, item.name);
              && Spells(item.name, key) && fresh(item.name) && Owns(parent, ks + [u], h)
              && h.live == old(h.live) - Opt(t.name) + {item.name}
              && (old(NamedAll(ks, ms)) && old(Means(t, v)) ==> NamedAll(ks + [u], ms + [Member(key, v)]))
    ensures !ok ==> h.live == old(h.live) && (parent != null ==> Owns(parent, ks, h)) && (item != null ==> Loose(t, h))
  {
    if parent == null || name == null || item == null {
      return false;
    }
    hide Owns, Loose, Foot, FootAll, Means, NamedAll, Rests, NodesOf, Spells, Foreign, Linked, ShapedAll, SeparateAll;
    OwnsParts(parent, ks, h);
    LooseFields(t, h);
    ForeignParts(parent, ks, t);
    ok := NameItem(h, name, item, t, key, v);
    OwnsAgain(parent, ks, h);
    if ok {
      ghost var u := Renamed(t, item.name);
      FootRenamed(t, item.name);
      StillForeign(parent, ks, t, item.name);
      AddNamed(parent, item, ks, u, h, ms, Member(key, v));
    }
  }

  lemma OwnsAgain(parent: Node, ks: seq<Tree>, h: Heap)
    requires parent.child == First(ks) && Linked(ks) && ShapedAll(ks) && SeparateAll(ks)
    requires FootAll(ks) <= h.live && parent !in FootAll(ks) && h !in h.live
    ensures Owns(parent, ks, h)
  {
  }

  lemma StillForeign(parent: Node, ks: seq<Tree>, t: Tree, name: array?<Byte>)
    requires Foreign(parent, ks, t) && Separate(t) && (name != null ==> name !in FootAll(ks))
    ensures Foreign(parent, ks, Renamed(t, name))
  {
    hide Foot, FootAll, Separate;
    FootRenamed(t, name);
  }

  /** add_item_to_array on an object. */
  method AddNamed(parent: Node, item: Node, ghost ks: seq<Tree>, ghost u: Tree, ghost h: Heap, ghost ms: seq<Member>,
                  ghost m: Member)
    requires Owns(parent, ks, h) && item == u.node && Loose(u, h) && Foreign(parent, ks, u)
    modifies parent`child, NodesOf(ks)`next, item`prev
    ensures Owns(parent, ks + [u], h)
    ensures old(NamedAll(ks, ms)) && old(Means(u, m.value)) && old(KeyIs(u, Some(m.key))) ==>
            NamedAll(ks + [u], ms + [m])
  {
    hide Owns, Loose, Foot, FootAll, Means, NamedAll, Rests, NodesOf, Spells, Foreign, Linked, ShapedAll,
      SeparateAll, KeyIs;
    OwnsParts(parent, ks, h);
    LooseFields(u, h);
    ForeignParts(parent, ks, u);
    var _ := AddItemToArray(parent, item, ks, u, h, [], m.value);
    if old(NamedAll(ks, ms)) && old(Means(u, m.value)) && old(KeyIs(u, Some(m.key))) {
      NamedAppend(ks, u, ms, m);
    }
  }

  /** cJSON_DetachItemFromObject, with and without regard to case: the first member of the name comes out. */
  method DetachItemFromObject(parent: Node?, name: array?<Byte>, sensitive: bool, ghost ks: seq<Tree>,
                              ghost ms: seq<Member>,
                              ghost key: Bytes, ghost h: Heap)
    returns (detached: Node?)
    requires parent != null ==> Owns(parent, ks, h) && NamedAll(ks, ms)
    requires name != null ==> Spells(name, key)
    modifies The(parent)`child, Listed(parent, ks)`next, Listed(parent, ks)`prev
    ensures var k := FirstLike(ms, key, sensitive);
            && detached == (if parent != null && name != null && k < |ks| then ks[k].node else null)
            && (detached != null ==>
                  && |ks| == |ms| && Owns(parent, RemoveAt(ks, k), h) && Loose(ks[k], h)
                     && Foreign(parent, RemoveAt(ks, k), ks[k])
                  && NamedAll(RemoveAt(ks, k), RemoveAt(ms, k)) && Means(ks[k], ms[k].value))
    ensures detached == null && parent != null ==> Owns(parent, ks, h) && NamedAll(ks, ms)
  {
    hide Owns, Loose, Foot, FootAll, Means, NamedAll, Rests, NodesOf, Spells, Foreign, Linked, ShapedAll,
      SeparateAll, KeyIs,
      RemoveAt, FirstLike;
    if parent != null {
      OwnsParts(parent, ks, h);
    }
    var item := GetMember(parent, name, sensitive, ks, ms, key, h);
    ghost var k := FirstLike(ms, key, sensitive);
    detached := DetachItemViaPointer(parent, item, ks, k, h, []);
    if detached != null {
      NamedRemove(ks, k, ms);
    }
  }

  /** cJSON_DeleteItemFromObject, with and without regard to case. */
  method DeleteItemFromObject(h: Heap, parent: Node?, name: array?<Byte>, sensitive: bool, ghost ks: seq<Tree>,
                              ghost ms: seq<Member>,
                              ghost key: Bytes)
    requires parent != null ==> Owns(parent, ks, h) && NamedAll(ks, ms)
    requires name != null ==> Spells(name, key)
    modifies The(parent)`child, Listed(parent, ks)`next, Listed(parent, ks)`prev, h`live
    ensures var k := FirstLike(ms, key, sensitive);
            if parent != null && name != null && k < |ks| then
              && |ks| == |ms| && Owns(parent, RemoveAt(ks, k), h) && NamedAll(RemoveAt(ks, k), RemoveAt(ms, k))
              && h.live == old(h.live) - Foot(ks[k])
            else
              h.live == old(h.live) && (parent != null ==> Owns(parent, ks, h) && NamedAll(ks, ms))
  {
    hide Owns, Loose, Foot, FootAll, Means, NamedAll, Rests, NodesOf, Spells, Foreign, Linked, ShapedAll,
      SeparateAll, KeyIs,
      RemoveAt, FirstLike;
    var item := DetachItemFromObject(parent, name, sensitive, ks, ms, key, h);
    if item != null {
      ghost var k := FirstLike(ms, key, sensitive);
      OwnsParts(parent, RemoveAt(ks, k), h);
      DeleteDetached(h, item, parent, ks[k], RemoveAt(ks, k));
    }
  }

  /**
   replace_item_in_object. It reports success whenever there is a name and a replacement, even when no member has the
   name; then the replacement only changes its own name. When the copy of the name is refused, the object gets a
   member without a name. `dangling` says whether the name is copied from a block that the call has freed before; that
   is so exactly when the name is the replacement's own name block, and then nothing is promised.
   */
  method ReplaceItemInObject(h: Heap, parent: Node?, name: array?<Byte>, replacement: Node?, sensitive: bool,
                             ghost ks: seq<Tree>, ghost ms: seq<Member>, ghost t: Tree, ghost key: Bytes,
                             ghost v: Value)
    returns (ok: bool, ghost dangling: bool)
    requires parent != null ==> Owns(parent, ks, h) && NamedAll(ks, ms)
    requires replacement != null ==> replacement == t.node && Loose(t, h)
    requires parent != null && replacement != null ==> Foreign(parent, ks, t)
    requires name != null ==> Spells(name, key)
    modifies h`requests, h`live, The(replacement)`name, The(replacement)`next, The(replacement)`prev
    modifies The(parent)`child, Listed(parent, ks)`next, Listed(parent, ks)`prev
    ensures ok <==> name != null && replacement != null
    ensures !ok ==> h.live == old(h.live) && h.requests == old(h.requests) && (parent != null ==> Owns(parent, ks, h))
    ensures dangling <==> ok && name == old(replacement.name)
    ensures ok && !dangling ==>
              var k := FirstLike(ms, key, sensitive);
              var u := Renamed(t, replacement.name);
              var named := h.grants(old(h.requests));
              && h.requests == old(h.requests) + 1 && (KeyIs(u, Some(key)) <==> named) && (u.name == null <==> !named)
              && (if parent != null && k < |ks| then
                    && Owns(parent, ks[k := u], h) && h.live == old(h.live) - Opt(t.name) + Opt(u.name) - Foot(ks[k])
                    && (old(Means(t, v)) ==> |ms| == |ks| && (NamedAll(ks[k := u], ms[k := Member(key, v)]) <==> named))
                  else
                    && Loose(u, h) && h.live == old(h.live) - Opt(t.name) + Opt(u.name)
                    && (parent != null ==> Owns(parent, ks, h) && NamedAll(ks, ms)))
  {
    if replacement == null || name == null {
      return false, false;
    }
    NameOfLoose(t, h);
    hide Owns, Loose, Foot, FootAll, Means, NamedAll, NodesOf, Spells, Foreign, FirstLike, KeyIs;
    dangling := RenameBeside(h, parent, name, replacement, ks, ms, t, key, v);
    ReplaceNamed(h, parent, name, replacement, sensitive, ks, ms, Renamed(t, replacement.name), key, v);
    ok := true;
  }

  /** The change of the replacement's name, beside the object. */
  method RenameBeside(h: Heap, parent: Node?, name: array<Byte>, item: Node, ghost ks: seq<Tree>, ghost ms: seq<Member>,
                      ghost t: Tree, ghost key: Bytes, ghost v: Value)
    returns (ghost dangling: bool)
    requires parent != null ==> Owns(parent, ks, h) && NamedAll(ks, ms) && Foreign(parent, ks, t)
    requires item == t.node && Loose(t, h) && Spells(name, key)
    modifies h`requests, h`live, item`name
    ensures dangling <==> name == t.name
    ensures h.requests == old(h.requests) + 1
    ensures KeyIs(Renamed(t, item.name), Some(key)) <==> h.grants(old(h.requests))
    ensures item.name == null <==> !h.grants(old(h.requests))
    ensures h.live == old(h.live) - Opt(t.name) + Opt(item.name)
    ensures Loose(Renamed(t, item.name), h) && (old(Means(t, v)) ==> Means(Renamed(t, item.name), v))
    ensures parent != null ==> Owns(parent, ks, h) && NamedAll(ks, ms) && Foreign(parent, ks, Renamed(t, item.name))
  {
    hide Owns, Loose, Foot, FootAll, Means, NamedAll, Rests, NodesOf, Spells, Foreign, Linked, ShapedAll,
      SeparateAll, Separate, Rest,
      KeyIs;
    if parent != null {
      OwnsParts(parent, ks, h);
      ForeignParts(parent, ks, t);
    }
    LooseFields(t, h);
    dangling := Rename(h, name, item, t, key, v);
    if parent != null {
      FootRenamed(t, item.name);
      StillForeign(parent, ks, t, item.name);
      OwnsAgain(parent, ks, h);
    }
  }

  lemma NameOfLoose(t: Tree, h: Heap)
    requires Loose(t, h)
    ensures t.node.name == t.name
  {
  }

  /** An item that is to replace the member of its own name, under that name: its name is freed and then copied. */
  method ReplaceUnderOwnName(h: Heap, parent: Node?, replacement: Node, sensitive: bool, ghost ks: seq<Tree>,
                             ghost ms: seq<Member>, ghost t: Tree, ghost key: Bytes)
    returns (ghost dangling: bool)
    requires parent != null ==> Owns(parent, ks, h) && NamedAll(ks, ms) && Foreign(parent, ks, t)
    requires replacement == t.node && Loose(t, h) && replacement.name != null && Spells(replacement.name, key)
    modifies h`requests, h`live, replacement`name, replacement`next, replacement`prev
    modifies The(parent)`child, Listed(parent, ks)`next, Listed(parent, ks)`prev
    ensures dangling
  {
    var ok;
    ok, dangling := ReplaceItemInObject(h, parent, replacement.name, replacement, sensitive, ks, ms, t, key, Null);
  }

  /** cJSON_ReplaceItemViaPointer on the first member of the name. */
  method ReplaceNamed(h: Heap, parent: Node?, name: array<Byte>, replacement: Node, sensitive: bool,
                      ghost ks: seq<Tree>, ghost ms: seq<Member>, ghost u: Tree, ghost key: Bytes, ghost v: Value)
    requires parent != null ==> Owns(parent, ks, h) && NamedAll(ks, ms) && Foreign(parent, ks, u)
    requires replacement == u.node && Loose(u, h) && Spells(name, key)
    modifies h`live, replacement`next, replacement`prev, The(parent)`child, Listed(parent, ks)`next,
             Listed(parent, ks)`prev
    ensures var k := FirstLike(ms, key, sensitive);
            if parent != null && k < |ks| then
              && Owns(parent, ks[k := u], h) && h.live == old(h.live) - Foot(ks[k]) && |ms| == |ks|
              && (old(Means(u, v)) ==> (NamedAll(ks[k := u], ms[k := Member(key, v)]) <==> KeyIs(u, Some(key))))
            else
              Loose(u, h) && h.live == old(h.live) && (parent != null ==> Owns(parent, ks, h) && NamedAll(ks, ms))
    ensures KeyIs(u, Some(key)) == old(KeyIs(u, Some(key)))
  {
    hide Owns, Loose, Foot, FootAll, Means, NamedAll, Rests, NodesOf, Spells, Foreign, Linked, ShapedAll,
      SeparateAll, Separate, Rest,
      FirstLike;
    ghost var k := FirstLike(ms, key, sensitive);
    if parent != null {
      OwnsParts(parent, ks, h);
      ForeignParts(parent, ks, u);
      ForeignNode(parent, ks, u, k);
    }
    LooseFields(u, h);
    var item := GetMember(parent, name, sensitive, ks, ms, key, h);
    var _ := ReplaceItemViaPointer(parent, item, replacement, ks, k, u, h, [], v);
    if parent != null && k < |ks| && old(Means(u, v)) {
      NamedReplace(ks, k, u, ms, Member(key, v));
    }
  }

  lemma NamedReplace(ks: seq<Tree>, k: nat, u: Tree, ms: seq<Member>, m: Member)
    requires NamedAll(ks, ms) && k < |ks| && Means(u, m.value)
    ensures |ms| == |ks| && (NamedAll(ks[k := u], ms[k := m]) <==> KeyIs(u, Some(m.key)))
  {
    hide Means, KeyIs;
    assert ks[k := u][k] == u;
  }

  lemma Nameless(u: Tree, key: Bytes)
    requires u.name == null
    ensures !KeyIs(u, Some(key))
  {
  }

  /** The change of the replacement's name: the old one is freed first. */
  method Rename(h: Heap, name: array<Byte>, item: Node, ghost t: Tree, ghost key: Bytes, ghost v: Value)
    returns (ghost dangling: bool)
    requires item == t.node && Loose(t, h) && Spells(name, key)
    modifies h`requests, h`live, item`name
    ensures dangling <==> name == t.name
    ensures h.requests == old(h.requests) + 1 && h !in h.live
    ensures KeyIs(Renamed(t, item.name), Some(key)) <==> h.grants(old(h.requests))
    ensures item.name == null <==> !h.grants(old(h.requests))
    ensures fresh(Opt(item.name)) && h.live == old(h.live) - Opt(t.name) + Opt(item.name)
    ensures Loose(Renamed(t, item.name), h) && (old(Means(t, v)) ==> Means(Renamed(t, item.name), v))
  {
    hide Loose, Foot, FootAll, Separate, Linked, ShapedAll, Means, Rest, NodesOf, Rests, Spells, IsText, SameText;
    LooseFields(t, h);
    if item.name != null {
      h.Free(item.name);
    }
    dangling := name in old(h.live) && name !in h.live;
    item.name := CopyName(h, name, key);
    if item.name == null {
      Nameless(Renamed(t, null), key);
    }
    RenamedIsLoose(t, item.name, h);
    if old(Means(t, v)) {
      MeansRenamed(t, item.name, v);
    }
  }
}
