/** case_insensitive_strcmp, get_object_item and cJSON_Compare on the heap. */
module ItemComparison {
  import opened Text
  import opened Values
  import opened Nodes
  import opened Comparison

  // ---------- names ----------

  /** The bytes of a block that spells a string. */
  lemma SpelledBytes(a: array<Byte>, s: Bytes)
    requires Spells(a, s)
    ensures |s| < a.Length && a[|s|] == 0 && forall i | 0 <= i < |s| :: a[i] == s[i] != 0
  {
    assert forall i | 0 <= i < |s| :: a[..|s|][i] == s[i];
  }

  /** A block spells one string only. */
  lemma SpellsOnce(a: array<Byte>, s: Bytes, t: Bytes)
    requires Spells(a, s) && Spells(a, t)
    ensures s == t
  {
    SpelledBytes(a, s);
    SpelledBytes(a, t);
    assert |s| == |t|;
  }

  /** strcmp, as far as its callers look at its result. */
  method StrCmp(a: array<Byte>, b: array<Byte>, ghost s: Bytes, ghost t: Bytes) returns (r: int)
    requires Spells(a, s) && Spells(b, t)
    ensures r == 0 <==> s == t
  {
    SpelledBytes(a, s);
    SpelledBytes(b, t);
    var i := 0;
    while a[i] == b[i] && a[i] != 0
      invariant 0 <= i <= |s| && i <= |t| && s[..i] == t[..i]
      decreases |s| - i
    {
      i := i + 1;
    }
    r := a[i] as int - b[i] as int;
    assert r != 0 && i < |s| && i < |t| ==> s[i] != t[i];
  }

  /** case_insensitive_strcmp: zero exactly when both strings are there and the same up to the case of letters. */
  method CaseInsensitiveStrcmp(a: array?<Byte>, b: array?<Byte>, ghost s: Bytes, ghost t: Bytes) returns (r: int)
    requires (a != null ==> Spells(a, s)) && (b != null ==> Spells(b, t))
    ensures r == 0 <==> a != null && b != null && SameName(s, t, false)
  {
    if a == null || b == null {
      return 1;
    }
    if a == b {
      SpellsOnce(a, s, t);
      return 0;
    }
    SpelledBytes(a, s);
    SpelledBytes(b, t);
    FoldAlike(s, t, false);
    var i := 0;
    while Lower(a[i]) == Lower(b[i])
      invariant 0 <= i <= |s| && i <= |t| && Fold(s, false)[..i] == Fold(t, false)[..i]
      decreases |s| - i
    {
      if a[i] == 0 {
        assert i == |s| && i == |t|;
        return 0;
      }
      i := i + 1;
    }
    r := Lower(a[i]) as int - Lower(b[i]) as int;
    assert i < |s| && i < |t| ==> Fold(s, false)[i] != Fold(t, false)[i];
  }

  // ---------- lookup ----------

  /** The name of a member and the block that holds it. */
  lemma NameOf(ks: seq<Tree>, ms: seq<Member>, i: nat)
    requires ShapedAll(ks) && NamedAll(ks, ms) && i < |ks|
    ensures |ms| == |ks| && ks[i].node.name != null && Spells(ks[i].node.name, ms[i].key)
  {
    assert Shaped(ks[i]) && KeyIs(ks[i], Some(ms[i].key));
  }

  /** The names of some items, where they have one. */
  ghost predicate Keyed(ks: seq<Tree>, keys: seq<Option<Bytes>>)
    reads Rests(ks)
  {
    |ks| == |keys| && forall i | 0 <= i < |ks| :: (assert ks[i].name != null ==>
      ks[i].name in Rest(ks[i]); KeyIs(ks[i], keys[i]))
  }

  /** The index of the first child of the name, or the number of children; missing names are passed over. */
  function FirstKey(keys: seq<Option<Bytes>>, key: Bytes, sensitive: bool): (k: nat)
    ensures k <= |keys|
    ensures k < |keys| ==> keys[k].Some? && SameName(keys[k].value, key, sensitive)
    ensures forall j | 0 <= j < k :: keys[j].Some? ==> !SameName(keys[j].value, key, sensitive)
  {
    if keys == [] then 0
    else if keys[0].Some? && SameName(keys[0].value, key, sensitive) then 0
    else
      var k := 1 + FirstKey(keys[1..], key, sensitive);
      assert forall j | 0 < j < k :: keys[j] == keys[1..][j - 1];
      k
  }

  function KeysOf(ms: seq<Member>): seq<Option<Bytes>> {
    seq(|ms|, i requires 0 <= i < |ms| => Some(ms[i].key))
  }

  /** In an object whose members all have names the search finds what `FirstLike` says. */
  lemma KeysOfMembers(ks: seq<Tree>, ms: seq<Member>, key: Bytes, sensitive: bool)
    requires NamedAll(ks, ms)
    ensures Keyed(ks, KeysOf(ms))
            && FirstKey(KeysOf(ms), key, sensitive) == FirstLike(ms, key, sensitive)
    ensures |KeysOf(ms)| == |ms| && forall i | 0 <= i < |KeysOf(ms)| :: KeysOf(ms)[i].Some?
  {
    hide SameName, FirstLike;
    assert forall i | 0 <= i < |ms| :: KeysOf(ms)[i] == Some(ms[i].key);
    FirstLikeIs(ms, key, sensitive, FirstKey(KeysOf(ms), key, sensitive));
  }

  /** The test of one child in get_object_item; strcmp needs the name of the child. */
  method NameMatches(name: array<Byte>, item: Node, sensitive: bool, ghost key: Bytes,
                     ghost other: Option<Bytes>) returns (same: bool)
    requires Spells(name, key) && (sensitive ==> other.Some?)
    requires match other case None => item.name == null case Some(s) => Spells(item.name, s)
    ensures same <==> other.Some? && SameName(other.value, key, sensitive)
  {
    var r;
    ghost var s := match other case None => [] case Some(s) => s;
    if sensitive {
      r := StrCmp(name, item.name, key, s);
    } else {
      r := CaseInsensitiveStrcmp(name, item.name, key, s);
    }
    same := r == 0;
  }

  /** The name of a child, where the search has come to. */
  lemma KeyAt(ks: seq<Tree>, keys: seq<Option<Bytes>>, i: nat)
    requires ShapedAll(ks) && Keyed(ks, keys) && i < |ks|
    ensures |keys| == |ks|
            && match keys[i] case None => ks[i].node.name == null case Some(s) => Spells(ks[i].node.name, s)
  {
    assert Shaped(ks[i]) && KeyIs(ks[i], keys[i]);
  }

  /** The search with regard to case compares with a missing name: one stands in front of the first match. */
  predicate MeetsNameless(keys: seq<Option<Bytes>>, key: Bytes, sensitive: bool) {
    sensitive && exists i | 0 <= i < FirstKey(keys, key, sensitive) :: keys[i].None?
  }

  predicate NamedBefore(keys: seq<Option<Bytes>>, i: nat) {
    i <= |keys| && forall j | 0 <= j < i :: keys[j].Some?
  }

  lemma NamedUpTo(keys: seq<Option<Bytes>>, i: nat)
    ensures NamedBefore(keys, 0)
    ensures i < |keys| && NamedBefore(keys, i) && keys[i].Some? ==> NamedBefore(keys, i + 1)
  {
  }

  lemma NamelessAt(keys: seq<Option<Bytes>>, key: Bytes, i: nat)
    requires i < |keys| && i <= FirstKey(keys, key, true) && keys[i].None?
    ensures MeetsNameless(keys, key, true)
  {
  }

  lemma NamedThroughout(keys: seq<Option<Bytes>>, key: Bytes, sensitive: bool)
    requires sensitive ==> NamedBefore(keys, FirstKey(keys, key, sensitive))
    ensures !MeetsNameless(keys, key, sensitive)
  {
  }

  /** Any search with regard to case in a list whose first child has no name is such a search. */
  lemma NamelessFirst(keys: seq<Option<Bytes>>, key: Bytes)
    requires |keys| > 0 && keys[0].None?
    ensures MeetsNameless(keys, key, true)
  {
    NamelessAt(keys, key, 0);
  }

  /**
   get_object_item: the first child whose name matches. `nameless` says whether the call hands a missing name to
   strcmp, which only the search with regard to case does; then nothing else is promised.
   */
  method GetObjectItem(parent: Node?, name: array?<Byte>, sensitive: bool, ghost ks: seq<Tree>,
                       ghost keys: seq<Option<Bytes>>, ghost key: Bytes, ghost h: Heap)
    returns (item: Node?, nameless: bool)
    requires parent != null ==> parent.child == First(ks) && Linked(ks) && ShapedAll(ks) && Keyed(ks, keys)
    requires parent != null ==> FootAll(ks) <= h.live
    requires name != null ==> Spells(name, key)
    ensures nameless <==> parent != null && name != null && MeetsNameless(keys, key, sensitive)
    ensures parent == null || name == null ==> item == null
    ensures parent != null && name != null && !nameless ==>
              var k := FirstKey(keys, key, sensitive);
              |keys| == |ks| && item == if k < |ks| then ks[k].node else null
  {
    nameless := false;
    if parent == null || name == null {
      return null, false;
    }
    hide ShapedAll, Keyed, Spells, SameName, FootAll, Rests, Linked, NodesOf, FirstKey, MeetsNameless,
      NamedBefore;
    RestsInFoot(ks);
    item := parent.child;
    KeyedLength(ks, keys);
    ghost var i: nat := 0;
    ghost var k := FirstKey(keys, key, sensitive);
    NamedUpTo(keys, 0);
    var found := false;
    while item != null && !found
      invariant i <= k && item == (if i < |ks| then ks[i].node else null)
      invariant found ==> i == k < |ks|
      invariant Linked(ks) && ShapedAll(ks) && Keyed(ks, keys)
      invariant !nameless && (sensitive ==> NamedBefore(keys, i))
      decreases |ks| - i, !found
    {
      KeyAt(ks, keys, i);
      if sensitive && item.name == null {
        NamelessAt(keys, key, i);
        return null, true;
      }
      found := NameMatches(name, item, sensitive, key, keys[i]);
      if !found {
        NextOf(ks, i);
        NamedUpTo(keys, i);
        item := item.next;
        i := i + 1;
      }
    }
    NamedThroughout(keys, key, sensitive);
  }

  /** The same search in an object whose members all have names. */
  method GetMember(parent: Node?, name: array?<Byte>, sensitive: bool, ghost ks: seq<Tree>, ghost ms: seq<Member>,
                   ghost key: Bytes, ghost h: Heap)
    returns (item: Node?)
    requires parent != null ==> parent.child == First(ks) && Linked(ks) && ShapedAll(ks) && NamedAll(ks, ms)
    requires parent != null ==> FootAll(ks) <= h.live
    requires name != null ==> Spells(name, key)
    ensures parent == null || name == null ==> item == null
    ensures parent != null && name != null ==>
              var k := FirstLike(ms, key, sensitive);
              |ms| == |ks| && item == if k < |ks| then ks[k].node else null
  {
    hide ShapedAll, NamedAll, Keyed, Spells, FootAll, Linked, FirstKey, FirstLike, KeysOf, SameName;
    if parent == null {
      return null;
    }
    KeysOfMembers(ks, ms, key, sensitive);
    var nameless;
    item, nameless := GetObjectItem(parent, name, sensitive, ks, KeysOf(ms), key, h);
  }

  lemma KeyedLength(ks: seq<Tree>, keys: seq<Option<Bytes>>)
    requires Keyed(ks, keys)
    ensures |ks| == |keys|
  {
  }

  // ---------- comparison ----------

  /** An item that is there denotes the value, and its blocks are live. */
  ghost predicate Operand(item: Node?, t: Tree, v: Value, h: Heap)
    reads h`live, Foot(t)
  {
    FootOfRest(t);
    item != null ==> t.node == item && Shaped(t) && Means(t, v) && Foot(t) <= h.live
  }

  // ---------- items of one tree ----------

  /** u hangs somewhere below t. */
  ghost predicate Below(u: Tree, t: Tree)
    decreases t
  {
    exists i | 0 <= i < |t.kids| :: u == t.kids[i] || Below(u, t.kids[i])
  }

  /** Two trees that share nothing, or one of which hangs below the other: all that two items of one tree can be. */
  ghost predicate Apart(t: Tree, u: Tree) {
    Foot(t) !! Foot(u) || (Separate(t) && Below(u, t)) || (Separate(u) && Below(t, u))
  }

  lemma {:induction false} BelowFoot(u: Tree, t: Tree)
    requires Below(u, t)
    ensures Foot(u) <= FootAll(t.kids)
    decreases t
  {
    hide Foot, FootAll;
    var i :| 0 <= i < |t.kids| && (u == t.kids[i] || Below(u, t.kids[i]));
    FootSplit(t.kids, i);
    if u != t.kids[i] {
      BelowFoot(u, t.kids[i]);
      KidFoot(t.kids[i]);
    }
  }

  lemma KidFoot(t: Tree)
    ensures FootAll(t.kids) <= Foot(t) && t.node in Foot(t)
    ensures Separate(t) ==> t.node !in FootAll(t.kids)
  {
  }

  lemma {:induction false} BelowKid(u: Tree, t: Tree, j: nat)
    requires Below(u, t) && j < |u.kids|
    ensures Below(u.kids[j], t)
    decreases t
  {
    var i :| 0 <= i < |t.kids| && (u == t.kids[i] || Below(u, t.kids[i]));
    if u == t.kids[i] {
      assert Below(u.kids[j], t.kids[i]);
    } else {
      BelowKid(u, t.kids[i], j);
    }
  }

  lemma ApartNodes(t: Tree, u: Tree)
    requires Apart(t, u)
    ensures t.node != u.node
  {
    hide Foot, FootAll, Separate;
    KidFoot(t);
    KidFoot(u);
    if Below(u, t) {
      BelowFoot(u, t);
    }
    if Below(t, u) {
      BelowFoot(t, u);
    }
  }

  /** A child of the upper tree and one of the lower tree are apart again: their depths keep their difference. */
  lemma NestedKids(t: Tree, u: Tree, i: nat, j: nat)
    requires Separate(t) && Below(u, t) && i < |t.kids| && j < |u.kids|
    ensures Foot(t.kids[i]) !! Foot(u.kids[j]) || (Separate(t.kids[i]) && Below(u.kids[j], t.kids[i]))
  {
    hide Foot, FootAll;
    var m :| 0 <= m < |t.kids| && (u == t.kids[m] || Below(u, t.kids[m]));
    if u == t.kids[m] {
      assert Below(u.kids[j], t.kids[m]);
    } else {
      BelowKid(u, t.kids[m], j);
    }
    if m != i {
      BelowFoot(u.kids[j], t.kids[m]);
      KidFoot(t.kids[m]);
      assert Foot(t.kids[m]) !! Foot(t.kids[i]);
    }
  }

  lemma ApartKids(t: Tree, u: Tree, i: nat, j: nat)
    requires Apart(t, u) && i < |t.kids| && j < |u.kids|
    ensures Apart(t.kids[i], u.kids[j]) && t.kids[i].node != u.kids[j].node
  {
    if Foot(t) !! Foot(u) {
      hide Foot, FootAll, Separate, Below;
      FootSplit(t.kids, i);
      FootSplit(u.kids, j);
      KidFoot(t);
      KidFoot(u);
    } else if Separate(t) && Below(u, t) {
      hide Foot, FootAll, Separate, Below;
      NestedKids(t, u, i, j);
    } else {
      hide Foot, FootAll, Separate, Below;
      NestedKids(u, t, j, i);
    }
    ApartNodes(t.kids[i], u.kids[j]);
  }

  lemma ApartSwapped(t: Tree, u: Tree)
    requires Apart(t, u)
    ensures Apart(u, t)
  {
    hide Foot, Separate, Below;
  }

  /**
   cJSON_Compare: true for one and the same item, and otherwise for two items exactly when their values compare equal.
   The shortcut for identical pointers does not fire further down: two items of one tree are compared at depths that
   differ.
   */
  method CompareItems(a: Node?, b: Node?, sensitive: bool, ghost t: Tree, ghost u: Tree, ghost v: Value,
                      ghost w: Value, ghost h: Heap)
    returns (same: bool)
    requires Operand(a, t, v, h) && Operand(b, u, w, h)
    requires a != null && b != null && a != b ==> Apart(t, u)
    ensures same <==> a != null && b != null && (a == b || Compare(v, w, sensitive))
    decreases Depth(v) + Depth(w), 2
  {
    if a == null || b == null || a.kind != b.kind || a.kind == Invalid {
      if a != null && b != null {
        PartsOfTree(t, v);
        PartsOfTree(u, w);
      }
      return false;
    }
    if a == b {
      return true;
    }
    hide Foot, Shaped, Means, Linked, ShapedAll, MeanAll, NamedAll, FootAll, Spells, ListOf, MatchAll, Apart;
    PartsOfTree(t, v);
    PartsOfTree(u, w);
    OperandList(a, t, v, h);
    OperandList(b, u, w, h);
    FootOfRest(t);
    FootOfRest(u);
    match a.kind {
      case FalseKind => same := true;
      case TrueKind => same := true;
      case NullKind => same := true;
      case NumberKind => same := a.valuedouble == b.valuedouble;
      case StringKind => same := CompareStrings(a, b, v.s, w.s);
      case RawKind => same := CompareStrings(a, b, v.s, w.s);
      case ArrayKind => same := CompareElements(a, b, sensitive, t, u, v.elems, w.elems, h);
      case ObjectKind => same := CompareBothWays(a, b, sensitive, t, u, v.members, w.members, h);
    }
  }

  method CompareStrings(a: Node, b: Node, ghost s: Bytes, ghost t: Bytes) returns (same: bool)
    requires a.valuestring != null && b.valuestring != null && Spells(a.valuestring, s) && Spells(b.valuestring, t)
    ensures same <==> s == t
  {
    var r := StrCmp(a.valuestring, b.valuestring, s, t);
    same := r == 0;
  }

  /** The two loops over members. */
  method CompareBothWays(a: Node, b: Node, sensitive: bool, ghost t: Tree, ghost u: Tree, ghost ms: seq<Member>,
                         ghost ns: seq<Member>,
                         ghost h: Heap)
    returns (same: bool)
    requires ListOf(a, t, h) && ListOf(b, u, h) && NamedAll(t.kids, ms) && NamedAll(u.kids, ns)
    requires Apart(t, u)
    ensures same <==> Compare(Object(ms), Object(ns), sensitive)
    decreases Depth(Object(ms)) + Depth(Object(ns)), 1
  {
    hide Foot, FootAll, ShapedAll, NamedAll, Shaped, ListOf, MatchAll, Compare, Apart;
    ApartSwapped(t, u);
    ListParts(a, t, h);
    ListParts(b, u, h);
    CompareObjects(ms, ns, sensitive);
    same := CompareMembers(a, b, sensitive, t, u, ms, ns, h);
    if same {
      same := CompareMembers(b, a, sensitive, u, t, ns, ms, h);
    }
  }

  ghost predicate ListOf(parent: Node, t: Tree, h: Heap)
    reads parent`child, h`live, Foot(t)
  {
    FootOfRest(t);
    RestsInFoot(t.kids);
    t.node == parent && parent.child == First(t.kids) && Linked(t.kids) && ShapedAll(t.kids) && Foot(t) <= h.live
  }

  lemma OperandList(item: Node, t: Tree, v: Value, h: Heap)
    requires Operand(item, t, v, h)
    ensures ListOf(item, t, h)
  {
    PartsOfTree(t, v);
  }

  /** The pairwise comparison of two arrays. */
  method CompareElements(a: Node, b: Node, sensitive: bool, ghost t: Tree, ghost u: Tree, ghost es: seq<Value>,
                         ghost fs: seq<Value>,
                         ghost h: Heap)
    returns (same: bool)
    requires ListOf(a, t, h) && ListOf(b, u, h) && MeanAll(t.kids, es) && MeanAll(u.kids, fs)
    requires Apart(t, u)
    ensures same <==> Compare(Array(es), Array(fs), sensitive)
    decreases Depth(Array(es)) + Depth(Array(fs)), 1
  {
    hide Foot, FootAll, ShapedAll, MeanAll, Means, Operand, Shaped, ListOf, Compare, Apart;
    MeanLength(t.kids, es);
    MeanLength(u.kids, fs);
    ListParts(a, t, h);
    ListParts(b, u, h);
    var x, y := a.child, b.child;
    ghost var i: nat := 0;
    while x != null && y != null
      invariant i <= |es| && i <= |fs|
      invariant x == (if i < |es| then t.kids[i].node else null) && y == (if i < |fs| then u.kids[i].node else null)
      invariant forall k | 0 <= k < i :: Compare(es[k], fs[k], sensitive)
      invariant ListOf(a, t, h) && ListOf(b, u, h) && MeanAll(t.kids, es) && MeanAll(u.kids, fs)
      decreases |es| - i
    {
      ElemDepth(es, i);
      ElemDepth(fs, i);
      ElementOperand(a, t, h, i, es);
      ElementOperand(b, u, h, i, fs);
      ApartKids(t, u, i, i);
      same := CompareItems(x, y, sensitive, t.kids[i], u.kids[i], es[i], fs[i], h);
      if !same {
        UnequalElements(es, fs, i, sensitive);
        return;
      }
      x := x.next;
      y := y.next;
      i := i + 1;
    }
    same := x == y;
    if same {
      ElementsEqual(es, fs, sensitive);
    } else {
      UnequalLengths(es, fs, sensitive);
    }
  }

  lemma ElementsEqual(es: seq<Value>, fs: seq<Value>, sensitive: bool)
    requires |es| == |fs| && forall k | 0 <= k < |es| :: Compare(es[k], fs[k], sensitive)
    ensures Compare(Array(es), Array(fs), sensitive)
  {
  }

  lemma UnequalElements(es: seq<Value>, fs: seq<Value>, i: nat, sensitive: bool)
    requires i < |es| && i < |fs| && !Compare(es[i], fs[i], sensitive)
    ensures !Compare(Array(es), Array(fs), sensitive)
  {
  }

  lemma UnequalLengths(es: seq<Value>, fs: seq<Value>, sensitive: bool)
    requires |es| != |fs|
    ensures !Compare(Array(es), Array(fs), sensitive)
  {
  }

  lemma ListParts(parent: Node, t: Tree, h: Heap)
    requires ListOf(parent, t, h)
    ensures t.node == parent && parent.child == First(t.kids) && Linked(t.kids) && ShapedAll(t.kids)
            && Foot(t) <= h.live
    ensures Foot(t) == {t.node} + Rest(t) && FootAll(t.kids) <= Foot(t) && NodesOf(t.kids) <= Foot(t)
            && Rests(t.kids) <= Foot(t)
  {
    RestsInFoot(t.kids);
  }

  /** A child as an operand of the comparison, and where the walk goes from there. */
  lemma ChildOperand(parent: Node, t: Tree, h: Heap, i: nat, v: Value)
    requires ListOf(parent, t, h) && i < |t.kids| && Means(t.kids[i], v)
    ensures Operand(t.kids[i].node, t.kids[i], v, h) && t.kids[i].node in Foot(t.kids[i]) && Foot(t.kids[i]) <= Foot(t)
    ensures t.kids[i].node.next == if i + 1 < |t.kids| then t.kids[i + 1].node else null
  {
    hide Foot, Shaped, Means;
    ListParts(parent, t, h);
    FootSplit(t.kids, i);
    FootOfRest(t.kids[i]);
    assert LinkedAt(t.kids, i);
  }

  lemma ElementOperand(parent: Node, t: Tree, h: Heap, i: nat, es: seq<Value>)
    requires ListOf(parent, t, h) && i < |t.kids| && MeanAll(t.kids, es)
    ensures i < |es| && Operand(t.kids[i].node, t.kids[i], es[i], h) && t.kids[i].node in Foot(t.kids[i])
            && Foot(t.kids[i]) <= Foot(t)
    ensures t.kids[i].node.next == if i + 1 < |t.kids| then t.kids[i + 1].node else null
  {
    hide Foot, Means, Operand, ListOf;
    ChildOperand(parent, t, h, i, es[i]);
  }

  lemma MemberOperand(parent: Node, t: Tree, h: Heap, i: nat, ms: seq<Member>)
    requires ListOf(parent, t, h) && i < |t.kids| && NamedAll(t.kids, ms)
    ensures i < |ms| && Operand(t.kids[i].node, t.kids[i], ms[i].value, h) && t.kids[i].node in Foot(t.kids[i])
    ensures Foot(t.kids[i]) <= Foot(t)
    ensures t.kids[i].node.next == if i + 1 < |t.kids| then t.kids[i + 1].node else null
    ensures t.kids[i].node.name != null && Spells(t.kids[i].node.name, ms[i].key)
  {
    hide Foot, Means, Operand, ListOf, Spells;
    ChildOperand(parent, t, h, i, ms[i].value);
    ListParts(parent, t, h);
    NameOf(t.kids, ms, i);
  }

  /** One direction of the comparison of two objects: every member of the first has an equal partner in the second. */
  method CompareMembers(a: Node, b: Node, sensitive: bool, ghost t: Tree, ghost u: Tree, ghost ms: seq<Member>,
                        ghost ns: seq<Member>,
                        ghost h: Heap)
    returns (same: bool)
    requires ListOf(a, t, h) && ListOf(b, u, h) && NamedAll(t.kids, ms) && NamedAll(u.kids, ns)
    requires Apart(t, u)
    ensures same <==> MatchAll(ms, ns, sensitive)
    decreases Depth(Object(ms)) + Depth(Object(ns)), 0
  {
    hide Foot, FootAll, ShapedAll, NamedAll, Means, Operand, Shaped, ListOf, Compare, Spells, FirstLike, Apart;
    NamedLength(t.kids, ms);
    NamedLength(u.kids, ns);
    ListParts(a, t, h);
    ListParts(b, u, h);
    var x := a.child;
    ghost var i: nat := 0;
    while x != null
      invariant i <= |ms| && x == (if i < |ms| then t.kids[i].node else null)
      invariant forall k | 0 <= k < i :: Matches(ms, ns, k, sensitive)
      invariant ListOf(a, t, h) && ListOf(b, u, h) && NamedAll(t.kids, ms) && NamedAll(u.kids, ns)
      decreases |ms| - i
    {
      MemberOperand(a, t, h, i, ms);
      ListParts(b, u, h);
      var y := GetMember(b, x.name, sensitive, u.kids, ns, ms[i].key, h);
      if y == null {
        assert !Matches(ms, ns, i, sensitive);
        return false;
      }
      ghost var k := FirstLike(ns, ms[i].key, sensitive);
      MemberDepth(ms, i);
      MemberDepth(ns, k);
      MemberOperand(a, t, h, i, ms);
      MemberOperand(b, u, h, k, ns);
      ApartKids(t, u, i, k);
      same := CompareItems(x, y, sensitive, t.kids[i], u.kids[k], ms[i].value, ns[k].value, h);
      if !same {
        assert !Matches(ms, ns, i, sensitive);
        return;
      }
      x := x.next;
      i := i + 1;
    }
    same := true;
  }
}
