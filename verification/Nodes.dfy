/**
 cJSON nodes on the heap. A ghost `Tree` records which nodes and string blocks make up an item; whether the heap
 agrees with it is `Shaped`, and which value it denotes is `Means`.
 */
module Nodes {
  import opened Text
  import opened Values

  datatype Kind = Invalid | FalseKind | TrueKind | NullKind | NumberKind | StringKind | ArrayKind | ObjectKind | RawKind

  /** struct cJSON; `name` is its field `string`. A new item is zeroed. */
  class Node {
    var next: Node?
    var prev: Node?
    var child: Node?
    var kind: Kind
    var valuestring: array?<Byte>
    var valueint: int
    var valuedouble: real
    var name: array?<Byte>

    constructor ()
      ensures next == prev == child == null && kind == Invalid
      ensures valuestring == name == null && valueint == 0 && valuedouble == 0.0
    {
      next, prev, child := null, null, null;
      kind := Invalid;
      valuestring, name := null, null;
      valueint, valuedouble := 0, 0.0;
    }
  }

  /**
   The allocator behind the hooks. Request number n succeeds exactly when `grants(n)`; `live` holds the blocks that
   have been handed out and not yet freed.
   */
  class Heap {
    const grants: nat -> bool
    /** whether the hooks have a realloc */
    const reallocates: bool
    var requests: nat
    ghost var live: set<object>

    constructor (grants: nat -> bool, reallocates: bool)
      ensures this.grants == grants && this.reallocates == reallocates && requests == 0 && live == {}
    {
      this.grants, this.reallocates := grants, reallocates;
      requests := 0;
      live := {};
    }

    /** Every request from number a up to b was granted. */
    ghost predicate Granted(a: nat, b: nat) {
      forall k | a <= k < b :: grants(k)
    }

    /** cJSON_New_Item */
    method NewItem() returns (n: Node?)
      requires this !in live
      modifies this`requests, this`live
      ensures requests == old(requests) + 1 && this !in live
      ensures n != null <==> grants(old(requests))
      ensures n == null ==> live == old(live)
      ensures n != null ==> fresh(n) && live == old(live) + {n}
      ensures n != null ==> n.next == n.prev == n.child == null && n.kind == Invalid
                            && n.valuestring == n.name == null && n.valueint == 0 && n.valuedouble == 0.0
    {
      n := null;
      if grants(requests) {
        n := new Node();
        live := live + {n};
      }
      requests := requests + 1;
    }

    method NewBytes(size: nat) returns (a: array?<Byte>)
      requires this !in live
      modifies this`requests, this`live
      ensures requests == old(requests) + 1 && this !in live
      ensures a != null <==> grants(old(requests))
      ensures a == null ==> live == old(live)
      ensures a != null ==> fresh(a) && a.Length == size && live == old(live) + {a}
    {
      a := null;
      if grants(requests) {
        a := new Byte[size];
        live := live + {a};
      }
      requests := requests + 1;
    }

    /**
     realloc to a block of `size` bytes that starts with what fits of the old one; when it fails the old one stays.
     */
    method Realloc(a: array<Byte>, size: nat) returns (b: array?<Byte>)
      requires a in live && this !in live
      modifies this`requests, this`live
      ensures requests == old(requests) + 1 && this !in live
      ensures b != null <==> grants(old(requests))
      ensures b == null ==> live == old(live)
      ensures b != null ==> fresh(b) && b.Length == size && live == old(live) - {a} + {b}
      ensures b != null ==> forall i | 0 <= i < size && i < a.Length :: b[i] == a[i]
    {
      b := null;
      if grants(requests) {
        b := new Byte[size](i requires i >= 0 reads a => if i < a.Length then a[i] else 0);
        live := live - {a} + {b};
      }
      requests := requests + 1;
    }

    /** Freeing a block that is not live, or freeing it twice, is ruled out. */
    method Free(o: object)
      requires o in live
      modifies this`live
      ensures live == old(live) - {o}
    {
      live := live - {o};
    }
  }

  /** Requests are granted in a row when they are granted in two parts. */
  lemma GrantedSplit(h: Heap, a: nat, b: nat, c: nat)
    requires a <= b <= c
    ensures h.Granted(a, c) <==> h.Granted(a, b) && h.Granted(b, c)
  {
  }

  // ---------- trees ----------

  datatype Tree = Tree(node: Node, text: array?<Byte>, name: array?<Byte>, kids: seq<Tree>)

  ghost function Opt(a: array?<Byte>): set<object> {
    if a == null then {} else {a}
  }

  /** Everything a tree owns besides its root node. */
  ghost function Rest(t: Tree): set<object>
    decreases t, 1
  {
    Opt(t.text) + Opt(t.name) + FootAll(t.kids)
  }

  ghost function Foot(t: Tree): set<object>
    decreases t, 2
  {
    {t.node} + Rest(t)
  }

  ghost function FootAll(ks: seq<Tree>): set<object>
    decreases ks, 0
  {
    set i, o | 0 <= i < |ks| && o in Foot(ks[i]) :: o
  }

  ghost function NodesOf(ks: seq<Tree>): set<Node> {
    set i | 0 <= i < |ks| :: ks[i].node
  }

  ghost function Rests(ks: seq<Tree>): set<object> {
    set i, o | 0 <= i < |ks| && o in Rest(ks[i]) :: o
  }

  lemma RestsInFoot(ks: seq<Tree>)
    ensures Rests(ks) <= FootAll(ks) && NodesOf(ks) <= FootAll(ks) && FootAll(ks) == NodesOf(ks) + Rests(ks)
  {
    forall i | 0 <= i < |ks| ensures Foot(ks[i]) == {ks[i].node} + Rest(ks[i]) {}
  }

  ghost function First(ks: seq<Tree>): Node? {
    if ks == [] then null else ks[0].node
  }

  /** No block occurs twice in the tree. */
  ghost predicate Separate(t: Tree) {
    && t.node !in Rest(t)
    && (t.text != null ==> t.text != t.name && t.text !in FootAll(t.kids))
    && (t.name != null ==> t.name !in FootAll(t.kids))
    && SeparateAll(t.kids)
  }

  ghost predicate SeparateAll(ks: seq<Tree>) {
    && (forall i | 0 <= i < |ks| :: Separate(ks[i]))
    && (forall i, j | 0 <= i < j < |ks| :: Foot(ks[i]) !! Foot(ks[j]))
  }

  /** The neighbours of the node at index i of a list. */
  ghost predicate LinkedAt(ks: seq<Tree>, i: nat)
    requires i < |ks|
    reads ks[i].node`next, ks[i].node`prev
  {
    && ks[i].node.next == (if i + 1 < |ks| then ks[i + 1].node else null)
    && ks[i].node.prev == (if i > 0 then ks[i - 1].node else null)
  }

  /** The nodes of a list are chained both ways; the first one has no predecessor. */
  ghost predicate Linked(ks: seq<Tree>)
    reads NodesOf(ks)`next, NodesOf(ks)`prev
  {
    forall i | 0 <= i < |ks| :: LinkedAt(ks, i)
  }

  /** A string block, where there is one, holds a C string. */
  ghost predicate IsText(a: array?<Byte>)
    reads a
  {
    a != null ==> NUL in a[..]
  }

  /** The pointers of the tree lead where the ghost tree says. */
  ghost predicate Shaped(t: Tree)
    reads t.node`child, t.node`valuestring, t.node`name, Rest(t)
    decreases t, 1
  {
    RestsInFoot(t.kids);
    && t.node.child == First(t.kids) && t.node.valuestring == t.text && t.node.name == t.name
    && IsText(t.text) && IsText(t.name) && Linked(t.kids) && ShapedAll(t.kids)
  }

  ghost predicate ShapedAll(ks: seq<Tree>)
    reads NodesOf(ks)`child, NodesOf(ks)`valuestring, NodesOf(ks)`name, Rests(ks)
    decreases ks, 0
  {
    forall i | 0 <= i < |ks| :: Shaped(ks[i])
  }

  /** The block holds the C string s. */
  ghost predicate Spells(a: array?<Byte>, s: Bytes)
    reads a
  {
    a != null && |s| < a.Length && 0 !in s && a[..|s|] == s && a[|s|] == 0
  }

  lemma SpellsIsText(a: array?<Byte>, s: Bytes)
    requires Spells(a, s)
    ensures IsText(a)
  {
    assert a[..][|s|] == NUL;
  }

  ghost predicate KeyIs(t: Tree, key: Option<Bytes>)
    reads t.name
  {
    match key
    case None => t.name == null
    case Some(s) => Spells(t.name, s)
  }

  /** The value an item denotes. */
  ghost predicate Means(t: Tree, v: Value)
    reads t.node`kind, t.node`valuedouble, Rest(t)
    decreases t, 1
  {
    RestsInFoot(t.kids);
    match v
    case Null => t.node.kind == NullKind && t.kids == []
    case False => t.node.kind == FalseKind && t.kids == []
    case True => t.node.kind == TrueKind && t.kids == []
    case Number(n) => t.node.kind == NumberKind && t.node.valuedouble == n && t.kids == []
    case String(s) => t.node.kind == StringKind && Spells(t.text, s) && t.kids == []
    case Raw(s) => t.node.kind == RawKind && Spells(t.text, s) && t.kids == []
    case Array(es) => t.node.kind == ArrayKind && MeanAll(t.kids, es)
    case Object(ms) => t.node.kind == ObjectKind && NamedAll(t.kids, ms)
  }

  ghost predicate MeanAll(ks: seq<Tree>, es: seq<Value>)
    reads NodesOf(ks)`kind, NodesOf(ks)`valuedouble, Rests(ks)
    decreases ks, 0
  {
    |ks| == |es| && forall i | 0 <= i < |ks| :: Means(ks[i], es[i])
  }

  ghost predicate NamedAll(ks: seq<Tree>, ms: seq<Member>)
    reads NodesOf(ks)`kind, NodesOf(ks)`valuedouble, Rests(ks)
    decreases ks, 0
  {
    |ks| == |ms| && forall i | 0 <= i < |ks| ::
      (assert ks[i].name != null ==> ks[i].name in Rest(ks[i]); KeyIs(ks[i], Some(ms[i].key)))
        && Means(ks[i], ms[i].value)
  }

  /** What an item of each kind consists of. */
  lemma PartsOfTree(t: Tree, v: Value)
    requires Shaped(t) && Means(t, v)
    ensures match t.node.kind
            case NullKind => v.Null?
            case FalseKind => v.False?
            case TrueKind => v.True?
            case NumberKind => v == Number(t.node.valuedouble)
            case StringKind => v.String? && t.node.valuestring == t.text && t.text != null && t.text in Foot(t)
              && Spells(t.text, v.s)
            case RawKind => v.Raw? && t.node.valuestring == t.text && t.text != null && t.text in Foot(t)
              && Spells(t.text, v.s)
            case ArrayKind => v.Array? && MeanAll(t.kids, v.elems)
            case ObjectKind => v.Object? && NamedAll(t.kids, v.members)
            case Invalid => false
    ensures t.node.child == First(t.kids) && Linked(t.kids) && ShapedAll(t.kids) && FootAll(t.kids) <= Foot(t)
  {
    hide Linked, ShapedAll, FootAll, MeanAll, NamedAll;
  }

  // ---------- lists of trees ----------

  lemma FootConcat(a: seq<Tree>, b: seq<Tree>)
    ensures FootAll(a + b) == FootAll(a) + FootAll(b)
  {
    hide Foot;
    var ks := a + b;
    forall o | o in FootAll(b) ensures o in FootAll(ks) {
      var j :| 0 <= j < |b| && o in Foot(b[j]);
      assert ks[|a| + j] == b[j];
    }
    forall o | o in FootAll(a) ensures o in FootAll(ks) {
      var j :| 0 <= j < |a| && o in Foot(a[j]);
      assert ks[j] == a[j];
    }
    forall o | o in FootAll(ks) ensures o in FootAll(a) + FootAll(b) {
      var j :| 0 <= j < |ks| && o in Foot(ks[j]);
      assert j >= |a| ==> b[j - |a|] == ks[j];
    }
  }

  lemma FootOne(t: Tree)
    ensures FootAll([t]) == Foot(t)
  {
    hide Foot;
    assert [t][0] == t;
  }

  lemma FootSplit(ks: seq<Tree>, i: nat)
    requires i < |ks|
    ensures FootAll(ks[..i + 1]) == FootAll(ks[..i]) + Foot(ks[i])
    ensures FootAll(ks[i..]) == Foot(ks[i]) + FootAll(ks[i + 1..])
    ensures FootAll(ks) == FootAll(ks[..i]) + Foot(ks[i]) + FootAll(ks[i + 1..])
  {
    hide Foot, FootAll;
    FootOne(ks[i]);
    FootConcat(ks[..i], [ks[i]]);
    FootConcat([ks[i]], ks[i + 1..]);
    FootConcat(ks[..i], ks[i..]);
    assert ks[..i + 1] == ks[..i] + [ks[i]] && ks[i..] == [ks[i]] + ks[i + 1..] && ks == ks[..i] + ks[i..];
  }

  lemma FootNone()
    ensures FootAll([]) == {}
  {
  }

  lemma FootAppend(ks: seq<Tree>, t: Tree)
    ensures FootAll(ks + [t]) == FootAll(ks) + Foot(t)
  {
    FootConcat(ks, [t]);
    FootOne(t);
  }

  lemma SeparateSplit(ks: seq<Tree>, i: nat)
    requires i < |ks| && SeparateAll(ks)
    ensures Separate(ks[i]) && Foot(ks[i]) !! FootAll(ks[i + 1..]) && Foot(ks[i]) !! FootAll(ks[..i])
  {
    hide Foot, Separate;
  }

  /**
   cJSON_Delete: frees the item, everything below it and all items behind it in its list. Each node and each string is
   live when it is freed, so none is freed twice.
   */
  method Delete(h: Heap, item: Node?, ghost ks: seq<Tree>)
    requires item == First(ks) && Linked(ks) && ShapedAll(ks) && SeparateAll(ks)
    requires FootAll(ks) <= h.live && h !in h.live
    modifies h`live
    ensures h.live == old(h.live) - FootAll(ks)
    decreases ks, 1
  {
    hide Foot, Rest, Separate, SeparateAll, Shaped;
    var it := item;
    ghost var i: nat := 0;
    assert ks[..0] == [] && ks[0..] == ks;
    FootNone();
    RestsInFoot(ks);
    while it != null
      invariant i <= |ks| && it == (if i < |ks| then ks[i].node else null)
      invariant h.live == old(h.live) - FootAll(ks[..i]) && FootAll(ks[i..]) <= h.live
      invariant Linked(ks) && ShapedAll(ks) && h !in h.live
      decreases |ks| - i
    {
      assert LinkedAt(ks, i);
      var next := it.next;
      FootSplit(ks, i);
      SeparateSplit(ks, i);
      DeleteOne(h, it, ks[i]);
      it := next;
      i := i + 1;
    }
    assert ks[..|ks|] == ks;
  }

  /** The body of the loop: the item itself, its children first. */
  method DeleteOne(h: Heap, item: Node, ghost t: Tree)
    requires t.node == item && Shaped(t) && Separate(t) && Foot(t) <= h.live && h !in h.live
    modifies h`live
    ensures h.live == old(h.live) - Foot(t)
    decreases t, 0
  {
    hide SeparateAll, Linked, ShapedAll, FootAll;
    RestsInFoot(t.kids);
    if item.child != null {
      Delete(h, item.child, t.kids);
    } else {
      assert t.kids == [];
      FootNone();
    }
    if item.valuestring != null {
      h.Free(item.valuestring);
    }
    if item.name != null {
      h.Free(item.name);
    }
    h.Free(item);
  }

  // ---------- growing a list at its end ----------

  ghost function LastNode(ks: seq<Tree>): Node? {
    if ks == [] then null else ks[|ks| - 1].node
  }

  /** A new item on its own. */
  ghost function Blank(n: Node, name: array?<Byte>): Tree {
    Tree(n, null, name, [])
  }

  lemma NodesOutsideRests(ks: seq<Tree>)
    requires SeparateAll(ks)
    ensures NodesOf(ks) !! Rests(ks)
  {
    hide FootAll;
    forall i, j | 0 <= i < |ks| && 0 <= j < |ks| ensures ks[i].node !in Rest(ks[j]) {
      assert Separate(ks[i]) && Separate(ks[j]);
      assert ks[i].node in Foot(ks[i]) && Rest(ks[j]) <= Foot(ks[j]);
    }
  }

  lemma SeparateAppend(ks: seq<Tree>, t: Tree)
    requires SeparateAll(ks) && Separate(t) && Foot(t) !! FootAll(ks)
    ensures SeparateAll(ks + [t])
  {
    hide Foot, Separate;
    var all := ks + [t];
    forall i, j | 0 <= i < j < |all| ensures Foot(all[i]) !! Foot(all[j]) {
    }
  }

  lemma ShapedAppend(ks: seq<Tree>, t: Tree)
    requires ShapedAll(ks) && Shaped(t)
    ensures ShapedAll(ks + [t])
  {
    hide Shaped;
  }

  lemma MeanAppend(ks: seq<Tree>, t: Tree, es: seq<Value>, v: Value)
    requires MeanAll(ks, es) && Means(t, v)
    ensures MeanAll(ks + [t], es + [v])
  {
    hide Means;
  }

  lemma NamedAppend(ks: seq<Tree>, t: Tree, ms: seq<Member>, m: Member)
    requires NamedAll(ks, ms) && Means(t, m.value) && KeyIs(t, Some(m.key))
    ensures NamedAll(ks + [t], ms + [m])
  {
    hide Means, KeyIs;
  }

  lemma MeanLength(ks: seq<Tree>, es: seq<Value>)
    requires MeanAll(ks, es)
    ensures |ks| == |es|
  {
  }

  lemma NamedLength(ks: seq<Tree>, ms: seq<Member>)
    requires NamedAll(ks, ms)
    ensures |ks| == |ms|
  {
  }

  lemma NextOf(ks: seq<Tree>, i: nat)
    requires Linked(ks) && i < |ks|
    ensures ks[i].node.next == if i + 1 < |ks| then ks[i + 1].node else null
  {
    assert LinkedAt(ks, i);
  }

  /** Only the nodes of a list matter for its links. */
  lemma LinkedSame(a: seq<Tree>, b: seq<Tree>)
    requires Linked(a) && |a| == |b| && forall i | 0 <= i < |a| :: a[i].node == b[i].node
    ensures Linked(b)
  {
    forall i | 0 <= i < |b| ensures LinkedAt(b, i) {
      assert LinkedAt(a, i);
    }
  }

  /** The assignments that put a new item behind the current one. */
  method AttachLinks(current: Node?, n: Node, ghost ks: seq<Tree>, ghost t: Tree)
    requires Linked(ks) && current == LastNode(ks) && t.node == n && n !in NodesOf(ks) && n.next == n.prev == null
    requires forall i, j | 0 <= i < j < |ks| :: ks[i].node != ks[j].node
    modifies NodesOf(ks)`next, n`prev
    ensures Linked(ks + [t])
  {
    ghost var all := ks + [t];
    if current == null {
      assert LinkedAt(all, 0);
      return;
    }
    ghost var last := |ks| - 1;
    assert forall i | 0 <= i < |ks| :: LinkedAt(ks, i);
    current.next := n;
    n.prev := current;
    forall i | 0 <= i < |all| ensures LinkedAt(all, i) {
      if i < last {
        assert old(LinkedAt(ks, i)) && ks[i].node != ks[last].node;
      } else if i == last {
        assert old(LinkedAt(ks, i));
      }
    }
  }

  method Attach(current: Node?, n: Node, ghost ks: seq<Tree>, ghost t: Tree, ghost h: Heap,
                ghost es: seq<Value>, ghost ms: seq<Member>)
    requires Linked(ks) && ShapedAll(ks) && SeparateAll(ks) && FootAll(ks) <= h.live && current == LastNode(ks)
    requires t.node == n && n !in FootAll(ks) && n.next == n.prev == null
    modifies NodesOf(ks)`next, n`prev
    ensures Linked(ks + [t]) && ShapedAll(ks)
    ensures old(MeanAll(ks, es)) ==> MeanAll(ks, es)
    ensures old(NamedAll(ks, ms)) ==> NamedAll(ks, ms)
  {
    NodesOutsideRests(ks);
    RestsInFoot(ks);
    DistinctNodes(ks);
    hide SeparateAll, FootAll, Rests, NodesOf, Linked, ShapedAll, MeanAll, NamedAll;
    AttachLinks(current, n, ks, t);
  }

  lemma DistinctNodes(ks: seq<Tree>)
    requires SeparateAll(ks)
    ensures forall i, j | 0 <= i < j < |ks| :: ks[i].node != ks[j].node
  {
    forall i, j | 0 <= i < j < |ks| ensures ks[i].node != ks[j].node {
      assert ks[i].node in Foot(ks[i]) && ks[j].node in Foot(ks[j]);
    }
  }

  // ---------- building ----------

  /** What a value adds to its node and its name. */
  ghost function Inner(t: Tree): set<object> {
    Opt(t.text) + FootAll(t.kids)
  }

  lemma FootOfInner(t: Tree)
    ensures Foot(t) == {t.node} + Opt(t.name) + Inner(t)
  {
  }

  lemma FootOfRest(t: Tree)
    ensures Foot(t) == {t.node} + Rest(t)
  {
  }

  /** A list of items under construction: linked both ways, shaped, and made of blocks that were added to `base`. */
  ghost predicate Growing(ks: seq<Tree>, h: Heap, base: set<object>)
    reads h`live, FootAll(ks)
  {
    RestsInFoot(ks);
    Linked(ks) && ShapedAll(ks) && SeparateAll(ks) && h.live == base + FootAll(ks) && FootAll(ks) !! base
      && h !in h.live
  }

  lemma GrowingParts(ks: seq<Tree>, h: Heap, base: set<object>)
    requires Growing(ks, h, base)
    ensures h.live == base + FootAll(ks) && FootAll(ks) !! base && Rests(ks) <= FootAll(ks)
            && NodesOf(ks) <= FootAll(ks)
    ensures Linked(ks) && ShapedAll(ks) && SeparateAll(ks) && h !in h.live
  {
    RestsInFoot(ks);
  }

  lemma GrowingNothing(h: Heap)
    requires h !in h.live
    ensures Growing([], h, h.live)
  {
    FootNone();
  }

  /** Freeing everything built so far. */
  method DeleteGrowing(h: Heap, head: Node?, ghost ks: seq<Tree>, ghost base: set<object>)
    requires Growing(ks, h, base) && head == First(ks)
    modifies h`live
    ensures h.live == base
  {
    hide Linked, ShapedAll, SeparateAll, FootAll;
    if head != null {
      Delete(h, head, ks);
    } else {
      FootNone();
    }
  }

  /**
   The allocation of a new item and its attachment at the end of the list, which every turn of the parsing loops
   starts with. When no item is granted the list is freed.
   */
  method NewLast(h: Heap, head: Node?, current: Node?, ghost ks: seq<Tree>, ghost base: set<object>,
                 ghost es: seq<Value>, ghost ms: seq<Member>)
    returns (n: Node?, newHead: Node?)
    requires Growing(ks, h, base) && head == First(ks) && current == LastNode(ks)
    modifies h`requests, h`live, NodesOf(ks)`next
    ensures h.requests == old(h.requests) + 1
    ensures n != null <==> h.grants(old(h.requests))
    ensures old(MeanAll(ks, es)) ==> MeanAll(ks, es)
    ensures old(NamedAll(ks, ms)) ==> NamedAll(ks, ms)
    ensures n == null ==> h.live == base
    ensures n != null ==>
              && fresh(n) && n.child == null && n.valuestring == null && n.name == null
              && Growing(ks + [Blank(n, null)], h, base) && newHead == First(ks + [Blank(n, null)])
  {
    RestsInFoot(ks);
    hide Linked, ShapedAll, SeparateAll, FootAll, MeanAll, NamedAll, NodesOf, Rests;
    newHead := head;
    n := h.NewItem();
    if n != null {
      Attach(current, n, ks, Blank(n, null), h, es, ms);
      BlankIsShaped(n, null);
      BlankFoot(n, null);
      GrowingJoin(ks, Blank(n, null), h, base);
      if head == null {
        newHead := n;
      }
    } else {
      DeleteGrowing(h, head, ks, base);
    }
  }

  /** A list that is growing, seen as its last item and the ones before. */
  lemma GrowingSplit(ks: seq<Tree>, t: Tree, h: Heap, base: set<object>)
    requires Growing(ks + [t], h, base)
    ensures Linked(ks + [t]) && ShapedAll(ks) && SeparateAll(ks) && Shaped(t) && Separate(t)
    ensures Foot(t) !! base && Foot(t) !! FootAll(ks) && FootAll(ks) !! base && h.live == base + FootAll(ks) + Foot(t)
    ensures h !in h.live
  {
    hide Linked, FootAll, Foot, Shaped, Separate;
    var all := ks + [t];
    FootAppend(ks, t);
    SeparateSplit(all, |ks|);
    assert all[..|ks|] == ks && all[|ks|] == t;
    forall i | 0 <= i < |ks| ensures Shaped(ks[i]) && Separate(ks[i]) {
      assert all[i] == ks[i];
    }
    forall i, j | 0 <= i < j < |ks| ensures Foot(ks[i]) !! Foot(ks[j]) {
      assert all[i] == ks[i] && all[j] == ks[j];
    }
  }

  lemma GrowingJoin(ks: seq<Tree>, t: Tree, h: Heap, base: set<object>)
    requires Linked(ks + [t]) && ShapedAll(ks) && SeparateAll(ks) && Shaped(t) && Separate(t)
    requires Foot(t) !! base && Foot(t) !! FootAll(ks) && FootAll(ks) !! base && h.live == base + FootAll(ks) + Foot(t)
    requires h !in h.live
    ensures Growing(ks + [t], h, base)
  {
    hide Linked, ShapedAll, SeparateAll, FootAll, Foot, Shaped, Separate;
    ShapedAppend(ks, t);
    SeparateAppend(ks, t);
    FootAppend(ks, t);
  }

  lemma BlankFoot(n: Node, name: array?<Byte>)
    ensures Foot(Blank(n, name)) == {n} + Opt(name) && Separate(Blank(n, name)) && Inner(Blank(n, name)) == {}
  {
    FootNone();
  }

  lemma BlankIsShaped(n: Node, name: array?<Byte>)
    requires n.child == null && n.valuestring == null && n.name == name && IsText(name)
    ensures Shaped(Blank(n, name))
  {
  }
}
