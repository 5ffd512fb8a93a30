/** Runs of calls on one child list, with the items that the caller holds beside it. */
module ListRuns {
  import opened Values
  import opened Nodes
  import opened Lists

  /** The calls on an array. */
  datatype Call =
    | Append(item: Node)
    | InsertAtIndex(which: int, item: Node)
    | ReplaceAtIndex(which: int, item: Node)
    | DetachAtIndex(which: int)
    | DeleteAtIndex(which: int)

  /** The children of the parent, the items of their own that the caller holds, and the items that were freed. */
  datatype State = State(list: seq<Tree>, pool: seq<Tree>, freed: seq<Tree>)

  predicate Brings(c: Call) {
    c.Append? || c.InsertAtIndex? || c.ReplaceAtIndex?
  }

  /** Where the item is in the pool. */
  ghost function Find(pool: seq<Tree>, n: Node): (k: nat)
    ensures k <= |pool|
    ensures k < |pool| ==> pool[k].node == n
    ensures k == |pool| <==> n !in NodesOf(pool)
  {
    if pool == [] then 0
    else if pool[0].node == n then 0
    else
      var k := 1 + Find(pool[1..], n);
      TailNodes(pool);
      k
  }

  lemma TailNodes(pool: seq<Tree>)
    requires pool != []
    ensures NodesOf(pool) == {pool[0].node} + NodesOf(pool[1..])
  {
    assert forall i | 0 < i < |pool| :: pool[i] == pool[1..][i - 1];
  }

  /** A replacement of an item by itself. */
  ghost predicate Idle(c: Call, s: State) {
    c.ReplaceAtIndex? && 0 <= c.which < |s.list| && s.list[c.which].node == c.item
  }

  /** What a call asks of its caller: an item that it brings belongs to no list, unless it replaces itself. */
  ghost predicate Ready(c: Call, s: State) {
    Brings(c) && !Idle(c, s) ==> c.item in NodesOf(s.pool)
  }

  /** What a call makes of the state. A call without a place for its item leaves it with the caller. */
  ghost function Next(c: Call, s: State): State
    requires Ready(c, s)
  {
    if Idle(c, s) then s else
    match c
    case Append(x) =>
      var k := Find(s.pool, x);
      State(s.list + [s.pool[k]], RemoveAt(s.pool, k), s.freed)
    case InsertAtIndex(w, x) =>
      var k := Find(s.pool, x);
      if w < 0 then s else State(InsertAt(s.list, Place(w, |s.list|), s.pool[k]), RemoveAt(s.pool, k), s.freed)
    case ReplaceAtIndex(w, x) =>
      var k := Find(s.pool, x);
      if 0 <= w < |s.list| then State(s.list[w := s.pool[k]], RemoveAt(s.pool, k), s.freed + [s.list[w]]) else s
    case DetachAtIndex(w) =>
      if 0 <= w < |s.list| then State(RemoveAt(s.list, w), s.pool + [s.list[w]], s.freed) else s
    case DeleteAtIndex(w) =>
      if 0 <= w < |s.list| then State(RemoveAt(s.list, w), s.pool, s.freed + [s.list[w]]) else s
  }

  /** A run in which every item that is brought belongs to no list at that moment; it may have been detached before. */
  ghost predicate Runnable(calls: seq<Call>, s: State)
    decreases |calls|
  {
    calls != [] ==> Ready(calls[0], s) && Runnable(calls[1..], Next(calls[0], s))
  }

  ghost function Final(calls: seq<Call>, s: State): State
    requires Runnable(calls, s)
    decreases |calls|
  {
    if calls == [] then s else Final(calls[1..], Next(calls[0], s))
  }

  // ---------- conservation ----------

  lemma CountWith<T>(a: seq<T>, x: T, b: seq<T>)
    ensures multiset(a + [x] + b) == multiset(a) + multiset(b) + multiset{x}
  {
  }

  lemma CountAround<T>(s: seq<T>, i: nat, x: T)
    requires i <= |s|
    ensures multiset(InsertAt(s, i, x)) == multiset(s) + multiset{x}
    ensures i < |s| ==> multiset(s) == multiset(RemoveAt(s, i)) + multiset{s[i]}
    ensures i < |s| ==> multiset(s[i := x]) == multiset(RemoveAt(s, i)) + multiset{x}
  {
    var a, b := s[..i], s[i..];
    assert s == a + b;
    CountWith(a, x, b);
    if i < |s| {
      var c := s[i + 1..];
      assert s == a + [s[i]] + c && s[i := x] == a + [x] + c;
      CountWith(a, s[i], c);
      CountWith(a, x, c);
    }
  }

  ghost function AllItems(s: State): multiset<Tree> {
    multiset(s.list) + multiset(s.pool) + multiset(s.freed)
  }

  lemma BringConserves(c: Call, s: State)
    requires Ready(c, s) && Brings(c) && !Idle(c, s)
    ensures AllItems(Next(c, s)) == AllItems(s)
  {
    hide InsertAt, RemoveAt, Find, NodesOf;
    var k := Find(s.pool, c.item);
    CountAround(s.pool, k, s.pool[k]);
    match c {
      case Append(_) =>
      case InsertAtIndex(w, _) =>
        if w >= 0 {
          CountAround(s.list, Place(w, |s.list|), s.pool[k]);
        }
      case ReplaceAtIndex(w, _) =>
        if 0 <= w < |s.list| {
          CountAround(s.list, w, s.pool[k]);
        }
    }
  }

  lemma CallConserves(c: Call, s: State)
    requires Ready(c, s)
    ensures AllItems(Next(c, s)) == AllItems(s)
  {
    hide InsertAt, RemoveAt, Find, NodesOf;
    if Idle(c, s) {
    } else if Brings(c) {
      BringConserves(c, s);
    } else if 0 <= c.which < |s.list| {
      CountAround(s.list, c.which, s.list[c.which]);
    }
  }

  /** Over any run every item is in the list, with the caller or freed, exactly as often as before. */
  lemma {:induction false} RunConserves(calls: seq<Call>, s: State)
    requires Runnable(calls, s)
    ensures AllItems(Final(calls, s)) == AllItems(s)
    decreases |calls|
  {
    hide Next, AllItems;
    if calls != [] {
      CallConserves(calls[0], s);
      RunConserves(calls[1..], Next(calls[0], s));
    }
  }

  lemma TwoCalls(c: Call, d: Call, s: State)
    requires Ready(c, s) && Ready(d, Next(c, s))
    ensures Runnable([c, d], s) && Final([c, d], s) == Next(d, Next(c, s))
  {
    hide Next, Ready;
    var n := Next(c, s);
    assert [c, d][1..] == [d] && [d][1..] == [];
    assert Runnable([], Next(d, n)) && Runnable([d], n);
    assert Final([d], n) == Next(d, n);
  }

  /** Detaching an item and inserting it again where it was restores the list and the pool. */
  lemma DetachThenInsert(s: State, w: nat)
    requires w < |s.list| && s.list[w].node !in NodesOf(s.pool)
    ensures var calls := [DetachAtIndex(w), InsertAtIndex(w, s.list[w].node)];
            Runnable(calls, s) && Final(calls, s) == s
  {
    var t := s.list[w];
    var c, d := DetachAtIndex(w), InsertAtIndex(w, t.node);
    var pool := s.pool + [t];
    assert pool[|s.pool|] == t;
    var k := Find(pool, t.node);
    assert forall j | 0 <= j < |s.pool| :: pool[j] == s.pool[j] && s.pool[j].node in NodesOf(s.pool);
    assert k == |s.pool|;
    assert RemoveAt(pool, |s.pool|) == s.pool;
    DetachUndoesInsert(s.list, w, t);
    InsertAtEnd(RemoveAt(s.list, w), t);
    TwoCalls(c, d, s);
  }

  /** Inserting an item and detaching it again restores the list, and the caller holds the item as before. */
  lemma InsertThenDetach(s: State, w: nat, x: Node)
    requires x in NodesOf(s.pool)
    ensures var calls := [InsertAtIndex(w, x), DetachAtIndex(Place(w, |s.list|))];
            && Runnable(calls, s)
            && var e := Final(calls, s);
               e.list == s.list && multiset(e.pool) == multiset(s.pool) && e.freed == s.freed
  {
    var k := Find(s.pool, x);
    var i := Place(w, |s.list|);
    DetachUndoesInsert(s.list, i, s.pool[k]);
    CountAround(s.pool, k, s.pool[k]);
    TwoCalls(InsertAtIndex(w, x), DetachAtIndex(i), s);
  }

  // ---------- on the heap ----------

  ghost predicate Unlinked(ts: seq<Tree>)
    reads NodesOf(ts)`next, NodesOf(ts)`prev
  {
    forall n | n in NodesOf(ts) :: n.next == null && n.prev == null
  }

  /** Items of their own that share nothing with each other, the list or its parent. */
  ghost predicate Waiting(parent: Node, ks: seq<Tree>, ts: seq<Tree>, h: Heap)
    reads h`live, FootAll(ts)
  {
    RestsInFoot(ts);
    && ShapedAll(ts) && SeparateAll(ts) && Unlinked(ts)
    && FootAll(ts) <= h.live && FootAll(ts) !! FootAll(ks) && parent !in FootAll(ts) && h !in h.live
  }

  /** The parent owns the list, and the caller the pool. */
  ghost predicate Held(parent: Node, s: State, h: Heap)
    reads parent`child, h`live, FootAll(s.list), FootAll(s.pool)
  {
    Owns(parent, s.list, h) && Waiting(parent, s.list, s.pool, h)
  }

  /** What is used of the items that wait. */
  lemma WaitingParts(parent: Node, ks: seq<Tree>, ts: seq<Tree>, h: Heap)
    requires Waiting(parent, ks, ts, h)
    ensures ShapedAll(ts) && SeparateAll(ts) && Unlinked(ts)
    ensures FootAll(ts) <= h.live && FootAll(ts) !! FootAll(ks) && parent !in FootAll(ts)
    ensures h !in h.live && NodesOf(ts) <= FootAll(ts) && Rests(ts) <= FootAll(ts)
  {
    RestsInFoot(ts);
  }

  lemma WaitsAgain(parent: Node, ks: seq<Tree>, ts: seq<Tree>, h: Heap)
    requires ShapedAll(ts) && SeparateAll(ts) && Unlinked(ts) && h !in h.live
    requires FootAll(ts) <= h.live && FootAll(ts) !! FootAll(ks) && parent !in FootAll(ts)
    ensures Waiting(parent, ks, ts, h)
  {
  }

  /** An item taken out of the pool is loose and foreign to the list, and the others go on waiting. */
  lemma TakeOne(parent: Node, ks: seq<Tree>, ts: seq<Tree>, k: nat, h: Heap)
    requires k < |ts| && Waiting(parent, ks, ts, h)
    ensures Loose(ts[k], h) && Foreign(parent, ks, ts[k])
    ensures FootAll(RemoveAt(ts, k)) == FootAll(ts) - Foot(ts[k]) && Foot(ts[k]) <= FootAll(ts)
    ensures Waiting(parent, ks, RemoveAt(ts, k), h) && NodesOf(RemoveAt(ts, k)) <= NodesOf(ts)
            && ts[k].node in NodesOf(ts)
  {
    hide Foot, FootAll, Shaped, Separate, SeparateAll;
    FootRemove(ts, k);
    SeparateRemove(ts, k);
    RestsInFoot(RemoveAt(ts, k));
    RestNodes(ts, k);
    assert ts[k].node in NodesOf(ts);
  }

  lemma RestNodes(ts: seq<Tree>, k: nat)
    requires k < |ts|
    ensures NodesOf(RemoveAt(ts, k)) <= NodesOf(ts)
  {
    var rest := RemoveAt(ts, k);
    forall i | 0 <= i < |rest| ensures rest[i].node in NodesOf(ts) {
      assert rest[i] == ts[if i < k then i else i + 1];
    }
  }

  /** A loose item that is foreign to the list joins the pool. */
  lemma AddOne(parent: Node, ks: seq<Tree>, ts: seq<Tree>, t: Tree, h: Heap)
    requires Waiting(parent, ks, ts, h) && Loose(t, h) && Foreign(parent, ks, t) && Foot(t) !! FootAll(ts)
    ensures Waiting(parent, ks, ts + [t], h) && FootAll(ts + [t]) == FootAll(ts) + Foot(t)
    ensures NodesOf(ts + [t]) == NodesOf(ts) + {t.node}
  {
    hide Foot, FootAll, Shaped, Separate, SeparateAll;
    FootAppend(ts, t);
    ShapedAppend(ts, t);
    SeparateAppend(ts, t);
    NodesAppend(ts, t);
    RestsInFoot(ts + [t]);
  }

  lemma NodesAppend(ts: seq<Tree>, t: Tree)
    ensures NodesOf(ts + [t]) == NodesOf(ts) + {t.node}
  {
    assert forall i | 0 <= i < |ts| :: (ts + [t])[i] == ts[i];
    assert (ts + [t])[|ts|] == t;
  }

  /** The tree whose blocks a call frees. */
  ghost function Freed(c: Call, s: State): seq<Tree> {
    var frees := c.DeleteAtIndex? || (c.ReplaceAtIndex? && !Idle(c, s));
    if frees && 0 <= c.which < |s.list| then [s.list[c.which]] else []
  }

  lemma FreedFoot(c: Call, s: State)
    ensures FootAll(Freed(c, s)) == if Freed(c, s) == [] then {} else Foot(s.list[c.which])
  {
    hide Foot, FootAll;
    FootNone();
    if Freed(c, s) != [] {
      FootOne(s.list[c.which]);
    }
  }

  /** A detached item joins the pool. */
  method Detach(parent: Node, w: int, ghost s: State, h: Heap)
    requires Held(parent, s, h)
    modifies parent`child, NodesOf(s.list)`next, NodesOf(s.list)`prev
    ensures Held(parent, Next(DetachAtIndex(w), s), h)
  {
    hide Owns, Waiting, Loose, Foreign, Foot, FootAll, NodesOf, Rests, Linked, ShapedAll, SeparateAll, RemoveAt,
      Unlinked;
    OwnsParts(parent, s.list, h);
    WaitingParts(parent, s.list, s.pool, h);
    RestsInFoot(s.list);
    var _ := DetachItemFromArray(parent, w, s.list, h, []);
    if 0 <= w < |s.list| {
      FootRemove(s.list, w);
      WaitsAgain(parent, RemoveAt(s.list, w), s.pool, h);
      AddOne(parent, RemoveAt(s.list, w), s.pool, s.list[w], h);
    } else {
      WaitsAgain(parent, s.list, s.pool, h);
    }
  }

  /** The insertions of an item of the pool. */
  method Insert(parent: Node, call: Call, ghost s: State, h: Heap)
    requires (call.Append? || call.InsertAtIndex?) && Held(parent, s, h) && Ready(call, s)
    modifies parent`child, NodesOf(s.list)`next, NodesOf(s.list)`prev, call.item`next, call.item`prev
    ensures Held(parent, Next(call, s), h)
  {
    hide Owns, Waiting, Loose, Foreign, Foot, FootAll, NodesOf, Rests, Linked, ShapedAll, SeparateAll, InsertAt,
      RemoveAt, Unlinked, Find;
    ghost var k := Find(s.pool, call.item);
    ghost var t, rest := s.pool[k], RemoveAt(s.pool, k);
    TakeOne(parent, s.list, s.pool, k, h);
    OwnsParts(parent, s.list, h);
    WaitingParts(parent, s.list, s.pool, h);
    WaitingParts(parent, s.list, rest, h);
    LooseParts(t, h);
    RestsInFoot(s.list);
    match call {
      case Append(item) =>
        var _ := AddItemToArray(parent, item, s.list, t, h, [], Null);
        FootAppend(s.list, t);
        WaitsAgain(parent, s.list + [t], rest, h);
      case InsertAtIndex(w, item) =>
        var _ := InsertItemInArray(parent, w, item, s.list, t, h, [], Null);
        if w >= 0 {
          FootInsert(s.list, Place(w, |s.list|), t);
          WaitsAgain(parent, InsertAt(s.list, Place(w, |s.list|), t), rest, h);
        } else {
          LooseParts(t, h);
          WaitsAgain(parent, s.list, s.pool, h);
        }
    }
  }

  /** An item that replaces itself is in the list. */
  lemma IdleNode(c: Call, s: State)
    ensures Idle(c, s) ==> c.item in NodesOf(s.list)
  {
  }

  /** The replacement of an item of the list by one of the pool, or by itself. */
  method Replace(parent: Node, w: int, item: Node, ghost s: State, h: Heap)
    requires Held(parent, s, h) && Ready(ReplaceAtIndex(w, item), s)
    modifies parent`child, NodesOf(s.list)`next, NodesOf(s.list)`prev, item`next, item`prev, h`live
    ensures Held(parent, Next(ReplaceAtIndex(w, item), s), h)
    ensures h.live == old(h.live) - FootAll(Freed(ReplaceAtIndex(w, item), s))
  {
    hide Owns, Waiting, Loose, Foreign, Foot, FootAll, NodesOf, Rests, Linked, ShapedAll, SeparateAll, RemoveAt,
      Unlinked, Find;
    ghost var call := ReplaceAtIndex(w, item);
    ghost var k := Find(s.pool, item);
    ghost var t := if Idle(call, s) then s.list[w] else s.pool[k];
    FreedFoot(call, s);
    IdleNode(call, s);
    OwnsParts(parent, s.list, h);
    WaitingParts(parent, s.list, s.pool, h);
    RestsInFoot(s.list);
    if !Idle(call, s) {
      TakeOne(parent, s.list, s.pool, k, h);
      WaitingParts(parent, s.list, RemoveAt(s.pool, k), h);
      LooseParts(t, h);
    }
    ReplaceItemInArray(parent, w, item, s.list, t, h, [], Null);
    if Idle(call, s) {
      WaitsAgain(parent, s.list, s.pool, h);
    } else if 0 <= w < |s.list| {
      FootReplace(s.list, w, t);
      WaitsAgain(parent, s.list[w := t], RemoveAt(s.pool, k), h);
    } else {
      LooseParts(t, h);
      WaitsAgain(parent, s.list, s.pool, h);
    }
  }

  lemma FootReplace(ks: seq<Tree>, w: nat, t: Tree)
    requires w < |ks| && SeparateAll(ks)
    ensures FootAll(ks[w := t]) <= FootAll(ks) + Foot(t) && Foot(ks[w]) <= FootAll(ks)
  {
    hide Foot, FootAll, SeparateAll;
    ReplaceIsRemoveInsert(ks, w, t);
    FootRemove(ks, w);
    FootInsert(RemoveAt(ks, w), w, t);
  }

  /** One call. */
  method Perform(parent: Node, call: Call, ghost s: State, h: Heap)
    requires Held(parent, s, h) && Ready(call, s)
    modifies parent`child, NodesOf(s.list)`next, NodesOf(s.list)`prev, NodesOf(s.pool)`next, NodesOf(s.pool)`prev,
             h`live
    ensures Held(parent, Next(call, s), h)
    ensures Next(call, s).freed == s.freed + Freed(call, s) && h.live == old(h.live) - FootAll(Freed(call, s))
  {
    hide Owns, Waiting, Loose, Foreign, Foot, FootAll, NodesOf, Rests, Linked, ShapedAll, SeparateAll, InsertAt,
      RemoveAt, Unlinked, Find;
    FreedFoot(call, s);
    OwnsParts(parent, s.list, h);
    WaitingParts(parent, s.list, s.pool, h);
    RestsInFoot(s.list);
    match call {
      case DetachAtIndex(w) => Detach(parent, w, s, h);
      case DeleteAtIndex(w) =>
        DeleteItemFromArray(parent, w, s.list, h, []);
        if 0 <= w < |s.list| {
          FootRemove(s.list, w);
          WaitsAgain(parent, RemoveAt(s.list, w), s.pool, h);
        } else {
          WaitsAgain(parent, s.list, s.pool, h);
        }
      case ReplaceAtIndex(w, item) =>
        IdleNode(call, s);
        Replace(parent, w, item, s, h);
      case _ => Insert(parent, call, s, h);
    }
  }

  /**
   Any run of calls on a list: the links stay mutually inverse, the first item has no predecessor, the list refines
   the run of sequence operations, what was detached or found no place is an item of its own again, and exactly the
   blocks of the deleted and replaced items are freed.
   */
  method RunCalls(parent: Node, calls: seq<Call>, ghost s: State, h: Heap)
    requires Held(parent, s, h) && Runnable(calls, s) && s.freed == []
    modifies parent`child, NodesOf(s.list)`next, NodesOf(s.list)`prev, NodesOf(s.pool)`next, NodesOf(s.pool)`prev,
             h`live
    ensures Held(parent, Final(calls, s), h) && h.live == old(h.live) - FootAll(Final(calls, s).freed)
  {
    hide Held, NodesOf, FootAll, Next, Foot, Freed, Ready;
    ghost var now := s;
    FootNone();
    assert calls[0..] == calls;
    for i := 0 to |calls|
      invariant Held(parent, now, h) && Runnable(calls[i..], now) && Final(calls[i..], now) == Final(calls, s)
      invariant h.live == old(h.live) - FootAll(now.freed)
      invariant NodesOf(now.list) + NodesOf(now.pool) <= NodesOf(s.list) + NodesOf(s.pool)
    {
      assert calls[i..][0] == calls[i] && calls[i..][1..] == calls[i + 1..];
      NextNodes(calls[i], now);
      Perform(parent, calls[i], now, h);
      FootConcat(now.freed, Freed(calls[i], now));
      now := Next(calls[i], now);
    }
    assert calls[|calls|..] == [];
  }

  /** No call brings in a node from elsewhere. */
  lemma NextNodes(c: Call, s: State)
    requires Ready(c, s)
    ensures NodesOf(Next(c, s).list) + NodesOf(Next(c, s).pool) <= NodesOf(s.list) + NodesOf(s.pool)
  {
  }
}
