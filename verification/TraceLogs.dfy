/** The logs of items against the events: what every event does to the books of the listener is
    what the events say. */
module TraceLogs {
  import opened TagHistory
  import opened ItemTagHeaps
  import opened TagLogs
  import opened DBGraphs
  import opened TagIdVecs
  import opened MoveLogs
  import opened MoveLedgers
  import opened ListenerBooks
  import opened TraceEvents

  function FirstCycle(list: TagLog, t: nat): Option<int> {
    if list == [] then None
    else
      match FirstCycle(list[..|list|-1], t)
      case Some(c) => Some(c)
      case None => if list[|list|-1].tagid == t then Some(list[|list|-1].cycle) else None
  }

  function LastCycle(list: TagLog, t: nat): Option<int> {
    if list == [] then None
    else if list[|list|-1].tagid == t then Some(list[|list|-1].cycle)
    else LastCycle(list[..|list|-1], t)
  }

  /** The log of item id says what the events say. */
  ghost predicate Tells(list: TagLog, events: seq<Event>, id: int, first: int) {
    && (forall t, q :: LastSet(list, t, q) == LastSetIn(events, id, t, q))
    && (forall t :: FirstCycle(list, t) == FirstCycleIn(events, id, t))
    && (forall t :: LastCycle(list, t) == LastCycleIn(events, id, t))
    && (forall k :: 0 <= k < |list| ==> first <= list[k].cycle <= CycleAfter(events))
  }

  ghost predicate HasId(items: NewItemList, id: int) {
    exists i :: 0 <= i < |items| && items[i].itemId == id
  }

  ghost predicate Telling(x: LNewItemListNode, events: seq<Event>, first: int, s: Status, wide: map<nat, nat>) {
    && StatusAfter(events, x.itemId) == s && Tells(x.tags, events, x.itemId, first)
    && x.movs == MovesIn(events, x.itemId, wide)
  }

  /** The id of the item that a lookup of m gives. */
  function MoverId(archive: NewItemList, m: Move): Option<int> {
    var i := LastMover(Movs(archive), m);
    if i.Some? then Some(archive[i.value].itemId) else None
  }

  /** All live and all deleted items are there, their logs say what the events say, and they were
      deleted in the order of the events. */
  ghost predicate Told(items: NewItemList, archive: NewItemList, events: seq<Event>, first: int,
                       wide: map<nat, nat>)
  {
    && (forall i :: 0 <= i < |items| ==> Telling(items[i], events, first, Live, wide))
    && (forall i :: 0 <= i < |archive| ==> Telling(archive[i], events, first, Gone, wide))
    && (forall id :: StatusAfter(events, id) == Live ==> HasId(items, id))
    && (forall id :: StatusAfter(events, id) == Gone ==> HasId(archive, id))
    && (forall m :: MoverId(archive, m) == LastMoverIn(events, m, wide))
  }

  // ---------------------------------------------------------------- logs of tags

  /** An event that does not set a tag of a live item changes nothing for its log. */
  lemma TellsOn(list: TagLog, events: seq<Event>, e: Event, id: int, first: int)
    requires Tells(list, events, id, first)
    requires e.SetTagEvent? ==> e.id != id || StatusAfter(events, id) != Live
    ensures Tells(list, events + [e], id, first)
  {
    hide LastSet, FirstCycle, LastCycle, CycleAfter, StatusAfter, LastSetIn, FirstCycleIn, LastCycleIn;
    CycleStep(events, e);
    forall t, q
      ensures LastSetIn(events + [e], id, t, q) == LastSetIn(events, id, t, q)
    {
      SetStep(events, e, id, t, q);
    }
    forall t
      ensures FirstCycleIn(events + [e], id, t) == FirstCycleIn(events, id, t)
    {
      SetStep(events, e, id, t, 0);
    }
    forall t
      ensures LastCycleIn(events + [e], id, t) == LastCycleIn(events, id, t)
    {
      SetStep(events, e, id, t, 0);
    }
  }

  lemma {:induction false} SameFirstCycle(list: TagLog, r: TagLog, t: nat)
    requires |r| == |list|
    requires forall k :: 0 <= k < |list| ==> r[k].cycle == list[k].cycle && r[k].tagid == list[k].tagid
    ensures FirstCycle(r, t) == FirstCycle(list, t) && LastCycle(r, t) == LastCycle(list, t)
  {
    if list != [] {
      SameFirstCycle(list[..|list|-1], r[..|list|-1], t);
    }
  }

  lemma LoggedFirst(list: TagLog, t: nat, v: nat, c: int, u: nat)
    ensures FirstCycle(Logged(list, t, v, c), u)
         == match FirstCycle(list, u) case Some(d) => Some(d) case None => if u == t then Some(c) else None
    ensures LastCycle(Logged(list, t, v, c), u) == if u == t then Some(c) else LastCycle(list, u)
    ensures forall k :: 0 <= k < |Logged(list, t, v, c)| ==>
              Logged(list, t, v, c)[k].cycle == if k < |list| then list[k].cycle else c
  {
    hide LastOther, Scanned;
    var r := Logged(list, t, v, c);
    SameFirstCycle(list, r[..|list|], u);
    assert r[..|r|-1] == r[..|list|];
  }

  /** A set event of a live item goes into its log. */
  lemma TellsSet(list: TagLog, events: seq<Event>, id: int, t: nat, v: nat, first: int)
    requires Tells(list, events, id, first) && StatusAfter(events, id) == Live && first <= CycleAfter(events)
    ensures Tells(Logged(list, t, v, CycleAfter(events)), events + [SetTagEvent(id, t, v)], id, first)
  {
    hide LastSet, FirstCycle, LastCycle, Logged, CycleAfter, StatusAfter, LastSetIn, FirstCycleIn, LastCycleIn;
    var e, c := SetTagEvent(id, t, v), CycleAfter(events);
    CycleStep(events, e);
    forall u, q
      ensures LastSet(Logged(list, t, v, c), u, q) == LastSetIn(events + [e], id, u, q)
    {
      LoggedSet(list, t, v, c, u, q);
      SetStep(events, e, id, u, q);
    }
    forall u
      ensures FirstCycle(Logged(list, t, v, c), u) == FirstCycleIn(events + [e], id, u)
    {
      LoggedFirst(list, t, v, c, u);
      SetStep(events, e, id, u, 0);
    }
    forall u
      ensures LastCycle(Logged(list, t, v, c), u) == LastCycleIn(events + [e], id, u)
    {
      LoggedFirst(list, t, v, c, u);
      SetStep(events, e, id, u, 0);
    }
    LoggedFirst(list, t, v, c, t);
    SetStep(events, e, id, t, 0);
  }

  lemma NewTells(events: seq<Event>, id: int, first: int)
    requires StatusAfter(events, id) == Unknown
    ensures Tells([], events + [NewItemEvent(id)], id, first)
  {
    hide StatusAfter, LastSetIn, FirstCycleIn, LastCycleIn;
    var e := NewItemEvent(id);
    forall t, q
      ensures LastSetIn(events + [e], id, t, q) == None
    {
      UnknownIsUnset(events, id, t, q);
      SetStep(events, e, id, t, q);
    }
    forall t
      ensures FirstCycleIn(events + [e], id, t) == None
    {
      UnknownIsUnset(events, id, t, 0);
      SetStep(events, e, id, t, 0);
    }
    forall t
      ensures LastCycleIn(events + [e], id, t) == None
    {
      UnknownIsUnset(events, id, t, 0);
      SetStep(events, e, id, t, 0);
    }
  }

  // ---------------------------------------------------------------- items

  lemma TellingOn(x: LNewItemListNode, events: seq<Event>, e: Event, first: int, s: Status, wide: map<nat, nat>)
    requires Telling(x, events, first, s, wide) && StatusAfter(events + [e], x.itemId) == s
    requires e.SetTagEvent? ==> e.id != x.itemId || s != Live
    requires e.MoveItemsEvent? && e.edge in wide ==> s != Live
    ensures Telling(x, events + [e], first, s, wide)
  {
    hide MovesIn, Tells, CycleAfter;
    TellsOn(x.tags, events, e, x.itemId, first);
    MovesStep(events, e, x.itemId, wide);
  }

  /** What happens does not concern a deleted item. */
  lemma GoneTelling(archive: NewItemList, events: seq<Event>, e: Event, first: int, wide: map<nat, nat>)
    requires forall i :: 0 <= i < |archive| ==> Telling(archive[i], events, first, Gone, wide)
    requires forall i :: 0 <= i < |archive| ==> StatusAfter(events + [e], archive[i].itemId) == Gone
    ensures forall i :: 0 <= i < |archive| ==> Telling(archive[i], events + [e], first, Gone, wide)
  {
    hide Telling, StatusAfter;
    forall i | 0 <= i < |archive|
      ensures Telling(archive[i], events + [e], first, Gone, wide)
    {
      TellingStatus(archive[i], events, first, Gone, wide);
      TellingOn(archive[i], events, e, first, Gone, wide);
    }
  }

  lemma TellingStatus(x: LNewItemListNode, events: seq<Event>, first: int, s: Status, wide: map<nat, nat>)
    requires Telling(x, events, first, s, wide)
    ensures StatusAfter(events, x.itemId) == s
  {
  }

  /** Nobody is deleted, so the last movers stay. */
  lemma MoversOn(archive: NewItemList, events: seq<Event>, e: Event, wide: map<nat, nat>)
    requires forall m :: MoverId(archive, m) == LastMoverIn(events, m, wide)
    requires e.DeleteItemEvent? ==> StatusAfter(events, e.id) != Live
    ensures forall m :: MoverId(archive, m) == LastMoverIn(events + [e], m, wide)
  {
    hide LastMoverIn, MoverId, StatusAfter;
    forall m
      ensures LastMoverIn(events + [e], m, wide) == LastMoverIn(events, m, wide)
    {
      MoverStep(events, e, m, wide);
    }
  }

  /** Cycles, moves over untracked edges, and deletions of what is not live change no item. */
  lemma ToldQuiet(items: NewItemList, archive: NewItemList, events: seq<Event>, e: Event, first: int,
                  wide: map<nat, nat>)
    requires Told(items, archive, events, first, wide)
    requires || e.CycleEvent? || (e.MoveItemsEvent? && e.edge !in wide)
             || (e.DeleteItemEvent? && StatusAfter(events, e.id) != Live)
    ensures Told(items, archive, events + [e], first, wide)
  {
    hide Tells, StatusAfter, MovesIn, MoverId, LastMoverIn;
    forall id
      ensures StatusAfter(events + [e], id) == StatusAfter(events, id)
    {
      StatusStep(events, e, id);
    }
    forall i | 0 <= i < |items|
      ensures Telling(items[i], events + [e], first, Live, wide)
    {
      TellingOn(items[i], events, e, first, Live, wide);
    }
    GoneTelling(archive, events, e, first, wide);
    MoversOn(archive, events, e, wide);
  }

  /** The items keep everything but their moves. */
  ghost predicate SameTags(items: NewItemList, items': NewItemList) {
    |items'| == |items|
    && forall i :: 0 <= i < |items| ==> items'[i].itemId == items[i].itemId && items'[i].tags == items[i].tags
  }

  ghost predicate FoundLive(items: NewItemList, events: seq<Event>) {
    forall id :: FindItem(items, id) < |items| <==> StatusAfter(events, id) == Live
  }

  /** The listener gives positions as the events say. */
  lemma {:induction false} WithMovesIs(items: NewItemList, events: seq<Event>, ids: seq<int>, edge: nat, bw: nat,
                                       p: nat)
    requires Distinct(items) && FoundLive(items, events)
    ensures var (r, q) := WithMoves(items, ids, edge, bw, CycleAfter(events), p);
            && SameTags(items, r) && q == CountPlaced(events, ids, p, bw)
            && forall i :: 0 <= i < |items| ==>
                 r[i].movs == items[i].movs + MovesPlaced(events, ids, items[i].itemId, edge, bw, p)
  {
    hide StatusAfter, CycleAfter, FindItem;
    if ids == [] {
      assert forall i :: 0 <= i < |items| ==> items[i].movs + [] == items[i].movs;
    } else {
      var g, k := ids[..|ids|-1], ids[|ids|-1];
      WithMovesIs(items, events, g, edge, bw, p);
      var r, q := WithMoves(items, g, edge, bw, CycleAfter(events), p).0, CountPlaced(events, g, p, bw);
      SameFound(items, r, k);
      assert FindItem(items, k) < |items| <==> StatusAfter(events, k) == Live;
      forall i | 0 <= i < |items|
        ensures WithMoves(items, ids, edge, bw, CycleAfter(events), p).0[i].movs
             == items[i].movs + MovesPlaced(events, ids, items[i].itemId, edge, bw, p)
      {
        var a, b := items[i].movs, MovesPlaced(events, g, items[i].itemId, edge, bw, p);
        assert a + b + [] == a + b;
        assert a + b + [Move(CycleAfter(events), edge, q)] == a + (b + [Move(CycleAfter(events), edge, q)]);
        assert items[i].itemId == k <==> i == FindItem(items, k);
      }
    }
  }

  lemma LiveFound(items: NewItemList, archive: NewItemList, events: seq<Event>, first: int, wide: map<nat, nat>)
    requires Told(items, archive, events, first, wide)
    ensures FoundLive(items, events)
  {
    hide StatusAfter, Tells, MovesIn, MoverId, LastMoverIn;
    forall id
      ensures FindItem(items, id) < |items| <==> StatusAfter(events, id) == Live
    {
      if FindItem(items, id) < |items| {
        assert Telling(items[FindItem(items, id)], events, first, Live, wide);
      }
    }
  }

  /** Moves over a tracked edge give positions to the items that are live. */
  lemma ToldMoves(items: NewItemList, archive: NewItemList, events: seq<Event>, edge: nat, ids: seq<int>,
                  first: int, wide: map<nat, nat>)
    requires Told(items, archive, events, first, wide) && Distinct(archive + items) && edge in wide
    ensures var (r, q) := WithMoves(items, ids, edge, wide[edge], CycleAfter(events), CounterAfter(events, edge, wide));
            && Told(r, archive, events + [MoveItemsEvent(edge, ids)], first, wide)
            && q == CounterAfter(events + [MoveItemsEvent(edge, ids)], edge, wide)
  {
    hide Tells, StatusAfter, MovesIn, Distinct, FoundLive, CycleAfter, WithMoves, MoverId, LastMoverIn, CounterAfter;
    var e, p := MoveItemsEvent(edge, ids), CounterAfter(events, edge, wide);
    var r := WithMoves(items, ids, edge, wide[edge], CycleAfter(events), p).0;
    LiveFound(items, archive, events, first, wide);
    DistinctTail(archive, items);
    WithMovesIs(items, events, ids, edge, wide[edge], p);
    CounterStep(events, e, edge, wide);
    forall id
      ensures StatusAfter(events + [e], id) == StatusAfter(events, id)
    {
      StatusStep(events, e, id);
    }
    forall i | 0 <= i < |r|
      ensures Telling(r[i], events + [e], first, Live, wide)
    {
      assert Telling(items[i], events, first, Live, wide);
      TellsOn(items[i].tags, events, e, items[i].itemId, first);
      MovesStep(events, e, items[i].itemId, wide);
    }
    GoneTelling(archive, events, e, first, wide);
    MoversOn(archive, events, e, wide);
    HasSameIds(items, r);
  }

  lemma HasSameIds(items: NewItemList, r: NewItemList)
    requires |r| == |items| && forall i :: 0 <= i < |items| ==> r[i].itemId == items[i].itemId
    ensures forall id :: HasId(items, id) <==> HasId(r, id)
  {
    forall id
      ensures HasId(items, id) <==> HasId(r, id)
    {
      assert forall i :: 0 <= i < |items| ==> (r[i].itemId == id <==> items[i].itemId == id);
      if HasId(items, id) {
        var i :| 0 <= i < |items| && items[i].itemId == id;
        assert r[i].itemId == id;
      }
    }
  }

  lemma DistinctTail(archive: NewItemList, items: NewItemList)
    requires Distinct(archive + items)
    ensures Distinct(items)
  {
    assert forall i :: 0 <= i < |items| ==> (archive + items)[|archive| + i] == items[i];
  }

  lemma ToldNew(items: NewItemList, archive: NewItemList, events: seq<Event>, id: int, now: int, first: int,
                wide: map<nat, nat>)
    requires Told(items, archive, events, first, wide) && StatusAfter(events, id) == Unknown
    ensures Told(items + [LNewItemListNode(now, id, [], [])], archive, events + [NewItemEvent(id)], first, wide)
  {
    hide Tells, StatusAfter, MovesIn, MoverId, LastMoverIn;
    var e, x := NewItemEvent(id), LNewItemListNode(now, id, [], []);
    forall k
      ensures StatusAfter(events + [e], k) == if k == id then Live else StatusAfter(events, k)
    {
      StatusStep(events, e, k);
    }
    forall i | 0 <= i < |items|
      ensures Telling(items[i], events + [e], first, Live, wide)
    {
      TellingOn(items[i], events, e, first, Live, wide);
    }
    GoneTelling(archive, events, e, first, wide);
    MoversOn(archive, events, e, wide);
    NewTells(events, id, first);
    UnknownIsUnmoved(events, id, wide);
    MovesStep(events, e, id, wide);
    HasMore(items, x);
  }

  lemma HasMore(items: NewItemList, x: LNewItemListNode)
    ensures forall id :: HasId(items + [x], id) <==> HasId(items, id) || id == x.itemId
  {
    var r := items + [x];
    assert r[|items|] == x;
    forall id | HasId(items, id)
      ensures HasId(r, id)
    {
      var i :| 0 <= i < |items| && items[i].itemId == id;
      assert r[i].itemId == id;
    }
  }

  lemma DistinctIn(archive: NewItemList, items: NewItemList, a: nat)
    requires Distinct(archive + items) && a < |items|
    ensures forall i :: 0 <= i < |items| && i != a ==> items[i].itemId != items[a].itemId
    ensures forall i :: 0 <= i < |archive| ==> archive[i].itemId != items[a].itemId
  {
    var all := archive + items;
    assert all[|archive| + a] == items[a];
    assert forall i :: 0 <= i < |items| ==> all[|archive| + i] == items[i];
    assert forall i :: 0 <= i < |archive| ==> all[i] == archive[i];
  }

  lemma ToldSet(items: NewItemList, archive: NewItemList, events: seq<Event>,
                id: int, t: nat, v: nat, first: int, wide: map<nat, nat>)
    requires Told(items, archive, events, first, wide) && Distinct(archive + items)
    requires items != [] ==> first <= CycleAfter(events)
    ensures Told(WithTagSet(items, id, t, v, CycleAfter(events), true), archive, events + [SetTagEvent(id, t, v)],
                 first, wide)
  {
    hide Tells, StatusAfter, MovesIn, Logged, FindItem, CycleAfter, MoverId, LastMoverIn;
    var e, c := SetTagEvent(id, t, v), CycleAfter(events);
    var r, a := WithTagSet(items, id, t, v, c, true), FindItem(items, id);
    forall k
      ensures StatusAfter(events + [e], k) == StatusAfter(events, k)
    {
      StatusStep(events, e, k);
    }
    if a < |items| {
      DistinctIn(archive, items, a);
      TellsSet(items[a].tags, events, id, t, v, first);
      MovesStep(events, e, id, wide);
    }
    forall i | 0 <= i < |r|
      ensures Telling(r[i], events + [e], first, Live, wide)
    {
      if i != a {
        assert items[i].itemId != id;
        TellingOn(items[i], events, e, first, Live, wide);
      }
    }
    GoneTelling(archive, events, e, first, wide);
    MoversOn(archive, events, e, wide);
    HasSameIds(items, r);
  }

  /** The last mover once another item is deleted. */
  lemma MoverMore(archive: NewItemList, x: LNewItemListNode, m: Move)
    ensures MoverId(archive + [x], m) == if m in x.movs then Some(x.itemId) else MoverId(archive, m)
  {
    assert Movs(archive + [x])[..|archive|] == Movs(archive);
  }

  lemma ToldDelete(items: NewItemList, archive: NewItemList, events: seq<Event>, a: nat, first: int,
                   wide: map<nat, nat>)
    requires Told(items, archive, events, first, wide) && Distinct(archive + items) && a < |items|
    ensures Told(items[..a] + items[a+1..], archive + [items[a]], events + [DeleteItemEvent(items[a].itemId)],
                 first, wide)
  {
    hide Tells, StatusAfter, MovesIn, MoverId, LastMoverIn;
    var id := items[a].itemId;
    var e := DeleteItemEvent(id);
    forall k
      ensures StatusAfter(events + [e], k)
           == if k == id && StatusAfter(events, k) == Live then Gone else StatusAfter(events, k)
    {
      StatusStep(events, e, k);
    }
    assert Telling(items[a], events, first, Live, wide);
    DistinctIn(archive, items, a);
    DropHas(items, a);
    HasMore(archive, items[a]);
    TellsOn(items[a].tags, events, e, id, first);
    MovesStep(events, e, id, wide);
    forall i | 0 <= i < |items| && i != a
      ensures Telling(items[i], events + [e], first, Live, wide)
    {
      TellingOn(items[i], events, e, first, Live, wide);
    }
    GoneTelling(archive, events, e, first, wide);
    forall m
      ensures MoverId(archive + [items[a]], m) == LastMoverIn(events + [e], m, wide)
    {
      MoverMore(archive, items[a], m);
      MoverStep(events, e, m, wide);
    }
  }

  lemma DropHas(items: NewItemList, a: nat)
    requires a < |items|
    ensures forall id :: HasId(items, id) ==> id == items[a].itemId || HasId(items[..a] + items[a+1..], id)
  {
    var r := items[..a] + items[a+1..];
    forall id | HasId(items, id) && id != items[a].itemId
      ensures HasId(r, id)
    {
      var i :| 0 <= i < |items| && items[i].itemId == id;
      assert r[if i < a then i else i - 1].itemId == id;
    }
  }

  /** Every item that is there was created by an event. */
  ghost predicate Met(items: NewItemList, events: seq<Event>) {
    forall i :: 0 <= i < |items| ==> StatusAfter(events, items[i].itemId) != Unknown
  }

  lemma MetOn(items: NewItemList, items': NewItemList, events: seq<Event>, e: Event)
    requires Met(items, events)
    requires forall i :: 0 <= i < |items'| ==> HasId(items, items'[i].itemId) || e == NewItemEvent(items'[i].itemId)
    ensures Met(items', events + [e])
  {
    hide StatusAfter;
    forall i | 0 <= i < |items'|
      ensures StatusAfter(events + [e], items'[i].itemId) != Unknown
    {
      StatusStep(events, e, items'[i].itemId);
    }
  }

  /** Ids stay when items are changed in place. */
  lemma HasSame(items: NewItemList, items': NewItemList, archive: NewItemList)
    requires |items'| == |items| && forall i :: 0 <= i < |items| ==> items'[i].itemId == items[i].itemId
    ensures forall i :: 0 <= i < |archive + items'| ==> HasId(archive + items, (archive + items')[i].itemId)
    ensures Distinct(archive + items) ==> Distinct(archive + items')
  {
    var p, q := archive + items, archive + items';
    forall i | 0 <= i < |q|
      ensures q[i].itemId == p[i].itemId && HasId(p, q[i].itemId)
    {
      assert p[i].itemId == q[i].itemId;
    }
  }

  lemma HasMoved(items: NewItemList, a: nat, archive: NewItemList)
    requires a < |items|
    ensures var r := archive + [items[a]] + (items[..a] + items[a+1..]);
            forall i :: 0 <= i < |r| ==> HasId(archive + items, r[i].itemId)
  {
    var p, r := archive + items, archive + [items[a]] + (items[..a] + items[a+1..]);
    var n := |archive|;
    forall i | 0 <= i < |r|
      ensures HasId(p, r[i].itemId)
    {
      assert r[i] == p[if i < n then i else if i == n then n + a else if i <= n + a then i - 1 else i];
    }
  }

  // ---------------------------------------------------------------- the books against the events

  /** The books agree with the events: ids are distinct and known, no item is lost, and as long as
      the heap has had room for all deleted items, everything is as the events say. */
  ghost predicate Kept(b: Books, events: seq<Event>, first: int, wide: map<nat, nat>) {
    && Distinct(b.archive + b.items) && Met(b.archive + b.items, events)
    && |b.archive| + |b.items| == Created(events)
    && (Created(events) <= MAX_ITEM_ENTRIES ==> Removed(events) <= MAX_ITEM_ENTRIES)
    && (Removed(events) <= MAX_ITEM_ENTRIES ==>
          |b.archive| == Removed(events) && Told(b.items, b.archive, events, first, wide))
  }

  lemma KeptQuiet(b: Books, events: seq<Event>, e: Event, first: int, wide: map<nat, nat>)
    requires Kept(b, events, first, wide)
    requires e.CycleEvent? || (e.MoveItemsEvent? && e.edge !in wide)
    ensures Kept(b, events + [e], first, wide)
  {
    hide Distinct, Met, Told, HasId;
    CountStep(events, e);
    HasSame(b.items, b.items, b.archive);
    MetOn(b.archive + b.items, b.archive + b.items, events, e);
    if Removed(events) <= MAX_ITEM_ENTRIES {
      ToldQuiet(b.items, b.archive, events, e, first, wide);
    }
  }

  /** The first cycle of the trace may still change while there are no items. */
  lemma KeptFirst(b: Books, events: seq<Event>, first: int, first': int, wide: map<nat, nat>)
    requires Kept(b, events, first, wide) && b == Books([], [])
    ensures Kept(b, events, first', wide)
  {
    hide MoverId, LastMoverIn;
  }

  lemma KeptNew(b: Books, events: seq<Event>, id: int, now: int, first: int, wide: map<nat, nat>)
    requires Kept(b, events, first, wide) && StatusAfter(events, id) == Unknown
    ensures forall i :: 0 <= i < |b.archive + b.items| ==> (b.archive + b.items)[i].itemId != id
    ensures Kept(b.(items := b.items + [LNewItemListNode(now, id, [], [])]), events + [NewItemEvent(id)], first, wide)
  {
    hide Told, HasId, StatusAfter;
    var x, e, all := LNewItemListNode(now, id, [], []), NewItemEvent(id), b.archive + b.items;
    CountStep(events, e);
    assert b.archive + (b.items + [x]) == all + [x];
    HasMore(all, x);
    HasAll(all + [x]);
    MetOn(all, all + [x], events, e);
    if Removed(events) <= MAX_ITEM_ENTRIES {
      ToldNew(b.items, b.archive, events, id, now, first, wide);
    }
  }

  lemma HasAll(items: NewItemList)
    ensures forall i :: 0 <= i < |items| ==> HasId(items, items[i].itemId)
  {
  }

  lemma KeptSet(b: Books, events: seq<Event>, id: int, t: nat, v: nat, first: int, wide: map<nat, nat>)
    requires Kept(b, events, first, wide) && (b.items != [] ==> first <= CycleAfter(events))
    ensures Kept(b.(items := WithTagSet(b.items, id, t, v, CycleAfter(events), true)), events + [SetTagEvent(id, t, v)],
                 first, wide)
  {
    hide Distinct, Met, Told, HasId, Logged, CycleAfter;
    var e, r := SetTagEvent(id, t, v), WithTagSet(b.items, id, t, v, CycleAfter(events), true);
    CountStep(events, e);
    HasSame(b.items, r, b.archive);
    MetOn(b.archive + b.items, b.archive + r, events, e);
    if Removed(events) <= MAX_ITEM_ENTRIES {
      ToldSet(b.items, b.archive, events, id, t, v, first, wide);
    }
  }

  lemma {:induction false} MovesSameIds(items: NewItemList, ids: seq<int>, edge: nat, bw: nat, cycle: int, p: nat)
    ensures SameTags(items, WithMoves(items, ids, edge, bw, cycle, p).0)
  {
    if ids != [] {
      MovesSameIds(items, ids[..|ids|-1], edge, bw, cycle, p);
    }
  }

  lemma KeptMoves(b: Books, events: seq<Event>, edge: nat, ids: seq<int>, p: nat, first: int, wide: map<nat, nat>)
    requires Kept(b, events, first, wide) && edge in wide
    requires Removed(events) <= MAX_ITEM_ENTRIES ==> p == CounterAfter(events, edge, wide)
    ensures var (r, q) := WithMoves(b.items, ids, edge, wide[edge], CycleAfter(events), p);
            && Kept(b.(items := r), events + [MoveItemsEvent(edge, ids)], first, wide)
            && (Removed(events) <= MAX_ITEM_ENTRIES ==>
                  q == CounterAfter(events + [MoveItemsEvent(edge, ids)], edge, wide))
  {
    hide Distinct, Met, Told, HasId, CounterAfter, CycleAfter, WithMoves;
    var e, r := MoveItemsEvent(edge, ids), WithMoves(b.items, ids, edge, wide[edge], CycleAfter(events), p).0;
    CountStep(events, e);
    MovesSameIds(b.items, ids, edge, wide[edge], CycleAfter(events), p);
    HasSame(b.items, r, b.archive);
    MetOn(b.archive + b.items, b.archive + r, events, e);
    if Removed(events) <= MAX_ITEM_ENTRIES {
      ToldMoves(b.items, b.archive, events, edge, ids, first, wide);
    }
  }

  /** An item is deleted by an event, or is not there, or the heap is full. */
  lemma KeptDelete(b: Books, events: seq<Event>, id: int, first: int, wide: map<nat, nat>)
    requires Kept(b, events, first, wide)
    ensures Kept(WithDeleted(b, id), events + [DeleteItemEvent(id)], first, wide)
  {
    hide Distinct, Told, HasId, StatusAfter, FindItem, FoundLive;
    var e, a, all := DeleteItemEvent(id), FindItem(b.items, id), b.archive + b.items;
    CountStep(events, e);
    HasAll(all);
    if Removed(events) <= MAX_ITEM_ENTRIES {
      FoundLiveOne(b.items, b.archive, events, id, first, wide);
    }
    if a < |b.items| && |b.archive| < MAX_ITEM_ENTRIES {
      HasMoved(b.items, a, b.archive);
      DistinctMoved(b.archive, b.items, a);
      var r := b.archive + [b.items[a]] + (b.items[..a] + b.items[a+1..]);
      MetOn(all, r, events, e);
      if Removed(events) <= MAX_ITEM_ENTRIES {
        ToldDelete(b.items, b.archive, events, a, first, wide);
      }
    } else {
      MetOn(all, all, events, e);
      if Removed(events + [e]) <= MAX_ITEM_ENTRIES {
        ToldQuiet(b.items, b.archive, events, e, first, wide);
      }
    }
  }

  lemma FoundLiveOne(items: NewItemList, archive: NewItemList, events: seq<Event>, id: int, first: int,
                     wide: map<nat, nat>)
    requires Told(items, archive, events, first, wide)
    ensures FindItem(items, id) < |items| <==> StatusAfter(events, id) == Live
  {
    hide Told, FindItem, StatusAfter;
    LiveFound(items, archive, events, first, wide);
  }

  /** Items are deleted one by one. */
  lemma {:induction false} KeptDeletes(b: Books, events: seq<Event>, gone: seq<AuxItemListNode>, first: int,
                                       wide: map<nat, nat>)
    requires Kept(b, events, first, wide)
    ensures Kept(WithAllDeleted(b, gone), events + Deletes(gone), first, wide)
    ensures CycleAfter(events + Deletes(gone)) == CycleAfter(events)
  {
    if gone == [] {
      assert events + Deletes(gone) == events;
    } else {
      hide Kept, WithDeleted, CycleAfter;
      var g, id := gone[..|gone|-1], gone[|gone|-1].itemId;
      KeptDeletes(b, events, g, first, wide);
      KeptDelete(WithAllDeleted(b, g), events + Deletes(g), id, first, wide);
      CycleStep(events + Deletes(g), DeleteItemEvent(id));
      assert events + Deletes(gone) == events + Deletes(g) + [DeleteItemEvent(id)];
    }
  }

  /** An item is tagged and deleted. */
  lemma KeptPurge(b: Books, events: seq<Event>, id: int, tag: nat, first: int, wide: map<nat, nat>)
    requires Kept(b, events, first, wide) && first <= CycleAfter(events)
    ensures var r := events + [SetTagEvent(id, tag, 1)] + [DeleteItemEvent(id)];
            && Kept(WithPurged(b, id, tag, CycleAfter(events), true), r, first, wide)
            && CycleAfter(r) == CycleAfter(events)
  {
    hide Kept, WithDeleted, WithTagSet, CycleAfter;
    var e, now := SetTagEvent(id, tag, 1), CycleAfter(events);
    KeptSet(b, events, id, tag, 1, first, wide);
    CycleStep(events, e);
    KeptDelete(b.(items := WithTagSet(b.items, id, tag, 1, now, true)), events + [e], id, first, wide);
    CycleStep(events + [e], DeleteItemEvent(id));
  }

  /** Items are tagged and deleted one by one. */
  lemma {:induction false} KeptPurges(b: Books, events: seq<Event>, order: seq<AuxItemListNode>, tag: nat, first: int,
                                      wide: map<nat, nat>)
    requires Kept(b, events, first, wide) && first <= CycleAfter(events)
    ensures Kept(WithAllPurged(b, order, tag, CycleAfter(events), true), events + Purges(order, tag), first, wide)
    ensures CycleAfter(events + Purges(order, tag)) == CycleAfter(events)
  {
    hide Purges, WithAllPurged;
    PurgesStep(b, events, order, tag, CycleAfter(events));
    if order != [] {
      hide Kept, WithPurged, CycleAfter;
      var g, id := order[..|order|-1], order[|order|-1].itemId;
      var past := events + Purges(g, tag);
      KeptPurges(b, events, g, tag, first, wide);
      KeptPurge(WithAllPurged(b, g, tag, CycleAfter(events), true), past, id, tag, first, wide);
    }
  }

  lemma PurgesStep(b: Books, events: seq<Event>, order: seq<AuxItemListNode>, tag: nat, now: int)
    ensures order == [] ==> events + Purges(order, tag) == events && WithAllPurged(b, order, tag, now, true) == b
    ensures order != [] ==>
              var g, id := order[..|order|-1], order[|order|-1].itemId;
              && events + Purges(order, tag)
                 == events + Purges(g, tag) + [SetTagEvent(id, tag, 1)] + [DeleteItemEvent(id)]
              && WithAllPurged(b, order, tag, now, true)
                 == WithPurged(WithAllPurged(b, g, tag, now, true), id, tag, now, true)
  {
    PurgesMore(events, order, tag);
  }

  // ---------------------------------------------------------------- the flag against the events

  /** The flag of the listener is up exactly as long as nothing has gone wrong; once more items were to be
      deleted than there is room for, it is down. */
  ghost predicate Noted(ok: bool, events: seq<Event>, limit: Option<nat>) {
    (ok <==> OkAfter(events, limit)) && (Removed(events) > MAX_ITEM_ENTRIES ==> !ok && Started(events))
  }

  lemma NotedQuiet(ok: bool, events: seq<Event>, e: Event, limit: Option<nat>)
    requires Noted(ok, events, limit) && !e.CycleEvent? && !e.DeleteItemEvent?
    ensures Noted(ok, events + [e], limit)
  {
    hide OkAfter, Removed, Started;
    OkStep(events, e, limit);
    CountStep(events, e);
    CycleStep(events, e);
  }

  lemma NotedDelete(ok: bool, ok': bool, b: Books, events: seq<Event>, id: int, limit: Option<nat>, first: int,
                    wide: map<nat, nat>)
    requires Noted(ok, events, limit) && Kept(b, events, first, wide) && (b.items != [] ==> Started(events))
    requires ok' == (ok && (FindItem(b.items, id) == |b.items| || |b.archive| < MAX_ITEM_ENTRIES))
    ensures Noted(ok', events + [DeleteItemEvent(id)], limit)
  {
    hide OkAfter, Removed, Started, StatusAfter, FindItem, Told, Met, Distinct;
    var e := DeleteItemEvent(id);
    OkStep(events, e, limit);
    CountStep(events, e);
    CycleStep(events, e);
    if Removed(events) <= MAX_ITEM_ENTRIES {
      FoundLiveOne(b.items, b.archive, events, id, first, wide);
      FindBound(b.items, id);
    }
  }

  lemma FindBound(items: NewItemList, id: int)
    ensures FindItem(items, id) <= |items|
  {
  }

  lemma NotedCycle(ok: bool, ok': bool, b: Books, events: seq<Event>, n: nat, limit: Option<nat>, first: int,
                   wide: map<nat, nat>)
    requires Noted(ok, events, limit) && Kept(b, events, first, wide)
    requires ok' == (&& Accepted(events, CycleEvent(n)) && (!Started(events) || ok)
                     && |b.archive| + Surplus(|b.items|, limit) <= MAX_ITEM_ENTRIES)
    ensures Noted(ok', events + [CycleEvent(n)], limit)
  {
    hide OkAfter, Removed, Created, Started, Accepted, Told, Met, Distinct, Surplus;
    var e := CycleEvent(n);
    OkStep(events, e, limit);
    CountStep(events, e);
    CycleStep(events, e);
  }

  lemma {:induction false} DeletedSize(b: Books, gone: seq<AuxItemListNode>)
    ensures |WithAllDeleted(b, gone).archive| <= |b.archive| + |gone|
  {
    if gone != [] {
      DeletedSize(b, gone[..|gone|-1]);
    }
  }

  /** Deletions that all succeed change nothing about it. */
  lemma {:induction false} NotedDeletes(ok: bool, b: Books, events: seq<Event>, gone: seq<AuxItemListNode>,
                                        limit: Option<nat>, first: int, wide: map<nat, nat>)
    requires Noted(ok, events, limit) && Kept(b, events, first, wide) && (gone != [] ==> Started(events))
    requires |WithAllDeleted(b, gone).archive| == |b.archive| + |gone|
    ensures Noted(ok, events + Deletes(gone), limit)
    ensures Started(events) ==> Started(events + Deletes(gone))
  {
    if gone == [] {
      assert events + Deletes(gone) == events;
    } else {
      hide Noted, Kept, OkAfter, Started, FindItem;
      var g, id := gone[..|gone|-1], gone[|gone|-1].itemId;
      var past, c := events + Deletes(g), WithAllDeleted(b, g);
      DeletedSize(b, g);
      FindBound(c.items, id);
      NotedDeletes(ok, b, events, g, limit, first, wide);
      KeptDeletes(b, events, g, first, wide);
      NotedDelete(ok, ok, c, past, id, limit, first, wide);
      CycleStep(past, DeleteItemEvent(id));
      assert events + Deletes(gone) == past + [DeleteItemEvent(id)];
    }
  }

  // ---------------------------------------------------------------- reading a log

  /** The first node of a tag. */
  lemma {:induction false} FirstNode(list: TagLog, t: nat) returns (i: nat)
    ensures i <= |list| && (i < |list| <==> FirstCycle(list, t).Some?)
    ensures i < |list| ==> list[i].tagid == t && FirstCycle(list, t) == Some(list[i].cycle)
    ensures forall k :: 0 <= k < i ==> list[k].tagid != t
  {
    if list == [] {
      i := 0;
    } else {
      i := FirstNode(list[..|list|-1], t);
      if i == |list| - 1 && list[i].tagid != t {
        i := |list|;
      }
    }
  }

  /** What a reader of the log should see is what the events say. */
  lemma LogExpected(list: TagLog, events: seq<Event>, id: int, first: int, t: nat, q: int, back: bool)
    requires LogOk(list) && Tells(list, events, id, first)
    ensures Expected(list, t, q, back) == ExpectedIn(events, id, t, q, back)
  {
    hide LogOk, LastSet, FirstSet, FirstCycle, LastSetIn, FirstCycleIn, CycleAfter, LastCycle, LastCycleIn;
    var i := FirstNode(list, t);
    if i < |list| {
      FirstSetIs(list, t, i);
    } else {
      NoFirst(list, t);
    }
  }

  lemma {:induction false} LastCycleIs(list: TagLog, t: nat)
    requires Ordered(list)
    ensures LastCycle(list, t) == None <==> forall k :: 0 <= k < |list| ==> list[k].tagid != t
    ensures LastCycle(list, t).Some? ==>
              && (forall k :: 0 <= k < |list| && list[k].tagid == t ==> list[k].cycle <= LastCycle(list, t).value)
              && exists k :: 0 <= k < |list| && list[k].tagid == t && list[k].cycle == LastCycle(list, t).value
  {
    if list != [] {
      LastCycleIs(list[..|list|-1], t);
    }
  }

  /** The values of tag t in the log lie in the window of stored cycles exactly when its sets do. */
  lemma LogWindow(list: TagLog, events: seq<Event>, id: int, t: nat)
    requires LogOk(list) && Tells(list, events, id, FirstAfter(events))
    ensures InWindow(list, t, FirstAfter(events)) <==> SetInWindow(events, id, t)
  {
    hide CycleAfter, LastSet, FirstCycle, LastCycle, LastSetIn, FirstCycleIn, LastCycleIn, FirstAfter;
    hide Superseded, Revalued;
    LastCycleIs(list, t);
  }

  /** The bits of tag t are its own in the log exactly when they are in the events. */
  lemma LogBits(list: TagLog, events: seq<Event>, id: int, first: int, t: nat)
    requires Tells(list, events, id, first)
    ensures Unshared(list, t) <==> OwnBits(events, id, t)
  {
    hide CycleAfter, LastSet, FirstCycle, LastCycle, LastSetIn, FirstCycleIn, LastCycleIn, NoClash;
    forall k | 0 <= k < |list|
      ensures FirstCycleIn(events, id, list[k].tagid).Some?
    {
      var i := FirstNode(list, list[k].tagid);
    }
    forall w | FirstCycleIn(events, id, w).Some?
      ensures exists k :: 0 <= k < |list| && list[k].tagid == w
    {
      var i := FirstNode(list, w);
    }
  }

  /** The deleted items and their moves, as the events have them. */
  lemma GoneMade(items: NewItemList, archive: NewItemList, events: seq<Event>, first: int, wide: map<nat, nat>)
    requires Told(items, archive, events, first, wide)
    ensures Moves(Movs(archive)) == GoneMoves(events, wide)
    ensures Moves(Movs(items)) + Moves(Movs(archive)) == AllMoves(events, wide)
  {
    hide StatusAfter, Tells, MovesIn, MoverId, LastMoverIn;
    forall m
      ensures MoveIn(m, Movs(archive)) <==> MadeByGone(events, m, wide)
    {
      if MoveIn(m, Movs(archive)) {
        var a :| 0 <= a < |archive| && m in Movs(archive)[a];
        assert Telling(archive[a], events, first, Gone, wide);
        assert MadeIn(events, archive[a].itemId, m, wide);
      }
      if MadeByGone(events, m, wide) {
        var id :| MadeIn(events, id, m, wide);
        var a :| 0 <= a < |archive| && archive[a].itemId == id;
        assert m in Movs(archive)[a];
      }
    }
    forall m
      ensures MoveIn(m, Movs(items)) || MoveIn(m, Movs(archive)) <==> MadeByAny(events, m, wide)
    {
      MadeBy(items, archive, events, first, wide, m);
    }
  }

  lemma MadeBy(items: NewItemList, archive: NewItemList, events: seq<Event>, first: int, wide: map<nat, nat>, m: Move)
    requires Told(items, archive, events, first, wide)
    ensures MoveIn(m, Movs(items)) || MoveIn(m, Movs(archive)) <==> MadeByAny(events, m, wide)
  {
    hide StatusAfter, Tells, MovesIn, MoverId, LastMoverIn;
    if MoveIn(m, Movs(items)) {
      var a :| 0 <= a < |items| && m in Movs(items)[a];
      assert Telling(items[a], events, first, Live, wide);
    }
    if MoveIn(m, Movs(archive)) {
      var a :| 0 <= a < |archive| && m in Movs(archive)[a];
      assert Telling(archive[a], events, first, Gone, wide);
    }
    if MadeByAny(events, m, wide) {
      var id :| m in MovesIn(events, id, wide);
      if StatusAfter(events, id) == Unknown {
        UnknownIsUnmoved(events, id, wide);
      } else if StatusAfter(events, id) == Live {
        var a :| 0 <= a < |items| && items[a].itemId == id;
        assert m in Movs(items)[a];
      } else {
        var a :| 0 <= a < |archive| && archive[a].itemId == id;
        assert m in Movs(archive)[a];
      }
    }
  }
}
