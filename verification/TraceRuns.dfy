/** Whole traces: from the header over all events to the end of the trace, and what is read back
    afterwards, in terms of the events themselves. */
module TraceRuns {
  import opened TagHistory
  import opened ItemTagHeaps
  import opened TagLogs
  import opened DBGraphs
  import opened TagIdVecs
  import opened MoveLogs
  import opened MoveLedgers
  import opened TrackHeaps
  import opened ListenerBooks
  import opened DBListeners
  import opened TraceEvents
  import opened TraceMoves
  import opened TraceLogs

  /** The map gives exactly the tracked edges, with their bandwidths. */
  ghost predicate Tracked(T: Tracks, wide: map<nat, nat>) {
    && (forall e :: e in wide <==> e in T.base)
    && (forall e :: e in wide ==> e in T.bandwidth && wide[e] == T.bandwidth[e])
  }

  /** Every tracked edge has a position counter of its own. */
  ghost predicate OwnCounters(slots: map<nat, nat>, used: seq<nat>, wide: map<nat, nat>) {
    && (forall e :: e in wide ==> SlotOf(slots, e) < |used|)
    && (forall e, e' :: e in wide && e' in wide && e != e' ==> SlotOf(slots, e) != SlotOf(slots, e'))
  }

  /** The counters are as the events say. */
  ghost predicate Counted(slots: map<nat, nat>, used: seq<nat>, events: seq<Event>, wide: map<nat, nat>)
    requires OwnCounters(slots, used, wide)
  {
    forall e :: e in wide ==> used[SlotOf(slots, e)] == CounterAfter(events, e, wide)
  }

  lemma CountedOn(slots: map<nat, nat>, used: seq<nat>, events: seq<Event>, e: Event, wide: map<nat, nat>)
    requires OwnCounters(slots, used, wide) && Counted(slots, used, events, wide)
    requires !Accepted(events, e) && (e.MoveItemsEvent? ==> e.edge !in wide)
    ensures Counted(slots, used, events + [e], wide)
  {
    hide CounterAfter, SlotOf, Accepted;
    forall k | k in wide
      ensures CounterAfter(events + [e], k, wide) == CounterAfter(events, k, wide)
    {
      CounterStep(events, e, k, wide);
    }
  }

  lemma CountedCycle(slots: map<nat, nat>, used: seq<nat>, zeros: seq<nat>, events: seq<Event>, e: Event,
                     wide: map<nat, nat>)
    requires OwnCounters(slots, used, wide) && Accepted(events, e) && zeros == seq(|used|, _ => 0)
    ensures OwnCounters(slots, zeros, wide) && Counted(slots, zeros, events + [e], wide)
  {
    hide CounterAfter, SlotOf, Accepted;
    forall k | k in wide
      ensures CounterAfter(events + [e], k, wide) == 0
    {
      CounterStep(events, e, k, wide);
    }
  }

  lemma CountedMoves(slots: map<nat, nat>, used: seq<nat>, events: seq<Event>, edge: nat, ids: seq<int>, q: nat,
                     wide: map<nat, nat>)
    requires OwnCounters(slots, used, wide) && Counted(slots, used, events, wide) && edge in wide
    requires q == CounterAfter(events + [MoveItemsEvent(edge, ids)], edge, wide)
    ensures OwnCounters(slots, used[SlotOf(slots, edge) := q], wide)
    ensures Counted(slots, used[SlotOf(slots, edge) := q], events + [MoveItemsEvent(edge, ids)], wide)
  {
    hide CounterAfter, SlotOf;
    forall k | k in wide && k != edge
      ensures CounterAfter(events + [MoveItemsEvent(edge, ids)], k, wide) == CounterAfter(events, k, wide)
    {
      CounterStep(events, MoveItemsEvent(edge, ids), k, wide);
    }
  }

  /** Deletions leave cycles and counters alone. */
  lemma {:induction false} DeletesOn(slots: map<nat, nat>, used: seq<nat>, events: seq<Event>,
                                     gone: seq<AuxItemListNode>, wide: map<nat, nat>)
    requires OwnCounters(slots, used, wide)
    ensures CycleAfter(events + Deletes(gone)) == CycleAfter(events)
    ensures Started(events + Deletes(gone)) <==> Started(events)
    ensures Started(events) ==> FirstAfter(events + Deletes(gone)) == FirstAfter(events)
    ensures Removed(events) <= Removed(events + Deletes(gone))
    ensures Counted(slots, used, events, wide) ==> Counted(slots, used, events + Deletes(gone), wide)
  {
    if gone == [] {
      assert events + Deletes(gone) == events;
    } else {
      hide Counted, CycleAfter, Started, FirstAfter, Removed, OwnCounters;
      var g, e := events + Deletes(gone[..|gone|-1]), DeleteItemEvent(gone[|gone|-1].itemId);
      DeletesOn(slots, used, events, gone[..|gone|-1], wide);
      CycleStep(g, e);
      CountStep(g, e);
      if Counted(slots, used, events, wide) {
        CountedOn(slots, used, g, e, wide);
      }
      assert events + Deletes(gone) == g + [e];
    }
  }

  /** What is true of the listener after some events. */
  ghost predicate Follows(l: DBListener, run: seq<Event>, wide: map<nat, nat>)
    reads l, l.itHeap, l.trHeap, l.trHeap.dbgraph
  {
    && l.Valid() && !l.eoSimulation && l.doTrackItemTags && l.lastUsedPosVector != []
    && l.currentCycle == CycleAfter(run) && (l.firstCycle <==> !Started(run))
    && (Started(run) ==> l.firstEffectiveCycle == FirstAfter(run))
    && Tracked(l.trHeap.State(), wide) && OwnCounters(l.lastUsedPosVectorIndirection, l.lastUsedPosVector, wide)
    && Kept(Books(l.itemList, l.archive), run, l.firstEffectiveCycle, wide)
    && (Removed(run) <= MAX_ITEM_ENTRIES ==>
          Counted(l.lastUsedPosVectorIndirection, l.lastUsedPosVector, run, wide))
    && Noted(l.lastProcessedEventOk, run, l.Limit())
  }

  /** What can be read from the listener, while events come in and when the trace has ended. */
  ghost predicate Agrees(l: DBListener, run: seq<Event>, wide: map<nat, nat>)
    reads l, l.itHeap, l.trHeap, l.trHeap.dbgraph
  {
    && l.Loaded() && (l.firstCycle <==> !Started(run)) && (Started(run) ==> l.firstEffectiveCycle == FirstAfter(run))
    && Tracked(l.trHeap.State(), wide) && Kept(Books(l.Unfiled(), l.archive), run, l.firstEffectiveCycle, wide)
  }

  lemma AgreesAlways(l: DBListener, run: seq<Event>, wide: map<nat, nat>)
    requires Follows(l, run, wide)
    ensures Agrees(l, run, wide)
  {
    hide DBListener.Valid, DBListener.Loaded, Started, FirstAfter, Tracked, Kept, Counted, OwnCounters, Removed, Noted;
    l.AlwaysLoaded();
  }

  // ---------------------------------------------------------------- processing a trace

  lemma TrackedSame(T: Tracks, U: Tracks, wide: map<nat, nat>)
    requires Tracked(T, wide) && SameOwners(T, U)
    ensures Tracked(U, wide)
  {
  }

  /** A cycle begins, or is refused. When there are too many live items the oldest ones are
      deleted in it. */
  method ProcessCycle(l: DBListener, n: nat, ghost run: seq<Event>, ghost wide: map<nat, nat>)
    returns (ghost gone: seq<AuxItemListNode>)
    requires Follows(l, run, wide)
    modifies l, l.trHeap, l.itHeap`lookUpCache, l.itHeap`itemVector, l.itHeap`tagVector, l.itHeap`chains
    modifies l.itHeap`nextTagVectorEntry, l.itHeap`nextItemVectorEntry, l.itHeap`owner, l.itHeap`rank
    modifies l.itHeap`firstEffectiveCycle
    ensures Follows(l, run + [CycleEvent(n)] + Deletes(gone), wide)
    ensures l.Limit() == None || !Accepted(run, CycleEvent(n)) ==> gone == []
  {
    hide DBListener.ItemsValid, DBListener.MovesValid, CycleAfter, Started, FirstAfter, Limited, RoundDone;
    hide Kept, Counted, OwnCounters, Tracked, Removed, WithAllDeleted, SameOwners, Deletes, Noted, Surplus, Signed;
    ghost var first, ok := l.firstEffectiveCycle, l.lastProcessedEventOk;
    ghost var b, e := Books(l.itemList, l.archive), CycleEvent(n);
    ghost var T, slots, used := l.trHeap.State(), l.lastUsedPosVectorIndirection, l.lastUsedPosVector;
    CycleStep(run, e);
    CountStep(run, e);
    l.Ordinary();
    gone := l.Cycle(n);
    TrackedSame(T, l.trHeap.State(), wide);
    KeptQuiet(b, run, e, first, wide);
    NotedCycle(ok, l.lastProcessedEventOk, b, run, n, l.Limit(), first, wide);
    if l.firstEffectiveCycle != first {
      KeptFirst(b, run + [e], first, l.firstEffectiveCycle, wide);
    }
    KeptDeletes(b, run + [e], gone, l.firstEffectiveCycle, wide);
    DeletedNone(b, []);
    NotedDeletes(l.lastProcessedEventOk, b, run + [e], gone, l.Limit(), l.firstEffectiveCycle, wide);
    if Accepted(run, e) {
      CountedCycle(slots, used, l.lastUsedPosVector, run, e, wide);
    } else {
      DeletedNone(b, gone);
      if Removed(run) <= MAX_ITEM_ENTRIES {
        CountedOn(slots, used, run, e, wide);
      }
    }
    DeletesOn(slots, l.lastUsedPosVector, run + [e], gone, wide);
  }

  method ProcessNewItem(l: DBListener, id: int, ghost run: seq<Event>, ghost wide: map<nat, nat>)
    requires Follows(l, run, wide) && Started(run) && StatusAfter(run, id) == Unknown
    modifies l, l.trHeap, l.itHeap`lookUpCache, l.itHeap`itemVector, l.itHeap`tagVector, l.itHeap`chains
    modifies l.itHeap`nextTagVectorEntry, l.itHeap`nextItemVectorEntry, l.itHeap`owner, l.itHeap`rank
    modifies l.itHeap`firstEffectiveCycle
    ensures Follows(l, run + [NewItemEvent(id)], wide)
  {
    hide DBListener.ItemsValid, DBListener.MovesValid, CycleAfter, Started, FirstAfter, StatusAfter;
    hide Kept, Counted, OwnCounters, Tracked, Removed, Noted;
    ghost var b, e := Books(l.itemList, l.archive), NewItemEvent(id);
    CycleStep(run, e);
    CountStep(run, e);
    NotedQuiet(l.lastProcessedEventOk, run, e, l.Limit());
    KeptNew(b, run, id, l.currentCycle, l.firstEffectiveCycle, wide);
    l.NewItem(id);
    if Removed(run) <= MAX_ITEM_ENTRIES {
      CountedOn(l.lastUsedPosVectorIndirection, l.lastUsedPosVector, run, e, wide);
    }
  }

  method ProcessSetTag(l: DBListener, id: int, tagid: nat, value: nat, ghost run: seq<Event>,
                       ghost wide: map<nat, nat>)
    requires Follows(l, run, wide) && tagid != l.itHeap.canonicalItemId
    modifies l, l.trHeap, l.itHeap`lookUpCache, l.itHeap`itemVector, l.itHeap`tagVector, l.itHeap`chains
    modifies l.itHeap`nextTagVectorEntry, l.itHeap`nextItemVectorEntry, l.itHeap`owner, l.itHeap`rank
    modifies l.itHeap`firstEffectiveCycle
    ensures Follows(l, run + [SetTagEvent(id, tagid, value)], wide)
  {
    hide DBListener.ItemsValid, DBListener.MovesValid, CycleAfter, Started, FirstAfter, StatusAfter;
    hide Kept, Counted, OwnCounters, Tracked, Removed, Noted, WithTagSet;
    ghost var b, e := Books(l.itemList, l.archive), SetTagEvent(id, tagid, value);
    CycleStep(run, e);
    CountStep(run, e);
    NotedQuiet(l.lastProcessedEventOk, run, e, l.Limit());
    l.Ordinary();
    KeptSet(b, run, id, tagid, value, l.firstEffectiveCycle, wide);
    l.SetTagSingleValue(id, tagid, value);
    if Removed(run) <= MAX_ITEM_ENTRIES {
      CountedOn(l.lastUsedPosVectorIndirection, l.lastUsedPosVector, run, e, wide);
    }
  }

  method ProcessMoveItems(l: DBListener, edge: nat, ids: seq<int>, ghost run: seq<Event>, ghost wide: map<nat, nat>)
    requires Follows(l, run, wide) && Started(run)
    requires edge in wide ==> CycleAfter(run) < FirstAfter(run) + 0x10_0000
    modifies l, l.trHeap, l.itHeap`lookUpCache, l.itHeap`itemVector, l.itHeap`tagVector, l.itHeap`chains
    modifies l.itHeap`nextTagVectorEntry, l.itHeap`nextItemVectorEntry, l.itHeap`owner, l.itHeap`rank
    modifies l.itHeap`firstEffectiveCycle
    ensures Follows(l, run + [MoveItemsEvent(edge, ids)], wide)
  {
    hide DBListener.ItemsValid, DBListener.MovesValid, CycleAfter, Started, FirstAfter, StatusAfter;
    hide Kept, Removed, WithMoves, SlotOf, CounterAfter, Noted;
    ghost var b, e, first := Books(l.itemList, l.archive), MoveItemsEvent(edge, ids), l.firstEffectiveCycle;
    ghost var T, slots, used := l.trHeap.State(), l.lastUsedPosVectorIndirection, l.lastUsedPosVector;
    CycleStep(run, e);
    CountStep(run, e);
    NotedQuiet(l.lastProcessedEventOk, run, e, l.Limit());
    l.MoveItems(edge, ids);
    TrackedSame(T, l.trHeap.State(), wide);
    if edge in wide {
      KeptMoves(b, run, edge, ids, used[SlotOf(slots, edge)], first, wide);
      if Removed(run) <= MAX_ITEM_ENTRIES {
        CountedMoves(slots, used, run, edge, ids, l.lastUsedPosVector[SlotOf(slots, edge)], wide);
      }
    } else {
      KeptQuiet(b, run, e, first, wide);
      if Removed(run) <= MAX_ITEM_ENTRIES {
        CountedOn(slots, used, run, e, wide);
      }
    }
  }

  method ProcessDeleteItem(l: DBListener, id: int, ghost run: seq<Event>, ghost wide: map<nat, nat>)
    requires Follows(l, run, wide)
    modifies l, l.trHeap, l.itHeap`lookUpCache, l.itHeap`itemVector, l.itHeap`tagVector, l.itHeap`chains
    modifies l.itHeap`nextTagVectorEntry, l.itHeap`nextItemVectorEntry, l.itHeap`owner, l.itHeap`rank
    modifies l.itHeap`firstEffectiveCycle
    ensures Follows(l, run + [DeleteItemEvent(id)], wide)
  {
    hide DBListener.ItemsValid, DBListener.MovesValid, CycleAfter, Started, FirstAfter, StatusAfter;
    hide Kept, Counted, OwnCounters, Tracked, Removed, SameOwners, FindItem, Noted;
    ghost var b, e, T := Books(l.itemList, l.archive), DeleteItemEvent(id), l.trHeap.State();
    ghost var ok := l.lastProcessedEventOk;
    l.Ordinary();
    FindBound(l.itemList, id);
    CycleStep(run, e);
    CountStep(run, e);
    KeptDelete(b, run, id, l.firstEffectiveCycle, wide);
    l.DeleteItem(id);
    NotedDelete(ok, l.lastProcessedEventOk, b, run, id, l.Limit(), l.firstEffectiveCycle, wide);
    TrackedSame(T, l.trHeap.State(), wide);
    if Removed(run) <= MAX_ITEM_ENTRIES {
      CountedOn(l.lastUsedPosVectorIndirection, l.lastUsedPosVector, run, e, wide);
    }
  }

  /** Processes events, one by one, after those before. What comes of it is what these events say,
      with the deletions that the limit of live items has caused; without a limit there are none. */
  method ProcessEvents(l: DBListener, events: seq<Event>, ghost before: seq<Event>, ghost wide: map<nat, nat>)
    returns (ghost gone: seq<seq<AuxItemListNode>>)
    requires Follows(l, before, wide) && RegularMore(before, events, l.itHeap.canonicalItemId, wide)
    modifies l, l.trHeap, l.itHeap`lookUpCache, l.itHeap`itemVector, l.itHeap`tagVector, l.itHeap`chains
    modifies l.itHeap`nextTagVectorEntry, l.itHeap`nextItemVectorEntry, l.itHeap`owner, l.itHeap`rank
    modifies l.itHeap`firstEffectiveCycle
    ensures |gone| == |events| && Follows(l, before + Woven(events, gone), wide)
    ensures forall n :: 0 <= n < |events| && (!events[n].CycleEvent? || l.Limit() == None) ==> gone[n] == []
    ensures l.Limit() == None ==> Woven(events, gone) == events
    ensures Alike(before + events, before + Woven(events, gone))
  {
    hide Follows, CycleAfter, Started, FirstAfter, StatusAfter, Alike, RegularNext;
    gone := [];
    assert before + Woven(events[..0], gone) == before && before + events[..0] == before;
    AlikeSelf(before);
    for n := 0 to |events|
      invariant |gone| == n && Follows(l, before + Woven(events[..n], gone), wide)
      invariant Alike(before + events[..n], before + Woven(events[..n], gone))
      invariant forall k :: 0 <= k < n && (!events[k].CycleEvent? || l.Limit() == None) ==> gone[k] == []
    {
      ghost var past, run, e := before + events[..n], before + Woven(events[..n], gone), events[n];
      NextAlike(past, run, e, l.itHeap.canonicalItemId, wide);
      ghost var more: seq<AuxItemListNode> := [];
      match events[n] {
      case CycleEvent(c) => more := ProcessCycle(l, c, run, wide);
      case NewItemEvent(id) => ProcessNewItem(l, id, run, wide);
      case SetTagEvent(id, t, v) => ProcessSetTag(l, id, t, v, run, wide);
      case MoveItemsEvent(edge, ids) => ProcessMoveItems(l, edge, ids, run, wide);
      case DeleteItemEvent(id) => ProcessDeleteItem(l, id, run, wide);
      }
      assert more == [] ==> run + [e] + Deletes(more) == run + [e];
      assert Follows(l, run + [e] + Deletes(more), wide);
      AlikeStep(past, run, e);
      AlikeDeletes(past + [e], run + [e], more);
      WovenMore(before, events, n, gone, more);
      gone := gone + [more];
    }
    assert events[..|events|] == events;
    if l.Limit() == None {
      WovenPlain(events, gone);
    }
  }

  lemma AlikeSelf(events: seq<Event>)
    ensures Alike(events, events)
  {
  }

  lemma WovenMore(before: seq<Event>, events: seq<Event>, n: nat, gone: seq<seq<AuxItemListNode>>,
                  more: seq<AuxItemListNode>)
    requires n < |events| && |gone| == n
    ensures before + Woven(events[..n+1], gone + [more])
         == before + Woven(events[..n], gone) + [events[n]] + Deletes(more)
    ensures more == [] ==>
              before + Woven(events[..n+1], gone + [more]) == before + Woven(events[..n], gone) + [events[n]]
    ensures before + events[..n+1] == before + events[..n] + [events[n]]
  {
    assert events[..n+1][..n] == events[..n] && (gone + [more])[..n] == gone;
  }

  // ---------------------------------------------------------------- before the events

  /** The edges among these that there are, with their bandwidths. */
  ghost function WideEdges(graph: DBGraph, edges: seq<nat>): map<nat, nat>
    reads graph
  {
    map e | e in edges && e in graph.dbgeList :: graph.dbgeList[e].bandwidth
  }

  /** No item is created and none moves. */
  predicate Idle(events: seq<Event>) {
    forall n :: 0 <= n < |events| ==> !events[n].NewItemEvent? && !events[n].MoveItemsEvent?
  }

  lemma {:induction false} IdleSays(events: seq<Event>, id: int, edge: nat, m: Move, wide: map<nat, nat>)
    requires Idle(events)
    ensures StatusAfter(events, id) == Unknown && Created(events) == Removed(events) == 0
    ensures edge in wide ==> CounterAfter(events, edge, wide) == 0
    ensures LastMoverIn(events, m, wide) == None
  {
    if events != [] {
      var g, e := events[..|events|-1], events[|events|-1];
      IdleSays(g, id, edge, m, wide);
      if e.DeleteItemEvent? {
        IdleSays(g, e.id, edge, m, wide);
      }
    }
  }

  /** A listener that has seen only the header follows it, whatever edges are tracked by then. */
  lemma FollowsHeader(l: DBListener, events: seq<Event>, wide: map<nat, nat>)
    requires l.Valid() && !l.eoSimulation && l.itemList == [] && l.archive == [] && l.doTrackItemTags
    requires l.lastUsedPosVector != [] && Idle(events) && (l.lastProcessedEventOk <==> OkAfter(events, l.Limit()))
    requires l.currentCycle == CycleAfter(events) && (l.firstCycle <==> !Started(events))
    requires Started(events) ==> l.firstEffectiveCycle == FirstAfter(events)
    requires Tracked(l.trHeap.State(), wide) && OwnCounters(l.lastUsedPosVectorIndirection, l.lastUsedPosVector, wide)
    requires forall e :: e in wide ==> l.lastUsedPosVector[SlotOf(l.lastUsedPosVectorIndirection, e)] == 0
    ensures Follows(l, events, wide)
  {
    hide DBListener.Valid, StatusAfter, CounterAfter, CycleAfter, Started, FirstAfter, LastMoverIn, Created, Removed;
    hide OkAfter, Idle;
    IdleSays(events, 0, 0, Move(0, 0, 0), wide);
    forall id
      ensures StatusAfter(events, id) == Unknown
    {
      IdleSays(events, id, 0, Move(0, 0, 0), wide);
    }
    forall e | e in wide
      ensures CounterAfter(events, e, wide) == 0
    {
      IdleSays(events, 0, e, Move(0, 0, 0), wide);
    }
    forall m
      ensures LastMoverIn(events, m, wide) == None == MoverId([], m)
    {
      IdleSays(events, 0, 0, m, wide);
    }
  }

  /** A listener that has just been made. */
  ghost predicate Unused(l: DBListener)
    reads l, l.itHeap, l.trHeap, l.trHeap.dbgraph
  {
    && l.Valid() && l.firstCycle && !l.eoSimulation && l.doTrackItemTags && l.trackedEdges == []
    && l.processingDralHeader && l.lastProcessedEventOk
    && l.trHeap.edgeTrackTbl == map[] && l.trHeap.nextTrackID == 0
  }

  /** The state of a listener that reads a header. */
  ghost predicate InHeader(l: DBListener, events: seq<Event>)
    reads l, l.itHeap, l.trHeap, l.trHeap.dbgraph
  {
    && l.Valid() && !l.eoSimulation && l.doTrackItemTags && l.trackedEdges == []
    && l.trHeap.edgeTrackTbl == map[] && l.trHeap.nextTrackID == 0 && l.itemList == [] && l.archive == []
    && l.currentCycle == CycleAfter(events)
    && (l.firstCycle <==> !Started(events)) && (Started(events) ==> l.firstEffectiveCycle == FirstAfter(events))
    && (l.lastProcessedEventOk <==> OkAfter(events, l.Limit())) && Idle(events)
  }

  /** The first cycle event ends the header. */
  method ProcessHeaderCycle(l: DBListener, n: nat, ghost past: seq<Event>)
    requires InHeader(l, past) && l.firstCycle
    modifies l, l.trHeap, l.itHeap`lookUpCache, l.itHeap`itemVector, l.itHeap`tagVector, l.itHeap`chains
    modifies l.itHeap`nextTagVectorEntry, l.itHeap`nextItemVectorEntry, l.itHeap`owner, l.itHeap`rank
    modifies l.itHeap`firstEffectiveCycle
    ensures InHeader(l, past + [CycleEvent(n)]) && !l.processingDralHeader
  {
    hide DBListener.ItemsValid, DBListener.MovesValid, CycleAfter, Started, FirstAfter, RoundDone, OldestFirst;
    hide OkAfter, Removed, Created, Signed, StatusAfter, WithAllDeleted;
    CycleStep(past, CycleEvent(n));
    OkStep(past, CycleEvent(n), l.Limit());
    IdleSays(past, 0, 0, Move(0, 0, 0), map[]);
    l.Ordinary();
    assert (past + [CycleEvent(n)])[..|past|] == past;
    var _ := l.Cycle(n);
  }

  /** One event of the header. */
  method ProcessHeaderEvent(l: DBListener, e: Event, ghost past: seq<Event>)
    requires InHeader(l, past) && l.firstCycle
    requires e.CycleEvent? || e.DeleteItemEvent? || (e.SetTagEvent? && e.tagid != l.itHeap.canonicalItemId)
    modifies l, l.trHeap, l.itHeap`lookUpCache, l.itHeap`itemVector, l.itHeap`tagVector, l.itHeap`chains
    modifies l.itHeap`nextTagVectorEntry, l.itHeap`nextItemVectorEntry, l.itHeap`owner, l.itHeap`rank
    modifies l.itHeap`firstEffectiveCycle
    ensures InHeader(l, past + [e]) && l.processingDralHeader == (old(l.processingDralHeader) && !e.CycleEvent?)
    ensures !e.CycleEvent? ==> l.lastProcessedEventOk == old(l.lastProcessedEventOk) && l.firstCycle
  {
    hide DBListener.ItemsValid, DBListener.MovesValid, CycleAfter, Started, FirstAfter;
    hide OkAfter, Removed, Created, StatusAfter;
    CycleStep(past, e);
    OkStep(past, e, l.Limit());
    IdleSays(past, 0, 0, Move(0, 0, 0), map[]);
    l.Ordinary();
    assert (past + [e])[..|past|] == past;
    match e {
      case CycleEvent(n) =>
        ProcessHeaderCycle(l, n, past);
      case SetTagEvent(id, t, v) =>
        l.SetTagSingleValue(id, t, v);
      case DeleteItemEvent(id) =>
        IdleSays(past, id, 0, Move(0, 0, 0), map[]);
        l.DeleteItem(id);
    }
  }

  /** The header: events are read one by one up to the first one of a cycle. */
  method ProcessHeader(l: DBListener, events: seq<Event>, ghost canonical: nat, ghost wide: map<nat, nat>)
    returns (n: nat)
    requires Unused(l) && canonical == l.itHeap.canonicalItemId && Regular(events, canonical, wide)
    modifies l, l.trHeap, l.itHeap`lookUpCache, l.itHeap`itemVector, l.itHeap`tagVector, l.itHeap`chains
    modifies l.itHeap`nextTagVectorEntry, l.itHeap`nextItemVectorEntry, l.itHeap`owner, l.itHeap`rank
    modifies l.itHeap`firstEffectiveCycle
    ensures n == HeaderLen(events) && InHeader(l, events[..n])
  {
    hide DBListener.Valid, CycleAfter, FirstAfter, StatusAfter, OkAfter, RegularNext, HeaderLen, Idle, InHeader;
    n := 0;
    HeaderStart(l, events);
    while l.processingDralHeader && l.lastProcessedEventOk && n < |events|
      invariant n <= |events| && InHeader(l, events[..n])
      invariant l.processingDralHeader ==>
                  l.firstCycle && l.lastProcessedEventOk && forall k :: 0 <= k < n ==> !events[k].CycleEvent?
      invariant !l.processingDralHeader ==>
                  n > 0 && events[n-1].CycleEvent? && forall k :: 0 <= k < n - 1 ==> !events[k].CycleEvent?
      decreases |events| - n
    {
      HeaderEvent(events, n, canonical, wide);
      ProcessHeaderEvent(l, events[n], events[..n]);
      assert events[..n+1] == events[..n] + [events[n]];
      n := n + 1;
    }
    HeaderLenIs(events, n);
  }

  lemma HeaderStart(l: DBListener, events: seq<Event>)
    requires Unused(l)
    ensures InHeader(l, events[..0])
  {
    hide DBListener.ItemsValid, DBListener.MovesValid;
    l.Ordinary();
  }

  /** Before the first cycle there are no items. */
  lemma HeaderEvent(events: seq<Event>, n: nat, canonical: nat, wide: map<nat, nat>)
    requires Regular(events, canonical, wide) && n < |events| && forall k :: 0 <= k < n ==> !events[k].CycleEvent?
    ensures events[n].CycleEvent? || events[n].DeleteItemEvent?
            || (events[n].SetTagEvent? && events[n].tagid != canonical)
  {
    NoCycle(events[..n]);
    assert RegularNext(events[..n], events[n], canonical, wide);
  }

  lemma {:induction false} NoCycle(events: seq<Event>)
    requires forall k :: 0 <= k < |events| ==> !events[k].CycleEvent?
    ensures !Started(events)
  {
    if events != [] {
      NoCycle(events[..|events|-1]);
    }
  }

  lemma {:induction false} HeaderLenIs(events: seq<Event>, n: nat)
    requires n <= |events| && forall k :: 0 <= k < n - 1 ==> !events[k].CycleEvent?
    requires (n > 0 && events[n-1].CycleEvent?) || (n == |events| && forall k :: 0 <= k < n ==> !events[k].CycleEvent?)
    ensures HeaderLen(events) == n
  {
    if events != [] && !events[0].CycleEvent? {
      HeaderLenIs(events[1..], n - 1);
    }
  }

  /** How many tracks these edges take. */
  ghost function TracksFor(graph: DBGraph, edges: seq<nat>): nat
    reads graph
  {
    if edges == [] then 0
    else
      var g, e := edges[..|edges|-1], edges[|edges|-1];
      TracksFor(graph, g) + if e in g || e !in graph.dbgeList then 0 else graph.dbgeList[e].bandwidth
  }

  lemma {:induction false} TracksGrow(graph: DBGraph, edges: seq<nat>, i: nat)
    requires i <= |edges|
    ensures TracksFor(graph, edges[..i]) <= TracksFor(graph, edges)
    decreases |edges|
  {
    if i == |edges| {
      assert edges[..i] == edges;
    } else {
      TracksGrow(graph, edges[..|edges|-1], i);
      assert edges[..|edges|-1][..i] == edges[..i];
    }
  }

  /** The edges that are to be tracked. */
  method TrackEdges(l: DBListener, edges: seq<nat>)
    requires l.Valid() && l.trackedEdges == [] && l.trHeap.edgeTrackTbl == map[]
    requires l.trHeap.nextTrackID == 0 && TracksFor(l.dbGraph, edges) <= 0x4_0000
    modifies l`trackedEdges
    modifies l.trHeap`nextTrackID, l.trHeap`trackTypes, l.trHeap`itemIdxVectors, l.trHeap`edgeTrackTbl
    ensures l.Valid() && l.trackedEdges == edges
    ensures forall e :: e in l.trHeap.edgeTrackTbl <==> e in edges && e in l.dbGraph.dbgeList
  {
    hide DBListener.ItemsValid, DBListener.MovesValid, Grown, WithEdge;
    for i := 0 to |edges|
      invariant l.Valid() && l.trackedEdges == edges[..i]
      invariant l.trHeap.nextTrackID == TracksFor(l.dbGraph, edges[..i])
      invariant forall e :: e in l.trHeap.edgeTrackTbl <==> e in edges[..i] && e in l.dbGraph.dbgeList
    {
      assert edges[..i+1] == edges[..i] + [edges[i]] && edges[..i+1][..i] == edges[..i];
      TracksGrow(l.dbGraph, edges, i + 1);
      GraphKept(l);
      ghost var T := l.trHeap.State();
      var _ := l.TrackMoveItem(edges[i]);
      GraphKept(l);
      BaseWithEdge(T, edges[i]);
    }
    assert edges[..|edges|] == edges;
  }

  lemma BaseWithEdge(T: Tracks, edge: nat)
    ensures edge in T.bandwidth ==>
              && WithEdge(T, edge).base == T.base[edge := |T.kinds|]
              && |WithEdge(T, edge).kinds| == |T.kinds| + T.bandwidth[edge]
  {
  }

  /** The setup of a load: the header of the trace, the edges that are to be tracked, and the
      counters. From here on the listener follows the events. */
  method SetUp(l: DBListener, events: seq<Event>, edges: seq<nat>) returns (n: nat)
    requires Unused(l) && Regular(events, l.itHeap.canonicalItemId, WideEdges(l.dbGraph, edges))
    requires TracksFor(l.dbGraph, edges) <= 0x4_0000
    modifies l, l.trHeap, l.itHeap`lookUpCache, l.itHeap`itemVector, l.itHeap`tagVector, l.itHeap`chains
    modifies l.itHeap`nextTagVectorEntry, l.itHeap`nextItemVectorEntry, l.itHeap`owner, l.itHeap`rank
    modifies l.itHeap`firstEffectiveCycle
    ensures n == HeaderLen(events) && Follows(l, events[..n], WideEdges(l.dbGraph, edges))
  {
    hide DBListener.ItemsValid, DBListener.MovesValid, CycleAfter, Started, FirstAfter, OkAfter, Regular, Idle;
    hide HeaderLen, DBListener.Valid;
    GraphKept(l);
    n := ProcessHeader(l, events, l.itHeap.canonicalItemId, WideEdges(l.dbGraph, edges));
    TrackEdges(l, edges);
    l.SetTrackedEdges();
    l.PropagateFirstCycle();
    GraphKept(l);
    FollowsHeader(l, events[..n], WideEdges(l.dbGraph, edges));
  }

  lemma GraphKept(l: DBListener)
    requires l.Valid()
    ensures l.trHeap.dbgraph == l.dbGraph && l.trHeap.nextTrackID == |l.trHeap.trackTypes|
  {
  }

  // ---------------------------------------------------------------- reading events in batches

  /** The first n of these events have been read, with the deletions that the limit has caused, and after
      every batch but the last all was well. */
  ghost predicate ReadSoFar(l: DBListener, before: seq<Event>, events: seq<Event>, n: nat,
                            gone: seq<seq<AuxItemListNode>>, wide: map<nat, nat>)
    reads l, l.itHeap, l.trHeap, l.trHeap.dbgraph
  {
    && n == |gone| <= |events| && (n == |events| || n % DRALDB_PROCESS_STEP == 0)
    && Follows(l, before + Woven(events[..n], gone), wide)
    && Alike(before + events[..n], before + Woven(events[..n], gone))
    && BatchesOk(before, events, n, gone, l.Limit())
    && (forall k :: 0 <= k < n && (!events[k].CycleEvent? || l.Limit() == None) ==> gone[k] == [])
  }

  ghost predicate BatchesOk(before: seq<Event>, events: seq<Event>, n: nat, gone: seq<seq<AuxItemListNode>>,
                            limit: Option<nat>)
    requires n == |gone| <= |events|
  {
    forall k :: 0 < k < n && k % DRALDB_PROCESS_STEP == 0 ==> OkAfter(before + Woven(events[..k], gone[..k]), limit)
  }

  /** Reads one batch, or nothing at the end. */
  method ProcessNextEvent(l: DBListener, events: seq<Event>, n: nat, ghost before: seq<Event>,
                          ghost wide: map<nat, nat>, ghost gone: seq<seq<AuxItemListNode>>)
    returns (cmds: nat, ghost all: seq<seq<AuxItemListNode>>)
    requires ReadSoFar(l, before, events, n, gone, wide) && RegularMore(before, events, l.itHeap.canonicalItemId, wide)
    requires n > 0 ==> l.lastProcessedEventOk
    modifies l, l.trHeap, l.itHeap`lookUpCache, l.itHeap`itemVector, l.itHeap`tagVector, l.itHeap`chains
    modifies l.itHeap`nextTagVectorEntry, l.itHeap`nextItemVectorEntry, l.itHeap`owner, l.itHeap`rank
    modifies l.itHeap`firstEffectiveCycle
    ensures cmds == if |events| - n < DRALDB_PROCESS_STEP then |events| - n else DRALDB_PROCESS_STEP
    ensures ReadSoFar(l, before, events, n + cmds, all, wide)
  {
    hide Follows, OkAfter, Alike, RegularMore, Woven;
    cmds := if |events| - n < DRALDB_PROCESS_STEP then |events| - n else DRALDB_PROCESS_STEP;
    ghost var past, run, batch := before + events[..n], before + Woven(events[..n], gone), events[n..n+cmds];
    FollowsFlag(l, run, wide);
    BatchRegular(before, events, n, cmds, l.itHeap.canonicalItemId, wide);
    RegularAlike(past, run, batch, l.itHeap.canonicalItemId, wide);
    ghost var limit := l.Limit();
    ghost var more := ProcessEvents(l, events[n..n+cmds], run, wide);
    BatchWoven(before, events, n, cmds, gone, more);
    AlikeMore(past, run, batch);
    AlikeTwice(past + batch, run + batch, run + Woven(batch, more));
    all := gone + more;
    BatchAdded(before, events, n, cmds, gone, more, limit);
  }

  lemma BatchAdded(before: seq<Event>, events: seq<Event>, n: nat, m: nat, gone: seq<seq<AuxItemListNode>>,
                   more: seq<seq<AuxItemListNode>>, limit: Option<nat>)
    requires n == |gone| && |more| == m && n + m <= |events| && m <= DRALDB_PROCESS_STEP
    requires BatchesOk(before, events, n, gone, limit)
    requires n > 0 ==> OkAfter(before + Woven(events[..n], gone), limit)
    requires n % DRALDB_PROCESS_STEP == 0 || m == 0
    ensures BatchesOk(before, events, n + m, gone + more, limit)
  {
    hide OkAfter, Woven;
    var all := gone + more;
    forall k | 0 < k < n + m && k % DRALDB_PROCESS_STEP == 0
      ensures OkAfter(before + Woven(events[..k], all[..k]), limit)
    {
      assert k <= n;
      assert all[..k] == gone[..k] && gone[..n] == gone;
    }
  }

  /** Reads the events of a trace in batches of 4096, and asks after each of them whether all is well: if
      something has gone wrong in a batch, that was the last one. */
  method ProcessAllEvents(l: DBListener, events: seq<Event>, ghost before: seq<Event>, ghost wide: map<nat, nat>)
    returns (r: bool, n: nat, ghost gone: seq<seq<AuxItemListNode>>)
    requires Follows(l, before, wide) && RegularMore(before, events, l.itHeap.canonicalItemId, wide)
    modifies l, l.trHeap, l.itHeap`lookUpCache, l.itHeap`itemVector, l.itHeap`tagVector, l.itHeap`chains
    modifies l.itHeap`nextTagVectorEntry, l.itHeap`nextItemVectorEntry, l.itHeap`owner, l.itHeap`rank
    modifies l.itHeap`firstEffectiveCycle
    ensures ReadSoFar(l, before, events, n, gone, wide) && (r <==> n == |events| && l.lastProcessedEventOk)
    ensures n < |events| ==> n > 0 && !OkAfter(before + Woven(events[..n], gone), l.Limit())
  {
    hide Follows, OkAfter, Alike, RegularMore, BatchesOk;
    n, gone := 0, [];
    var cmds, ok := 1, true;
    assert before + Woven(events[..0], gone) == before && before + events[..0] == before;
    AlikeSelf(before);
    NoBatch(before, events, l.Limit());
    while cmds > 0 && ok
      invariant ReadSoFar(l, before, events, n, gone, wide)
      invariant ok == l.lastProcessedEventOk || (n == 0 && ok && cmds > 0)
      invariant (cmds == 0 ==> n == |events|) && (!ok ==> n > 0 || n == |events|)
      decreases |events| - n, cmds
    {
      cmds, gone := ProcessNextEvent(l, events, n, before, wide, gone);
      n := n + cmds;
      ok := l.lastProcessedEventOk;
    }
    FollowsFlag(l, before + Woven(events[..n], gone), wide);
    r := ok && cmds == 0;
  }

  lemma NoBatch(before: seq<Event>, events: seq<Event>, limit: Option<nat>)
    ensures BatchesOk(before, events, 0, [], limit)
  {
  }

  lemma FollowsFlag(l: DBListener, run: seq<Event>, wide: map<nat, nat>)
    requires Follows(l, run, wide)
    ensures l.lastProcessedEventOk <==> OkAfter(run, l.Limit())
  {
    hide DBListener.Valid, CycleAfter, Started, FirstAfter, Kept, Counted, OwnCounters, Tracked, Removed, OkAfter;
  }

  lemma AlikeTwice(a: seq<Event>, b: seq<Event>, c: seq<Event>)
    requires Alike(a, b) && Alike(b, c)
    ensures Alike(a, c)
  {
    hide CycleAfter, Started, FirstAfter, Created, StatusAfter;
  }

  lemma BatchRegular(before: seq<Event>, events: seq<Event>, n: nat, m: nat, canonical: nat, wide: map<nat, nat>)
    requires RegularMore(before, events, canonical, wide) && n + m <= |events|
    ensures RegularMore(before + events[..n], events[n..n+m], canonical, wide)
  {
    hide RegularNext;
    var batch := events[n..n+m];
    forall k | 0 <= k < m
      ensures RegularNext(before + events[..n] + batch[..k], batch[k], canonical, wide)
    {
      assert before + events[..n] + batch[..k] == before + events[..n+k] && batch[k] == events[n+k];
    }
  }

  lemma BatchWoven(before: seq<Event>, events: seq<Event>, n: nat, m: nat, gone: seq<seq<AuxItemListNode>>,
                   more: seq<seq<AuxItemListNode>>)
    requires n + m <= |events| && |gone| == n && |more| == m
    ensures before + Woven(events[..n+m], gone + more)
         == before + Woven(events[..n], gone) + Woven(events[n..n+m], more)
    ensures before + events[..n+m] == before + events[..n] + events[n..n+m]
  {
    hide Woven;
    var a, b := events[..n], events[n..n+m];
    assert events[..n+m] == a + b;
    WovenConcat(a, b, gone, more);
    Regrouped(before, a, b);
    Regrouped(before, Woven(a, gone), Woven(b, more));
  }

  lemma Regrouped(a: seq<Event>, b: seq<Event>, c: seq<Event>)
    ensures a + (b + c) == a + b + c
  {
  }

  // ---------------------------------------------------------------- the end of the trace

  /** The trace ends: what comes of it is what the events say together with a last cycle and, with
      auto purge, the tagging and deletion of exactly the items that are still live, in some order. */
  method ProcessEnd(l: DBListener, ghost run: seq<Event>, ghost wide: map<nat, nat>)
    returns (ghost gone: seq<AuxItemListNode>, ghost order: seq<AuxItemListNode>)
    requires Follows(l, run, wide) && l.currentCycle < 0x7FFF_FFFF
    modifies l, l.trHeap, l.itHeap`lookUpCache, l.itHeap`itemVector, l.itHeap`tagVector, l.itHeap`chains
    modifies l.itHeap`nextTagVectorEntry, l.itHeap`nextItemVectorEntry, l.itHeap`owner, l.itHeap`rank
    modifies l.itHeap`firstEffectiveCycle
    ensures Agrees(l, run + Closing(run, gone, order, l.eofPurgeTag), wide)
    ensures Started(run + Closing(run, gone, order, l.eofPurgeTag))
    ensures !l.autoPurge ==> order == []
    ensures l.Limit() == None ==> gone == []
    ensures IdsDiffer(order)
    ensures l.autoPurge && Removed(LastCycleRun(run, gone)) <= MAX_ITEM_ENTRIES ==>
              forall id :: Among(order, id) <==> StatusAfter(LastCycleRun(run, gone), id) == Live
  {
    hide DBListener.ItemsValid, DBListener.MovesValid, CycleAfter, Started, FirstAfter, DBListener.Loaded;
    hide Kept, Counted, OwnCounters, Tracked, Removed, WithAllDeleted, WithAllPurged, SameOwners, Purges, Deletes;
    hide Purging, Closed, Permuted, StatusAfter;
    ghost var b, e, first := Books(l.itemList, l.archive), CycleEvent(CycleAfter(run) + 1), l.firstEffectiveCycle;
    ghost var T := l.trHeap.State();
    CycleStep(run, e);
    SignedSmall(l.currentCycle + 1);
    l.Ordinary();
    gone, order := l.EndSimulation();
    ghost var mid, last := WithAllDeleted(b, gone), LastCycleRun(run, gone);
    TrackedSame(T, l.trHeap.State(), wide);
    KeptQuiet(b, run, e, first, wide);
    if l.firstEffectiveCycle != first {
      KeptFirst(b, run + [e], first, l.firstEffectiveCycle, wide);
    }
    KeptDeletes(b, run + [e], gone, l.firstEffectiveCycle, wide);
    DeletesOn(map[], [], run + [e], gone, map[]) by { NoCounters(); }
    FirstLoaded(l);
    KeptPurges(mid, last, order, l.eofPurgeTag, l.firstEffectiveCycle, wide);
    PurgesOn(last, order, l.eofPurgeTag);
    assert run + Closing(run, gone, order, l.eofPurgeTag) == last + Purges(order, l.eofPurgeTag);
    assert l.Unfiled() == l.dropped;
    if l.autoPurge {
      OrderLive(mid, order, last, l.firstEffectiveCycle, wide);
    }
  }

  lemma NoCounters()
    ensures OwnCounters(map[], [], map[])
  {
  }

  lemma FirstLoaded(l: DBListener)
    requires l.Loaded() && !l.firstCycle
    ensures l.firstEffectiveCycle <= l.currentCycle
  {
    hide DBListener.ItemsValid, TracksOk, AllKnown, Mirrored, Chunked, Bounded;
  }

  lemma {:induction false} PurgesOn(events: seq<Event>, order: seq<AuxItemListNode>, tag: nat)
    ensures Started(events + Purges(order, tag)) <==> Started(events)
    ensures Started(events) ==> FirstAfter(events + Purges(order, tag)) == FirstAfter(events)
  {
    if order == [] {
      assert events + Purges(order, tag) == events;
    } else {
      hide Started, FirstAfter, CycleAfter;
      var id := order[|order|-1].itemId;
      var past := events + Purges(order[..|order|-1], tag);
      PurgesOn(events, order[..|order|-1], tag);
      CycleStep(past, SetTagEvent(id, tag, 1));
      CycleStep(past + [SetTagEvent(id, tag, 1)], DeleteItemEvent(id));
      assert events + Purges(order, tag) == past + [SetTagEvent(id, tag, 1)] + [DeleteItemEvent(id)];
    }
  }

  /** The items that are purged are those that are live. */
  lemma OrderLive(b: Books, order: seq<AuxItemListNode>, events: seq<Event>, first: int, wide: map<nat, nat>)
    requires Kept(b, events, first, wide) && Permuted(Aux(b.items), order)
    ensures IdsDiffer(order)
    ensures Removed(events) <= MAX_ITEM_ENTRIES ==> forall id :: Among(order, id) <==> StatusAfter(events, id) == Live
  {
    hide Removed, StatusAfter, Telling, MoverId, LastMoverIn;
    DistinctTail(b.archive, b.items);
    if Removed(events) <= MAX_ITEM_ENTRIES {
      forall id
        ensures Among(order, id) <==> StatusAfter(events, id) == Live
      {
        LiveAmong(b.items, order, id);
        if HasId(b.items, id) {
          var i :| 0 <= i < |b.items| && b.items[i].itemId == id;
          TellingStatus(b.items[i], events, first, Live, wide);
        }
      }
    }
  }

  lemma LiveAmong(items: NewItemList, order: seq<AuxItemListNode>, id: int)
    requires Permuted(Aux(items), order)
    ensures Among(order, id) <==> HasId(items, id)
  {
    if HasId(items, id) {
      var i :| 0 <= i < |items| && items[i].itemId == id;
      var p := SortedAt(items, order, i);
      assert order[p].itemId == id;
    }
    if Among(order, id) {
      var k :| 0 <= k < |order| && order[k].itemId == id;
      assert order[k] in Aux(items);
      var i :| 0 <= i < |items| && Aux(items)[i] == order[k];
      assert items[i].itemId == id;
    }
  }

  // ---------------------------------------------------------------- reading a trace back

  /** What a reader has of the books. */
  lemma AgreesFacts(l: DBListener, run: seq<Event>, wide: map<nat, nat>)
    requires Agrees(l, run, wide) && Removed(run) <= 0x1000_0000 && Started(run)
    ensures l.ItemsValid() && !l.firstCycle && l.firstEffectiveCycle == FirstAfter(run)
    ensures Told(l.Unfiled(), l.archive, run, FirstAfter(run), wide) && Distinct(l.archive)
  {
    hide DBListener.ItemsValid, Started, FirstAfter, Removed, Told, Met, TracksHold;
    assert forall i :: 0 <= i < |l.archive| ==> (l.archive + l.Unfiled())[i] == l.archive[i];
  }

  /** What the heap has of a deleted item. */
  lemma ArchiveLog(l: DBListener, a: nat)
    requires l.ItemsValid() && a < |l.archive|
    ensures LogOk(l.archive[a].tags)
  {
    FiledAt(l.itHeap.Lay(), l.archive, l.firstEffectiveCycle, l.itHeap.compressMutable, a);
  }

  /** End to end, from events to answers, while events come in and after the end of the trace: a tag
      of a deleted item has at every cycle the value that its last set event at or before that cycle
      gave it, whatever happened to other items and tags; without such an event it has no value, or
      the first one when values propagate backwards. Only the events that set this tag on this item
      must lie in the first 2^22 cycles, and only tags with the same 12 bits matter. Of items that
      were not deleted, and of tags beyond 12 bits, nothing is found. A cycle before the first one is
      taken for one 2^32 cycles later, and so finds the last value. */
  method ReadTag(l: DBListener, h: ItemHandler, ghost run: seq<Event>, ghost wide: map<nat, nat>, id: int, t: nat,
                 cycle: int)
    returns (r: bool, value: int)
    requires Agrees(l, run, wide) && Removed(run) <= 0x1000_0000 && Started(run) && WithinTables(run, wide)
    requires t != l.itHeap.canonicalItemId && FirstAfter(run) - 0x1_0000_0000 <= cycle < FirstAfter(run) + 0x1_0000_0000
    modifies h, l.itHeap`lookUpCache
    ensures Agrees(l, run, wide)
    ensures StatusAfter(run, id) != Gone || t >= 0x1000 ==> !r
    ensures StatusAfter(run, id) == Gone && OwnBits(run, id, t) && SetInWindow(run, id, t) ==>
              var back := l.itHeap.tagBackPropagate || l.itHeap.dralVersion < 2;
              var q := if cycle < FirstAfter(run) then cycle + 0x1_0000_0000 else cycle;
              var e, first := ExpectedIn(run, id, t, q, back), FirstCycleIn(run, id, t);
              && r == e.Some? && (r ==> value == e.value)
              && (first.Some? && q < first.value ==>
                    (r <==> back) && (r ==> Some(value) == LastSetIn(run, id, t, first.value)))
  {
    hide DBListener.ItemsValid, CycleAfter, Started, StatusAfter, FirstAfter, Removed, Tells, Expected, ExpectedIn;
    hide InWindow, LogOk, SetInWindow, MoverId, LastMoverIn, MovesIn, Unshared, OwnBits, WithinTables;
    hide Tracked, Kept, TracksHold;
    AgreesFacts(l, run, wide);
    ghost var a, first := FindItem(l.archive, id), FirstAfter(run);
    assert a < |l.archive| ==> Telling(l.archive[a], run, first, Gone, wide);
    if StatusAfter(run, id) == Gone {
      assert HasId(l.archive, id);
      ArchiveLog(l, a);
      LogWindow(l.archive[a].tags, run, id, t);
      LogBits(l.archive[a].tags, run, id, first, t);
      ghost var q := if cycle < first then cycle + 0x1_0000_0000 else cycle;
      LogExpected(l.archive[a].tags, run, id, first, t, q, l.itHeap.tagBackPropagate || l.itHeap.dralVersion < 2);
      ExpectedEarly(run, id, t, q, l.itHeap.tagBackPropagate || l.itHeap.dralVersion < 2);
    }
    r, value := l.GetItemTag(h, id, t, cycle);
  }

  /** The lookup of a move meets no missing chunk exactly when none is in its way, as
      the events have it. */
  lemma MoveReadable(l: DBListener, run: seq<Event>, wide: map<nat, nat>, m: Move)
    requires Agrees(l, run, wide) && Removed(run) <= 0x1000_0000 && Started(run)
    requires m.edgeid in wide && m.pos < wide[m.edgeid]
    ensures OnEdge(l.trHeap.State(), m.edgeid, m.pos) && TrackOf(l.trHeap.State(), m) < |l.trHeap.itemIdxVectors|
    ensures Readable(l.trHeap.itemIdxVectors[TrackOf(l.trHeap.State(), m)], m.cycle - l.firstEffectiveCycle)
       <==> NoGapIn(run, m, wide)
  {
    hide DBListener.ItemsValid, Started, FirstAfter, Removed, TracksHold, Readable, NoGap, Told, Moves;
    AgreesFacts(l, run, wide);
    GoneMade(l.Unfiled(), l.archive, run, FirstAfter(run), wide);
    ReadableExactly(l.trHeap.State(), l.firstEffectiveCycle, l.currentCycle, Movs(l.Unfiled()), Movs(l.archive), m);
  }

  /** End to end for moves, on every trace: the lookup of a position of an edge in a cycle gives the
      item that was the last to be deleted of those that made this move, and nothing exactly when no
      deleted item made it. So if no two moves of the trace coincide, it gives exactly the item that
      made the move. */
  method ReadMove(l: DBListener, h: ItemHandler, edge: nat, cycle: int, pos: nat, ghost run: seq<Event>,
                  ghost wide: map<nat, nat>)
    returns (found: bool, id: int)
    requires Agrees(l, run, wide) && Removed(run) <= 0x1000_0000 && Started(run) && WithinTables(run, wide)
    requires edge in wide && pos < wide[edge] ==> NoGapIn(run, Move(cycle, edge, pos), wide)
    modifies h
    ensures Agrees(l, run, wide)
    ensures var mover := LastMoverIn(run, Move(cycle, edge, pos), wide);
            found == mover.Some? && (found ==> id == mover.value)
    ensures found ==> MadeIn(run, id, Move(cycle, edge, pos), wide)
    ensures MadeByGone(run, Move(cycle, edge, pos), wide) ==> found
    ensures Neat(run, wide) ==> forall k :: MadeIn(run, k, Move(cycle, edge, pos), wide) <==> found && k == id
  {
    hide DBListener.ItemsValid, CycleAfter, Started, StatusAfter, FirstAfter, Removed, TracksHold, NoGap, Told;
    hide Moves, MovesIn, LastMoverIn, LastMover, Neat, Kept, WithinTables;
    ghost var m, done := Move(cycle, edge, pos), Movs(l.archive);
    AgreesFacts(l, run, wide);
    GoneMade(l.Unfiled(), l.archive, run, FirstAfter(run), wide);
    l.FiledCount();
    l.GetMoveItem(h, edge, cycle, pos);
    found := h.validItem;
    id := if found then l.itHeap.itemVector[h.itemIdx].itemId else 0;
    MoverMade(l.Unfiled(), l.archive, run, FirstAfter(run), wide, m);
    if Neat(run, wide) {
      forall k | MadeIn(run, k, m, wide)
        ensures found && k == id
      {
        OneMover(run, k, id, m, wide);
      }
    }
  }

  /** In a trace without coincidences a track gets at most one move in a cycle. */
  lemma OneMoveEach(T: Tracks, run: seq<Event>, wide: map<nat, nat>, a: int, i: nat, b: int, j: nat)
    requires TracksOk(T) && Tracked(T, wide) && Neat(run, wide)
    requires i < |MovesIn(run, a, wide)| && j < |MovesIn(run, b, wide)|
    ensures MovesIn(run, a, wide)[i].edgeid in T.base && MovesIn(run, b, wide)[j].edgeid in T.base
    ensures var m, d := MovesIn(run, a, wide)[i], MovesIn(run, b, wide)[j];
            TrackOf(T, m) == TrackOf(T, d) && m.cycle == d.cycle <==> (a, i) == (b, j)
  {
    hide MovesIn, Neat, TracksOk;
    var m, d := MovesIn(run, a, wide)[i], MovesIn(run, b, wide)[j];
    ApartNeat(run, wide);
    MovesOnEdge(run, a, m, wide);
    MovesOnEdge(run, b, d, wide);
    TracksDistinct(T, m, d);
  }

  /** In a trace without coincidences only one item made a move. */
  lemma OneMover(run: seq<Event>, a: int, b: int, m: Move, wide: map<nat, nat>)
    requires Neat(run, wide) && MadeIn(run, a, m, wide) && MadeIn(run, b, m, wide)
    ensures a == b
  {
    hide Neat, MovesIn, StatusAfter;
    if a != b {
      TwoMovers(run, a, b, m, wide);
    }
  }

  /** The mover that is given is one that made the move, and there is one if somebody made it. */
  lemma MoverMade(items: NewItemList, archive: NewItemList, run: seq<Event>, first: int, wide: map<nat, nat>, m: Move)
    requires Told(items, archive, run, first, wide)
    ensures MoverId(archive, m) == LastMoverIn(run, m, wide)
    ensures MoverId(archive, m).Some? ==> MadeIn(run, MoverId(archive, m).value, m, wide)
    ensures MadeByGone(run, m, wide) ==> MoverId(archive, m).Some?
  {
    hide StatusAfter, MovesIn, LastMoverIn, Tells;
    var i := LastMover(Movs(archive), m);
    if i.Some? {
      assert Telling(archive[i.value], run, first, Gone, wide);
      assert m in Movs(archive)[i.value];
    }
    if MadeByGone(run, m, wide) {
      var id :| MadeIn(run, id, m, wide);
      assert HasId(archive, id);
      var a :| 0 <= a < |archive| && archive[a].itemId == id;
      assert Telling(archive[a], run, first, Gone, wide);
      assert m in Movs(archive)[a];
    }
  }
}
