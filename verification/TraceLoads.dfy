/** Loading a trace: the events and the end of the trace together, and what is read back of every
    item that the events have created. */
module TraceLoads {
  import opened TagHistory
  import opened ItemTagHeaps
  import opened TagLogs
  import opened DBGraphs
  import opened TagIdVecs
  import opened MoveLogs
  import opened MoveLedgers
  import opened TrackHeaps
  import opened ListenerBooks
  import opened DBListeners
  import opened TraceEvents
  import opened TraceMoves
  import opened TraceLogs
  import opened TraceRuns

  // ---------------------------------------------------------------- what the end of the trace says

  lemma {:induction false} FirstNotLater(events: seq<Event>, id: int, t: nat)
    ensures FirstCycleIn(events, id, t).Some? ==> FirstCycleIn(events, id, t).value <= CycleAfter(events)
  {
    if events != [] {
      FirstNotLater(events[..|events|-1], id, t);
    }
  }

  lemma {:induction false} NeverSetIn(events: seq<Event>, id: int, t: nat, q: int)
    ensures FirstCycleIn(events, id, t) == None ==> LastSetIn(events, id, t, q) == None
  {
    if events != [] {
      NeverSetIn(events[..|events|-1], id, t, q);
    }
  }

  /** What a reader has of item id and tag t. */
  ghost predicate SameSays(a: seq<Event>, b: seq<Event>, id: int, t: nat, wide: map<nat, nat>) {
    && MovesIn(a, id, wide) == MovesIn(b, id, wide) && FirstCycleIn(a, id, t) == FirstCycleIn(b, id, t)
    && LastCycleIn(a, id, t) == LastCycleIn(b, id, t)
    && forall q :: LastSetIn(a, id, t, q) == LastSetIn(b, id, t, q)
  }

  /** An event that neither moves items nor sets this tag of the item says nothing about them. */
  lemma SaysOn(a: seq<Event>, b: seq<Event>, e: Event, id: int, t: nat, wide: map<nat, nat>)
    requires SameSays(a, b, id, t, wide) && !e.MoveItemsEvent?
    requires e.SetTagEvent? && e.id == id && e.tagid == t ==> StatusAfter(a, id) != Live
    ensures SameSays(a + [e], b, id, t, wide)
  {
    hide MovesIn, FirstCycleIn, LastCycleIn, LastSetIn, StatusAfter;
    MovesStep(a, e, id, wide);
    SetStep(a, e, id, t, 0);
    forall q
      ensures LastSetIn(a + [e], id, t, q) == LastSetIn(a, id, t, q)
    {
      SetStep(a, e, id, t, q);
    }
  }

  /** Deletions say nothing but that items are gone. */
  lemma {:induction false} DeletesSay(events: seq<Event>, gone: seq<AuxItemListNode>, id: int, t: nat,
                                      wide: map<nat, nat>)
    ensures SameSays(events + Deletes(gone), events, id, t, wide)
    ensures StatusAfter(events + Deletes(gone), id)
         == if Among(gone, id) && StatusAfter(events, id) == Live then Gone else StatusAfter(events, id)
    ensures CycleAfter(events + Deletes(gone)) == CycleAfter(events)
    ensures RowsIn(events + Deletes(gone), wide) == RowsIn(events, wide)
  {
    if gone == [] {
      assert events + Deletes(gone) == events;
    } else {
      hide SameSays, StatusAfter, CycleAfter, RowsIn;
      var g, k := gone[..|gone|-1], gone[|gone|-1].itemId;
      var past, e := events + Deletes(g), DeleteItemEvent(k);
      DeletesSay(events, g, id, t, wide);
      SaysOn(past, events, e, id, t, wide);
      StatusStep(past, e, id);
      CycleStep(past, e);
      RowsOn(past, e, wide);
      AmongMore(gone, id);
      assert events + Deletes(gone) == past + [e];
    }
  }

  lemma AmongMore(order: seq<AuxItemListNode>, id: int)
    requires order != []
    ensures Among(order, id) <==> Among(order[..|order|-1], id) || order[|order|-1].itemId == id
  {
    var g := order[..|order|-1];
    if Among(g, id) {
      var k :| 0 <= k < |g| && g[k].itemId == id;
      assert order[k].itemId == id;
    }
  }

  lemma RowsOn(events: seq<Event>, e: Event, wide: map<nat, nat>)
    requires !e.MoveItemsEvent?
    ensures RowsIn(events + [e], wide) == RowsIn(events, wide)
  {
    OneMore(events, e);
  }

  /** What the purges say of an item: its tag of the end of the trace is set in the last cycle. */
  ghost predicate PurgeSays(r: seq<Event>, events: seq<Event>, purged: bool, tag: nat, id: int, t: nat,
                            wide: map<nat, nat>) {
    var sets := purged && t == tag;
    && MovesIn(r, id, wide) == MovesIn(events, id, wide)
    && StatusAfter(r, id) == (if purged then Gone else StatusAfter(events, id))
    && FirstCycleIn(r, id, t)
       == (if sets && FirstCycleIn(events, id, t) == None then Some(CycleAfter(events))
           else FirstCycleIn(events, id, t))
    && LastCycleIn(r, id, t) == (if sets then Some(CycleAfter(events)) else LastCycleIn(events, id, t))
    && forall q :: LastSetIn(r, id, t, q)
                   == if sets && CycleAfter(events) <= q then Some(1) else LastSetIn(events, id, t, q)
  }

  lemma {:induction false} PurgesSay(events: seq<Event>, order: seq<AuxItemListNode>, tag: nat, id: int, t: nat,
                                     wide: map<nat, nat>)
    requires IdsDiffer(order) && (Among(order, id) ==> StatusAfter(events, id) == Live)
    ensures PurgeSays(events + Purges(order, tag), events, Among(order, id), tag, id, t, wide)
    ensures CycleAfter(events + Purges(order, tag)) == CycleAfter(events)
    ensures RowsIn(events + Purges(order, tag), wide) == RowsIn(events, wide)
  {
    if order == [] {
      assert events + Purges(order, tag) == events;
    } else {
      hide PurgeSays, StatusAfter, CycleAfter, RowsIn;
      var g, k := order[..|order|-1], order[|order|-1].itemId;
      var past, e, d := events + Purges(g, tag), SetTagEvent(k, tag, 1), DeleteItemEvent(k);
      AmongMore(order, id);
      PurgesSay(events, g, tag, id, t, wide);
      PurgeOne(past, events, Among(g, id), k, tag, id, t, wide);
      CycleStep(past, e);
      CycleStep(past + [e], d);
      RowsOn(past, e, wide);
      RowsOn(past + [e], d, wide);
      assert events + Purges(order, tag) == past + [e] + [d];
    }
  }

  /** One more purge. */
  lemma PurgeOne(past: seq<Event>, events: seq<Event>, purged: bool, k: int, tag: nat, id: int, t: nat,
                 wide: map<nat, nat>)
    requires PurgeSays(past, events, purged, tag, id, t, wide) && CycleAfter(past) == CycleAfter(events)
    requires k == id ==> !purged && StatusAfter(events, id) == Live
    ensures PurgeSays(past + [SetTagEvent(k, tag, 1)] + [DeleteItemEvent(k)], events, purged || k == id,
                      tag, id, t, wide)
  {
    hide MovesIn, StatusAfter, FirstCycleIn, LastCycleIn, LastSetIn, CycleAfter;
    var e, d := SetTagEvent(k, tag, 1), DeleteItemEvent(k);
    MovesStep(past, e, id, wide);
    MovesStep(past + [e], d, id, wide);
    StatusStep(past, e, id);
    StatusStep(past + [e], d, id);
    SetStep(past, e, id, t, 0);
    SetStep(past + [e], d, id, t, 0);
    forall q
      ensures LastSetIn(past + [e] + [d], id, t, q)
           == if k == id && t == tag && CycleAfter(past) <= q then Some(1) else LastSetIn(past, id, t, q)
    {
      SetStep(past, e, id, t, q);
      SetStep(past + [e], d, id, t, q);
    }
  }

  /** A reader's view when only the value 1 in the cycle after c may have been added. */
  lemma ExpectedEnd(run: seq<Event>, trace: seq<Event>, c: int, sets: bool, id: int, t: nat, q: int, back: bool)
    requires FirstCycleIn(run, id, t)
          == if sets && FirstCycleIn(trace, id, t) == None then Some(c + 1) else FirstCycleIn(trace, id, t)
    requires forall p :: LastSetIn(run, id, t, p) == if sets && c + 1 <= p then Some(1) else LastSetIn(trace, id, t, p)
    requires FirstCycleIn(trace, id, t).Some? ==> FirstCycleIn(trace, id, t).value <= c
    requires FirstCycleIn(trace, id, t) == None ==> LastSetIn(trace, id, t, q) == None
    ensures ExpectedIn(run, id, t, q, back)
         == if sets && (c < q || (back && FirstCycleIn(trace, id, t) == None)) then Some(1)
            else ExpectedIn(trace, id, t, q, back)
  {
    hide FirstCycleIn, LastSetIn;
  }

  /** What the whole run says of an item, in terms of the trace before its end: nothing is different
      but that live items are gone, and that those that were purged have the tag of the end of the
      trace, from the last cycle on or, when values propagate backwards, always. */
  lemma ClosingSays(trace: seq<Event>, gone: seq<AuxItemListNode>, order: seq<AuxItemListNode>, tag: nat, id: int,
                    t: nat,
                    q: int, back: bool, wide: map<nat, nat>)
    requires CycleAfter(trace) < 0x7FFF_FFFF && IdsDiffer(order)
    requires Among(order, id) ==> StatusAfter(LastCycleRun(trace, gone), id) == Live
    ensures var run := trace + Closing(trace, gone, order, tag);
            && MovesIn(run, id, wide) == MovesIn(trace, id, wide)
            && (Among(order, id) ==> StatusAfter(trace, id) == Live)
            && StatusAfter(run, id)
               == (if Among(order, id) || (Among(gone, id) && StatusAfter(trace, id) == Live) then Gone
                   else StatusAfter(trace, id))
            && ExpectedIn(run, id, t, q, back)
               == (if && Among(order, id) && t == tag
                      && (CycleAfter(trace) < q || (back && FirstCycleIn(trace, id, t) == None))
                   then Some(1) else ExpectedIn(trace, id, t, q, back))
            && FirstCycleIn(run, id, t)
               == (if Among(order, id) && t == tag && FirstCycleIn(trace, id, t) == None
                   then Some(CycleAfter(trace) + 1)
                   else FirstCycleIn(trace, id, t))
            && LastCycleIn(run, id, t)
               == (if Among(order, id) && t == tag then Some(CycleAfter(trace) + 1) else LastCycleIn(trace, id, t))
            && RowsIn(run, wide) == RowsIn(trace, wide)
  {
    hide MovesIn, StatusAfter, FirstCycleIn, LastCycleIn, LastSetIn, CycleAfter, RowsIn, ExpectedIn, Among;
    hide Purges, Deletes;
    var e := CycleEvent(CycleAfter(trace) + 1);
    var last, run := LastCycleRun(trace, gone), trace + Closing(trace, gone, order, tag);
    SignedSmall(CycleAfter(trace) + 1);
    CycleStep(trace, e);
    StatusStep(trace, e, id);
    RowsOn(trace, e, wide);
    assert SameSays(trace, trace, id, t, wide);
    SaysOn(trace, trace, e, id, t, wide);
    DeletesSay(trace + [e], gone, id, t, wide);
    PurgesSay(last, order, tag, id, t, wide);
    assert run == last + Purges(order, tag);
    FirstNotLater(trace, id, t);
    NeverSetIn(trace, id, t, q);
    ExpectedEnd(run, trace, CycleAfter(trace), Among(order, id) && t == tag, id, t, q, back);
  }

  // ---------------------------------------------------------------- loading

  /** A new database: empty heaps and a listener that feeds them. */
  method NewDatabase(graph: DBGraph, canonical: nat, ifi: Option<nat>, purge: bool, eofTag: nat) returns (l: DBListener)
    requires eofTag != canonical
    ensures fresh(l) && fresh(l.itHeap) && fresh(l.trHeap) && Unused(l) && l.dbGraph == graph
    ensures l.Limit() == ifi && l.autoPurge == purge && l.eofPurgeTag == eofTag && l.itHeap.canonicalItemId == canonical
    ensures l.maxIFIEnabled == ifi.Some? && (ifi.Some? ==> l.maxIFI == ifi.value)
    ensures l.itHeap.dralVersion == 999 && l.itHeap.compressMutable && !l.itHeap.tagBackPropagate
  {
    var heap := new ItemTagHeap(canonical);
    var tracks := new TrackHeap(graph);
    l := new DBListener(heap, tracks, ifi, purge, eofTag);
  }

  /** The first n events of a trace, with the deletions that the limit of live items has caused. */
  function LoadRun(events: seq<Event>, gone: seq<seq<AuxItemListNode>>, n: nat): seq<Event>
    requires HeaderLen(events) <= n <= |events| && |gone| >= n - HeaderLen(events)
  {
    events[..HeaderLen(events)] + Woven(events[HeaderLen(events)..n], gone[..n-HeaderLen(events)])
  }

  /** Loads a trace: the header, the setup, the events in batches, and the end. If something goes wrong in a
      batch, the events behind it are not read; n of them have been. The listener then holds what these
      events say, together with the deletions that the limit of live items has caused, the last cycle
      and, with auto purge, the deletion of everything that was still live. With no more items than the
      heap has room for, none is missing. */
  method LoadTrace(l: DBListener, events: seq<Event>, edges: seq<nat>)
    returns (r: bool, n: nat, ghost gone: seq<seq<AuxItemListNode>>, ghost last: seq<AuxItemListNode>,
             ghost order: seq<AuxItemListNode>)
    requires Unused(l) && Regular(events, l.itHeap.canonicalItemId, WideEdges(l.dbGraph, edges))
    requires CycleAfter(events) < 0x7FFF_FFFF && TracksFor(l.dbGraph, edges) <= 0x4_0000
    modifies l, l.trHeap, l.itHeap`lookUpCache, l.itHeap`itemVector, l.itHeap`tagVector, l.itHeap`chains
    modifies l.itHeap`nextTagVectorEntry, l.itHeap`nextItemVectorEntry, l.itHeap`owner, l.itHeap`rank
    modifies l.itHeap`firstEffectiveCycle
    ensures HeaderLen(events) <= n <= |events| && |gone| == n - HeaderLen(events)
    ensures var trace := LoadRun(events, gone, n);
            var run := trace + Closing(trace, last, order, l.eofPurgeTag);
            && Agrees(l, run, WideEdges(l.dbGraph, edges)) && Started(run)
            && CycleAfter(trace) == CycleAfter(events[..n]) && Created(trace) == Created(events[..n])
            && (r <==> n == |events| && OkAfter(trace, l.Limit()))
            && (Created(trace) <= 0x1000_0000 ==>
                  Removed(run) <= 0x1000_0000 && (l.autoPurge ==> PurgedOnce(trace, last, order)))
    ensures forall k :: HeaderLen(events) < k < n && (k - HeaderLen(events)) % 4096 == 0 ==>
              OkAfter(LoadRun(events, gone, k), l.Limit())
    ensures n < |events| ==>
              && n > HeaderLen(events) && (n - HeaderLen(events)) % 4096 == 0
              && !OkAfter(LoadRun(events, gone, n), l.Limit())
    ensures l.Limit() == None ==>
              LoadRun(events, gone, n) == events[..n] && last == [] && (n == |events| <==> Unbroken(events))
    ensures !l.autoPurge ==> order == []
  {
    hide Follows, Agrees, CycleAfter, Started, Created, Removed, StatusAfter, Regular, IdsDiffer, HeaderLen, OkAfter;
    hide RegularMore, ReadSoFar, BatchEnd, Woven, LoadRun, Unbroken, DBListener.Valid;
    ghost var wide, limit, canonical := WideEdges(l.dbGraph, edges), l.Limit(), l.itHeap.canonicalItemId;
    var h := SetUp(l, events, edges);
    assert events[h..|events|] == events[h..];
    RegularPart(events, h, |events|, canonical, wide);
    var m;
    r, m, gone := ProcessAllEvents(l, events[h..], events[..h], wide);
    n := h + m;
    LoadRead(l, events, h, m, gone, wide);
    BatchesAre(events, gone, n, limit);
    ghost var trace := LoadRun(events, gone, n);
    CycleMonotone(events, n);
    last, order := ProcessEnd(l, trace, wide);
    CreatedAll(l, trace, last, order, wide);
    if Created(trace) <= MAX_ITEM_ENTRIES {
      RemovedLess(trace, last, order, l.eofPurgeTag);
    }
    if limit == None {
      LoadPlain(events, gone, n, limit);
    }
  }

  /** The batches, in terms of the whole trace. */
  lemma LoadBatches(events: seq<Event>, h: nat, m: nat, gone: seq<seq<AuxItemListNode>>, limit: Option<nat>)
    requires h == HeaderLen(events) && h + m <= |events| && |gone| == m
    requires m == |events| - h || m % DRALDB_PROCESS_STEP == 0
    requires BatchesOk(events[..h], events[h..], m, gone, limit)
    requires h + m < |events| ==> m > 0
    ensures LoadRun(events, gone, h + m) == events[..h] + Woven(events[h..][..m], gone)
    ensures forall k: nat :: BatchEnd(events, k) && k < h + m ==> OkAfter(LoadRun(events, gone, k), limit)
    ensures h + m < |events| ==> BatchEnd(events, h + m)
  {
    hide OkAfter, HeaderLen, Woven;
    assert events[h..][..m] == events[h..h+m] && gone[..m] == gone;
    forall k: nat | BatchEnd(events, k) && k < h + m
      ensures OkAfter(LoadRun(events, gone, k), limit)
    {
      assert events[h..][..k-h] == events[h..k];
      assert OkAfter(events[..h] + Woven(events[h..][..k-h], gone[..k-h]), limit);
    }
  }

  /** What has been read, in terms of the whole trace. */
  /** Batches of 4096 events come after the header. */
  lemma BatchesAre(events: seq<Event>, gone: seq<seq<AuxItemListNode>>, n: nat, limit: Option<nat>)
    requires HeaderLen(events) <= n <= |events| && |gone| == n - HeaderLen(events)
    requires forall k: nat :: BatchEnd(events, k) && k < n ==> OkAfter(LoadRun(events, gone, k), limit)
    requires n < |events| ==> BatchEnd(events, n)
    ensures forall k :: HeaderLen(events) < k < n && (k - HeaderLen(events)) % 4096 == 0 ==>
              OkAfter(LoadRun(events, gone, k), limit)
    ensures n < |events| ==> n > HeaderLen(events) && (n - HeaderLen(events)) % 4096 == 0
  {
    hide OkAfter, LoadRun, HeaderLen;
    assert forall k: nat :: HeaderLen(events) < k < n && (k - HeaderLen(events)) % 4096 == 0 ==> BatchEnd(events, k);
  }

  lemma LoadRead(l: DBListener, events: seq<Event>, h: nat, m: nat, gone: seq<seq<AuxItemListNode>>,
                 wide: map<nat, nat>)
    requires h == HeaderLen(events) && ReadSoFar(l, events[..h], events[h..], m, gone, wide)
    requires h + m < |events| ==> m > 0 && !OkAfter(events[..h] + Woven(events[h..][..m], gone), l.Limit())
    ensures h + m <= |events| && |gone| == m && Follows(l, LoadRun(events, gone, h + m), wide)
    ensures CycleAfter(LoadRun(events, gone, h + m)) == CycleAfter(events[..h+m]) == l.currentCycle
    ensures Created(LoadRun(events, gone, h + m)) == Created(events[..h+m])
    ensures l.lastProcessedEventOk <==> OkAfter(LoadRun(events, gone, h + m), l.Limit())
    ensures forall k: nat :: BatchEnd(events, k) && k < h + m ==> OkAfter(LoadRun(events, gone, k), l.Limit())
    ensures h + m < |events| ==> BatchEnd(events, h + m) && !OkAfter(LoadRun(events, gone, h + m), l.Limit())
    ensures l.Limit() == None ==> forall k :: 0 <= k < m ==> gone[k] == []
  {
    hide Follows, CycleAfter, Created, HeaderLen, OkAfter, Woven, LoadRun, BatchEnd, BatchesOk, Started, FirstAfter;
    LoadBatches(events, h, m, gone, l.Limit());
    assert events[..h] + events[h..][..m] == events[..h+m];
    FollowsFlag(l, LoadRun(events, gone, h + m), wide);
    FollowsCycle(l, LoadRun(events, gone, h + m), wide);
  }

  /** Without a limit nothing comes between the events. */
  lemma LoadPlain(events: seq<Event>, gone: seq<seq<AuxItemListNode>>, n: nat, limit: Option<nat>)
    requires HeaderLen(events) <= n <= |events| && |gone| == n - HeaderLen(events) && limit == None
    requires forall k :: 0 <= k < |gone| ==> gone[k] == []
    requires forall k: nat :: BatchEnd(events, k) && k < n ==> OkAfter(LoadRun(events, gone, k), limit)
    requires n < |events| ==> BatchEnd(events, n) && !OkAfter(LoadRun(events, gone, n), limit)
    ensures LoadRun(events, gone, n) == events[..n] && (n == |events| <==> Unbroken(events))
  {
    hide OkAfter, HeaderLen, BatchEnd, Woven;
    var h := HeaderLen(events);
    forall k: nat | h <= k <= n
      ensures LoadRun(events, gone, k) == events[..k]
    {
      WovenPlain(events[h..k], gone[..k-h]);
      assert events[..h] + events[h..k] == events[..k];
    }
    forall k: nat | BatchEnd(events, k)
      ensures h <= k < |events|
    {
      BatchBehind(events, k);
    }
  }

  lemma {:induction false} CycleMonotone(events: seq<Event>, n: nat)
    requires n <= |events|
    ensures CycleAfter(events[..n]) <= CycleAfter(events)
  {
    if n == |events| {
      assert events[..n] == events;
    } else {
      CycleMonotone(events[..|events|-1], n);
      assert events[..|events|-1][..n] == events[..n];
    }
  }

  /** The items that were live after the last cycle are purged, and each of them once. */
  ghost predicate PurgedOnce(trace: seq<Event>, last: seq<AuxItemListNode>, order: seq<AuxItemListNode>) {
    IdsDiffer(order) && forall id :: Among(order, id) <==> StatusAfter(LastCycleRun(trace, last), id) == Live
  }

  lemma FollowsCycle(l: DBListener, run: seq<Event>, wide: map<nat, nat>)
    requires Follows(l, run, wide)
    ensures l.currentCycle == CycleAfter(run)
  {
    hide DBListener.Valid, CycleAfter, Started, FirstAfter, Kept, Counted, OwnCounters, Tracked, Removed;
  }

  /** The end of the trace creates no item, so that the heap had room if it had for the items created. */
  lemma CreatedAll(l: DBListener, trace: seq<Event>, last: seq<AuxItemListNode>, order: seq<AuxItemListNode>,
                   wide: map<nat, nat>)
    requires Agrees(l, trace + Closing(trace, last, order, l.eofPurgeTag), wide)
    ensures Created(trace) <= MAX_ITEM_ENTRIES ==>
              Removed(trace + Closing(trace, last, order, l.eofPurgeTag)) <= MAX_ITEM_ENTRIES
  {
    hide DBListener.Loaded, Started, FirstAfter, Tracked, Told, Met, Removed, Created;
    CreatedClosing(trace, last, order, l.eofPurgeTag);
  }

  lemma {:induction false} CreatedClosing(trace: seq<Event>, last: seq<AuxItemListNode>, order: seq<AuxItemListNode>,
                                          tag: nat)
    ensures Created(trace + Closing(trace, last, order, tag)) == Created(trace)
  {
    hide Created, Removed, CycleAfter;
    var e := CycleEvent(CycleAfter(trace) + 1);
    CountStep(trace, e);
    CreatedDeletes(trace + [e], last);
    CreatedPurges(LastCycleRun(trace, last), order, tag);
    assert trace + Closing(trace, last, order, tag) == LastCycleRun(trace, last) + Purges(order, tag);
  }

  lemma {:induction false} CreatedDeletes(events: seq<Event>, gone: seq<AuxItemListNode>)
    ensures Created(events + Deletes(gone)) == Created(events)
  {
    if gone == [] {
      assert events + Deletes(gone) == events;
    } else {
      hide Created, Removed;
      var past, e := events + Deletes(gone[..|gone|-1]), DeleteItemEvent(gone[|gone|-1].itemId);
      CreatedDeletes(events, gone[..|gone|-1]);
      CountStep(past, e);
      assert events + Deletes(gone) == past + [e];
    }
  }

  /** Purges create nothing, and delete no fewer items. */
  lemma {:induction false} CreatedPurges(events: seq<Event>, order: seq<AuxItemListNode>, tag: nat)
    ensures Created(events + Purges(order, tag)) == Created(events)
    ensures Removed(events + Purges(order, tag)) >= Removed(events)
  {
    hide Created, Removed, Purges;
    PurgesMore(events, order, tag);
    if order != [] {
      var k := order[|order|-1].itemId;
      var past, e, d := events + Purges(order[..|order|-1], tag), SetTagEvent(k, tag, 1), DeleteItemEvent(k);
      CreatedPurges(events, order[..|order|-1], tag);
      CountStep(past, e);
      CountStep(past + [e], d);
    }
  }

  lemma RemovedLess(trace: seq<Event>, last: seq<AuxItemListNode>, order: seq<AuxItemListNode>, tag: nat)
    ensures Removed(LastCycleRun(trace, last)) <= Removed(trace + Closing(trace, last, order, tag))
  {
    hide Removed;
    CreatedPurges(LastCycleRun(trace, last), order, tag);
    assert trace + Closing(trace, last, order, tag) == LastCycleRun(trace, last) + Purges(order, tag);
  }

  // ---------------------------------------------------------------- reading what was loaded

  /** After a trace has been loaded with auto purge and without a limit, every item that the events
      have created reads back as its events say, whether it was deleted or still live at the end; those
      that were still live have the tag of the end of the trace besides. Only the sets of the tag that
      is looked up must lie in the first 2^22 cycles, and only tags with its 12 bits matter. */
  method ReadLoadedTag(l: DBListener, h: ItemHandler, ghost trace: seq<Event>, ghost order: seq<AuxItemListNode>,
                       ghost wide: map<nat, nat>, id: int, t: nat, cycle: int)
    returns (r: bool, value: int)
    requires var run := trace + Closing(trace, [], order, l.eofPurgeTag);
             Agrees(l, run, wide) && Removed(run) <= 0x1000_0000 && Started(run) && WithinTables(run, wide)
             && FirstAfter(run) - 0x1_0000_0000 <= cycle < FirstAfter(run) + 0x1_0000_0000
    requires CycleAfter(trace) < 0x7FFF_FFFF && PurgedOnce(trace, [], order) && t != l.itHeap.canonicalItemId
    modifies h, l.itHeap`lookUpCache
    ensures Agrees(l, trace + Closing(trace, [], order, l.eofPurgeTag), wide)
    ensures StatusAfter(trace, id) == Unknown || t >= 0x1000 ==> !r
    ensures var live := StatusAfter(trace, id) == Live;
            && StatusAfter(trace, id) != Unknown && Started(trace)
            && OwnBits(trace, id, t) && (live ==> NoClash(l.eofPurgeTag, t))
            && (if live && t == l.eofPurgeTag then CycleAfter(trace) + 1 < FirstAfter(trace) + 0x40_0000
                else SetInWindow(trace, id, t)) ==>
              var back := l.itHeap.tagBackPropagate || l.itHeap.dralVersion < 2;
              var q := if cycle < FirstAfter(trace) then cycle + 0x1_0000_0000 else cycle;
              var e := ExpectedIn(trace, id, t, q, back);
              var v := if && live && t == l.eofPurgeTag
                          && (|| CycleAfter(trace) < q
                              || (back && FirstCycleIn(trace, id, t) == None))
                       then Some(1) else e;
              r == v.Some? && (r ==> value == v.value)
  {
    hide Agrees, CycleAfter, Started, StatusAfter, FirstAfter, Removed, SetInWindow, ExpectedIn, FirstCycleIn;
    hide IdsDiffer, OwnBits, WithinTables, NoClash;
    ghost var q := if cycle < FirstAfter(trace) then cycle + 0x1_0000_0000 else cycle;
    ClosingSays(trace, [], order, l.eofPurgeTag, id, t, q, l.itHeap.tagBackPropagate || l.itHeap.dralVersion < 2, wide);
    LiveStays(trace, id);
    if Started(trace) {
      ClosingReads(trace, order, l.eofPurgeTag, id, t, wide);
      ClosingFirst(trace, order, l.eofPurgeTag);
    }
    r, value := ReadTag(l, h, trace + Closing(trace, [], order, l.eofPurgeTag), wide, id, t, cycle);
  }

  /** When a tag of an item reads back after the end of the trace. */
  lemma ClosingReads(trace: seq<Event>, order: seq<AuxItemListNode>, tag: nat, id: int, t: nat, wide: map<nat, nat>)
    requires CycleAfter(trace) < 0x7FFF_FFFF && PurgedOnce(trace, [], order) && Started(trace)
    ensures var run, live := trace + Closing(trace, [], order, tag), StatusAfter(trace, id) == Live;
            && (OwnBits(run, id, t) <==> OwnBits(trace, id, t) && (live && t < 0x1000 ==> NoClash(tag, t)))
            && (SetInWindow(run, id, t) <==>
                  if live && t == tag then CycleAfter(trace) + 1 < FirstAfter(trace) + 0x40_0000
                  else SetInWindow(trace, id, t))
  {
    hide CycleAfter, Started, StatusAfter, FirstAfter, FirstCycleIn, LastCycleIn, IdsDiffer, NoClash;
    var run, live := trace + Closing(trace, [], order, tag), StatusAfter(trace, id) == Live;
    LiveStays(trace, id);
    ClosingFirst(trace, order, tag);
    forall w
      ensures FirstCycleIn(run, id, w).Some? <==> FirstCycleIn(trace, id, w).Some? || (live && w == tag)
    {
      ClosingSays(trace, [], order, tag, id, w, 0, false, wide);
    }
    ClosingSays(trace, [], order, tag, id, t, 0, false, wide);
  }

  lemma ClosingFirst(trace: seq<Event>, order: seq<AuxItemListNode>, tag: nat)
    requires Started(trace)
    ensures FirstAfter(trace + Closing(trace, [], order, tag)) == FirstAfter(trace)
  {
    hide Started, FirstAfter, CycleAfter;
    var e := CycleEvent(CycleAfter(trace) + 1);
    CycleStep(trace, e);
    PurgesOn(trace + [e], order, tag);
    assert trace + Closing(trace, [], order, tag) == trace + [e] + Purges(order, tag);
  }

  /** The last cycle changes no status. */
  lemma LiveStays(trace: seq<Event>, id: int)
    ensures StatusAfter(LastCycleRun(trace, []), id) == StatusAfter(trace, id)
  {
    hide StatusAfter, CycleAfter;
    StatusStep(trace, CycleEvent(CycleAfter(trace) + 1), id);
    assert LastCycleRun(trace, []) == trace + [CycleEvent(CycleAfter(trace) + 1)];
  }

  /** After such a load every move of every item is found: the lookup gives an item exactly when some
      item made the move, and it gives one that did; in a trace without coincidences it is the only one. */
  method ReadLoadedMove(l: DBListener, h: ItemHandler, edge: nat, cycle: int, pos: nat, ghost trace: seq<Event>,
                        ghost order: seq<AuxItemListNode>, ghost wide: map<nat, nat>)
    returns (found: bool, id: int)
    requires var run := trace + Closing(trace, [], order, l.eofPurgeTag);
             Agrees(l, run, wide) && Removed(run) <= 0x1000_0000 && Started(run) && WithinTables(run, wide)
             && (edge in wide && pos < wide[edge] ==>
                   NoGap(AllMoves(trace, wide), AllMoves(trace, wide), FirstAfter(run), Move(cycle, edge, pos)))
    requires CycleAfter(trace) < 0x7FFF_FFFF && PurgedOnce(trace, [], order)
    modifies h
    ensures Agrees(l, trace + Closing(trace, [], order, l.eofPurgeTag), wide)
    ensures found <==> MadeByAny(trace, Move(cycle, edge, pos), wide)
    ensures found ==> Move(cycle, edge, pos) in MovesIn(trace, id, wide)
    ensures Neat(trace, wide) ==> forall k :: Move(cycle, edge, pos) in MovesIn(trace, k, wide) <==> found && k == id
  {
    hide Agrees, CycleAfter, Started, StatusAfter, FirstAfter, Removed, IdsDiffer, NoGap, MovesIn, Neat, LastMoverIn;
    hide WithinTables;
    ghost var run, m := trace + Closing(trace, [], order, l.eofPurgeTag), Move(cycle, edge, pos);
    EndMoves(trace, order, l.eofPurgeTag, wide);
    EndNeat(trace, order, l.eofPurgeTag, wide);
    forall k
      ensures MadeIn(run, k, m, wide) <==> m in MovesIn(trace, k, wide)
    {
      EndMade(trace, order, l.eofPurgeTag, k, m, wide);
    }
    assert MadeByGone(run, m, wide) <==> MadeByAny(trace, m, wide);
    found, id := ReadMove(l, h, edge, cycle, pos, run, wide);
  }

  /** At the end all who moved are gone. */
  lemma EndMade(trace: seq<Event>, order: seq<AuxItemListNode>, tag: nat, k: int, m: Move, wide: map<nat, nat>)
    requires CycleAfter(trace) < 0x7FFF_FFFF && PurgedOnce(trace, [], order)
    ensures var run := trace + Closing(trace, [], order, tag);
            && (MadeIn(run, k, m, wide) <==> m in MovesIn(trace, k, wide))
            && MovesIn(run, k, wide) == MovesIn(trace, k, wide)
  {
    hide StatusAfter, CycleAfter, MovesIn, IdsDiffer;
    ClosingSays(trace, [], order, tag, k, 0, 0, false, wide);
    LiveStays(trace, k);
    if StatusAfter(trace, k) == Unknown {
      UnknownIsUnmoved(trace, k, wide);
    }
  }

  lemma EndMoves(trace: seq<Event>, order: seq<AuxItemListNode>, tag: nat, wide: map<nat, nat>)
    requires CycleAfter(trace) < 0x7FFF_FFFF && PurgedOnce(trace, [], order)
    ensures var run := trace + Closing(trace, [], order, tag);
            GoneMoves(run, wide) == AllMoves(run, wide) == AllMoves(trace, wide)
  {
    hide StatusAfter, CycleAfter, MovesIn, IdsDiffer, PurgedOnce, MadeIn;
    var run := trace + Closing(trace, [], order, tag);
    forall m
      ensures MadeByGone(run, m, wide) <==> MadeByAny(trace, m, wide)
      ensures MadeByAny(run, m, wide) <==> MadeByAny(trace, m, wide)
    {
      forall k
        ensures MadeIn(run, k, m, wide) <==> m in MovesIn(trace, k, wide)
        ensures MovesIn(run, k, wide) == MovesIn(trace, k, wide)
      {
        EndMade(trace, order, tag, k, m, wide);
      }
    }
  }

  lemma EndNeat(trace: seq<Event>, order: seq<AuxItemListNode>, tag: nat, wide: map<nat, nat>)
    requires CycleAfter(trace) < 0x7FFF_FFFF && PurgedOnce(trace, [], order)
    ensures Neat(trace + Closing(trace, [], order, tag), wide) <==> Neat(trace, wide)
  {
    hide StatusAfter, CycleAfter, RowsIn, IdsDiffer;
    ClosingSays(trace, [], order, tag, 0, 0, 0, false, wide);
  }
}
