/** The listener of trace events. What happens to an item is logged with the item while it is
    live; when it is deleted its log is committed to the item/tag heap and to the tracks. */
module DBListeners {
  import opened TagHistory
  import opened ChunkChains
  import opened ItemTagHeaps
  import opened TagLogs
  import opened TagVecs
  import opened TagIdVecs
  import opened DBGraphs
  import opened MoveLogs
  import opened MoveLedgers
  import opened TrackHeaps
  import opened ListenerBooks

  /** The state of the listener, with the heaps it feeds. */
  class DBListener {
    const itHeap: ItemTagHeap
    const trHeap: TrackHeap
    const dbGraph: DBGraph
    // configuration
    const maxIFIEnabled: bool
    const maxIFI: nat
    const autoPurge: bool
    const eofPurgeTag: nat

    var currentCycle: int
    var firstEffectiveCycle: int
    var firstCycle: bool
    var eoSimulation: bool
    var processingDralHeader: bool
    var lastProcessedEventOk: bool
    var doTrackItemTags: bool
    var dcnt: nat
    var itemList: NewItemList
    var trackedEdges: seq<nat>
    var lastUsedPosVector: seq<nat>
    var lastUsedPosVectorIndirection: map<nat, nat>

    // the items that have been committed, in order, and those that were dropped at the end
    ghost var archive: NewItemList
    ghost var dropped: NewItemList

    /** The items: live ones and committed ones. */
    ghost predicate ItemsValid()
      reads `itemList, `archive, `firstEffectiveCycle, `currentCycle, `firstCycle, itHeap
    {
      && itHeap.Shape() && itHeap.CacheOk() && eofPurgeTag != itHeap.canonicalItemId && -1 <= currentCycle
      && ItemBooks(itHeap.Lay(), itemList, archive, firstEffectiveCycle, currentCycle,
                   itHeap.canonicalItemId, itHeap.compressMutable)
      && if firstCycle then itemList == [] && archive == [] && currentCycle == -1
         else itHeap.firstEffectiveCycle == firstEffectiveCycle
    }

    /** The moves: logged ones and recorded ones. */
    ghost predicate MovesValid()
      reads `itemList, `archive, `dropped, `firstEffectiveCycle, `currentCycle, `firstCycle, `trackedEdges
      reads `lastUsedPosVector, `lastUsedPosVectorIndirection, trHeap, trHeap.dbgraph
    {
      && trHeap.Valid() && trHeap.dbgraph == dbGraph && dropped == []
      && SlotsOk(lastUsedPosVectorIndirection, lastUsedPosVector)
      && (forall e :: e in trHeap.edgeTrackTbl ==> e in trackedEdges)
      && if firstCycle then Untouched(trHeap.State())
         else
           && trHeap.firstEffectiveCycle == firstEffectiveCycle
           && MoveBooks(trHeap.State(), itemList, archive, firstEffectiveCycle, currentCycle)
    }

    /** The items that have not been committed. */
    ghost function Unfiled(): NewItemList
      reads `itemList, `dropped
    {
      itemList + dropped
    }

    /** What lookups rely on, also after the end of the trace. */
    ghost predicate Loaded()
      reads this, itHeap, trHeap, trHeap.dbgraph
    {
      && ItemsValid() && trHeap.Valid() && trHeap.dbgraph == dbGraph
      && (!firstCycle ==>
            && trHeap.firstEffectiveCycle == firstEffectiveCycle
            && TracksHold(trHeap.State(), firstEffectiveCycle, currentCycle, Movs(Unfiled()), Movs(archive)))
    }

    ghost predicate Valid()
      reads this, itHeap, trHeap, trHeap.dbgraph
    {
      ItemsValid() && MovesValid()
    }

    constructor (heap: ItemTagHeap, tracks: TrackHeap, ifi: Option<nat>, purge: bool, eofTag: nat)
      requires heap.Shape() && heap.CacheOk() && |heap.chains| == 0
      requires tracks.Valid() && tracks.nextTrackID == 0 && tracks.edgeTrackTbl == map[]
      requires eofTag != heap.canonicalItemId
      ensures Valid() && itHeap == heap && trHeap == tracks && dbGraph == tracks.dbgraph
      ensures itemList == archive == dropped == [] && firstCycle && !eoSimulation && lastProcessedEventOk
              && doTrackItemTags && processingDralHeader
      ensures maxIFIEnabled == ifi.Some? && (ifi.Some? ==> maxIFI == ifi.value)
      ensures Limit() == ifi && autoPurge == purge && eofPurgeTag == eofTag && trackedEdges == lastUsedPosVector == []
    {
      hide Good, CacheAgrees, ItemBooks, TracksOk, EdgeTracks, NodeTracks, Untouched;
      NoItems(heap.Lay(), heap.canonicalItemId, heap.compressMutable);
      NoTracksTouched(tracks.State());
      itHeap, trHeap, dbGraph, autoPurge, eofPurgeTag := heap, tracks, tracks.dbgraph, purge, eofTag;
      maxIFIEnabled, maxIFI := ifi.Some?, if ifi.Some? then ifi.value else 0;
      currentCycle, firstEffectiveCycle, dcnt := -1, -1, 0;
      firstCycle, eoSimulation, lastProcessedEventOk, doTrackItemTags := true, false, true, true;
      processingDralHeader := true;
      itemList, archive, dropped := [], [], [];
      trackedEdges, lastUsedPosVector, lastUsedPosVectorIndirection := [], [], map[];
    }

    // -------------------------------------------------------------- committing tags

    /** Adds a value to item i of the heap. */
    method SendTag(id: int, t: nat, v: nat, cycle: int, ghost L: Layout, ghost i: nat)
      requires itHeap.Shape() && itHeap.CacheOk() && i < |itHeap.chains| && t != itHeap.canonicalItemId
      requires |L.chains| <= |L.items| && FirstItem(L.items[..|L.chains|], id) == i
      requires Changed(L, itHeap.Lay(), i, itHeap.EntriesOf(i))
      modifies itHeap`lookUpCache, itHeap`itemVector, itHeap`tagVector, itHeap`nextTagVectorEntry
      modifies itHeap`chains, itHeap`owner, itHeap`rank
      ensures itHeap.Shape() && itHeap.CacheOk() && i < |itHeap.chains|
      ensures Changed(L, itHeap.Lay(), i, itHeap.EntriesOf(i))
      ensures itHeap.EntriesOf(i)
           == WithTag(old(itHeap.EntriesOf(i)), t, v, Stored(cycle, itHeap.firstEffectiveCycle), itHeap.compressMutable)
    {
      hide Good, Changed, EntriesIn, WithTag, Stored, FirstItem, CacheAgrees;
      ghost var s, M := itHeap.EntriesOf(i), itHeap.Lay();
      ghost var s' := WithTag(s, t, v, Stored(cycle, itHeap.firstEffectiveCycle), itHeap.compressMutable);
      ItemsKept(L, M, i, s, itHeap.lookUpCache);
      itHeap.NewTag(id, t, v, cycle);
      ChangedEntries(M, itHeap.Lay(), i, s');
      ChangedTwice(L, M, itHeap.Lay(), i, s, s');
    }

    /** Sends all the values of the tag of node n, which is mutable, at once and in order. */
    method MutableTagDiscriminatorAdder(id: int, list: TagLog, n: nat, ghost tags: TagLog, ghost L: Layout,
                                        ghost i: nat)
      returns (r: TagLog)
      requires itHeap.Shape() && itHeap.CacheOk() && i < |itHeap.chains|
      requires |L.chains| <= |L.items| && FirstItem(L.items[..|L.chains|], id) == i
      requires Changed(L, itHeap.Lay(), i, itHeap.EntriesOf(i))
      requires LogOk(tags) && n < |tags| && Marked(tags, n, list) && !list[n].used && list[n].isMutable
      requires forall k :: 0 <= k < |tags| ==> tags[k].tagid != itHeap.canonicalItemId
      requires Sending(itHeap.EntriesOf(i), tags, n, itHeap.firstEffectiveCycle, itHeap.compressMutable)
      modifies itHeap`lookUpCache, itHeap`itemVector, itHeap`tagVector, itHeap`nextTagVectorEntry
      modifies itHeap`chains, itHeap`owner, itHeap`rank
      ensures itHeap.Shape() && itHeap.CacheOk() && i < |itHeap.chains|
      ensures Changed(L, itHeap.Lay(), i, itHeap.EntriesOf(i))
      ensures Sending(itHeap.EntriesOf(i), tags, n + 1, itHeap.firstEffectiveCycle, itHeap.compressMutable)
      ensures Marked(tags, n + 1, r)
    {
      hide Good, Changed, EntriesIn, FirstItem, CacheAgrees, LogOk, Sending, SendingTag, Sent, Stored, WithTag;
      var t := list[n].tagid;
      SendingFirst(itHeap.EntriesOf(i), tags, n, list, itHeap.firstEffectiveCycle, itHeap.compressMutable);
      SendTag(id, t, list[n].value, list[n].cycle, L, i);
      r := list[n := list[n].(used := true)];
      for k := 0 to |list|
        invariant itHeap.Shape() && itHeap.CacheOk() && i < |itHeap.chains|
        invariant Changed(L, itHeap.Lay(), i, itHeap.EntriesOf(i))
        invariant TagMarked(list, n, k, t, r)
        invariant SendingTag(itHeap.EntriesOf(i), tags, n, if k <= n then n + 1 else k, t,
                             itHeap.firstEffectiveCycle, itHeap.compressMutable)
      {
        var node := r[k];
        if k > n {
          SendingMore(itHeap.EntriesOf(i), tags, n, k, t, itHeap.firstEffectiveCycle, itHeap.compressMutable);
        } else if k < n && tags[k].tagid == t {
          BeforeFirstValue(tags, n, list, k);
        }
        if !node.used && node.tagid == t {
          LaterValue(tags, n, list, k, r);
          SendTag(id, t, node.value, node.cycle, L, i);
          r := r[k := node.(used := true)];
        }
      }
      SendingAll(itHeap.EntriesOf(i), tags, n, list, r, itHeap.firstEffectiveCycle, itHeap.compressMutable);
    }

    /** Sends the tags of a deleted item, which is the last of the heap. */
    method CommitTags(id: int, tags: TagLog, ghost i: nat)
      requires itHeap.Shape() && itHeap.CacheOk() && i < |itHeap.chains| && itHeap.EntriesOf(i) == []
      requires FirstItem(itHeap.Items(), id) == i && LogOk(tags)
      requires forall k :: 0 <= k < |tags| ==> tags[k].tagid != itHeap.canonicalItemId
      modifies itHeap`lookUpCache, itHeap`itemVector, itHeap`tagVector, itHeap`nextTagVectorEntry
      modifies itHeap`chains, itHeap`owner, itHeap`rank
      ensures itHeap.Shape() && itHeap.CacheOk() && i < |itHeap.chains|
      ensures Changed(old(itHeap.Lay()), itHeap.Lay(), i, itHeap.EntriesOf(i))
      ensures Committed(itHeap.EntriesOf(i), tags, itHeap.firstEffectiveCycle, itHeap.compressMutable)
    {
      hide Good, Changed, EntriesIn, FirstItem, CacheAgrees, LogOk, Sending, SendingTag, Sent, Stored;
      hide WithTag, Committed;
      ghost var L := itHeap.Lay();
      NotChanged(L, i);
      SendingStart(tags, itHeap.firstEffectiveCycle, itHeap.compressMutable);
      var list := tags;
      for n := 0 to |tags|
        invariant itHeap.Shape() && itHeap.CacheOk() && i < |itHeap.chains|
        invariant Changed(L, itHeap.Lay(), i, itHeap.EntriesOf(i))
        invariant Marked(tags, n, list)
        invariant Sending(itHeap.EntriesOf(i), tags, n, itHeap.firstEffectiveCycle, itHeap.compressMutable)
      {
        var node := list[n];
        if node.used {
          SendingSkip(itHeap.EntriesOf(i), tags, n, list, itHeap.firstEffectiveCycle, itHeap.compressMutable);
        } else if node.isMutable {
          list := MutableTagDiscriminatorAdder(id, list, n, tags, L, i);
        } else {
          SendingPlain(itHeap.EntriesOf(i), tags, n, list, itHeap.firstEffectiveCycle, itHeap.compressMutable);
          SendTag(id, node.tagid, node.value, node.cycle, L, i);
        }
      }
      SendingEnd(itHeap.EntriesOf(i), tags, itHeap.firstEffectiveCycle, itHeap.compressMutable);
    }

    // -------------------------------------------------------------- recording moves

    /** Takes a logged move over to its track. */
    method RecordMove(m: Move, i: nat)
      requires trHeap.Valid() && Known(trHeap.State(), m, trHeap.firstEffectiveCycle)
      modifies this`lastProcessedEventOk, trHeap`itemIdxVectors
      ensures trHeap.Owners()
      ensures var r := MoveRecorded(old(trHeap.State()), m, trHeap.firstEffectiveCycle, i);
              trHeap.State() == r.0 && lastProcessedEventOk == (old(lastProcessedEventOk) && r.1)
    {
      hide TracksOk, EdgeTracks, NodeTracks, Added, DecPending;
      ghost var T := trHeap.State();
      MoveCycle(T, m, trHeap.firstEffectiveCycle);
      TracksDistinct(T, m, m);
      var ok := trHeap.AddMoveItem(m.edgeid, i, m.cycle, m.pos);
      lastProcessedEventOk := lastProcessedEventOk && ok;
      if ok {
        trHeap.DecPendingCnt(trHeap.edgeTrackTbl[m.edgeid] + m.pos, m.cycle);
      }
    }

    /** Takes all moves of live item a over to the tracks, under its place i in the heap.
        None is refused. */
    method RecordMoves(a: nat, i: nat)
      requires trHeap.Valid() && trHeap.firstEffectiveCycle == firstEffectiveCycle
      requires a < |itemList| && i == |archive| < 0x8000_0000
      requires MoveBooks(trHeap.State(), itemList, archive, firstEffectiveCycle, currentCycle)
      modifies this`lastProcessedEventOk, trHeap`itemIdxVectors
      ensures trHeap.Valid() && SameOwners(old(trHeap.State()), trHeap.State())
      ensures lastProcessedEventOk == old(lastProcessedEventOk)
      ensures MoveBooks(trHeap.State(), itemList[..a] + itemList[a+1..], archive + [itemList[a]],
                        firstEffectiveCycle, currentCycle)
    {
      hide TracksOk, EdgeTracks, NodeTracks, Known, Ledger, MoveRecorded;
      ghost var T, first, now := trHeap.State(), firstEffectiveCycle, currentCycle;
      ghost var live, done := Movs(itemList), Movs(archive);
      var movs := itemList[a].movs;
      LedgerOpen(T, first, now, live, done);
      assert live[a := movs[0..]] == live && movs[..0] == [];
      for j := 0 to |movs|
        invariant trHeap.Owners() && SameOwners(T, trHeap.State()) && lastProcessedEventOk == old(lastProcessedEventOk)
        invariant Ledger(trHeap.State(), first, now, live[a := movs[j..]], done + [movs[..j]])
      {
        ghost var rest := live[a := movs[j..]];
        LedgerFirst(trHeap.State(), first, now, rest, done + [movs[..j]], a);
        LedgerRecord(trHeap.State(), first, now, rest, done, movs[..j], a);
        RecordMove(movs[j], i);
        assert rest[a := rest[a][1..]] == live[a := movs[j+1..]] && movs[..j] + [movs[j]] == movs[..j+1];
      }
      assert movs[|movs|..] == [] && movs[..|movs|] == movs;
      MoveBooksDrop(trHeap.State(), itemList, archive, first, now, a);
    }

    // -------------------------------------------------------------- deleting items

    /** Opens a block for live item a in the heap and fills it with its tags. */
    method CommitItem(a: nat) returns (entry: int)
      requires ItemsValid() && a < |itemList|
      modifies itHeap`lookUpCache, itHeap`itemVector, itHeap`tagVector, itHeap`nextTagVectorEntry
      modifies itHeap`nextItemVectorEntry, itHeap`chains, itHeap`owner, itHeap`rank
      ensures itHeap.Shape() && itHeap.CacheOk()
      ensures entry == if |archive| < 0x1000_0000 then |archive| else -1
      ensures ItemBooks(itHeap.Lay(), if entry < 0 then itemList else itemList[..a] + itemList[a+1..],
                        if entry < 0 then archive else archive + [itemList[a]],
                        firstEffectiveCycle, currentCycle, itHeap.canonicalItemId, itHeap.compressMutable)
    {
      hide Good, EntriesIn, Changed, FirstItem, CacheAgrees, LogOk, Committed, Filed, Distinct, ItemsOk;
      var x := itemList[a];
      ghost var L := itHeap.Lay();
      FiledNew(L, archive, itemList, a, firstEffectiveCycle, itHeap.compressMutable);
      ItemGood(itemList, currentCycle, itHeap.canonicalItemId, a);
      entry := itHeap.NewItemBlock(x.itemId);
      if entry < 0 {
        return;
      }
      ghost var M := itHeap.Lay();
      FirstAppended(itHeap.Items(), x.itemId);
      ItemsBefore(L, M, entry);
      assert forall k :: 0 <= k < entry ==> EntriesIn(M, k) == itHeap.EntriesOf(k);
      CommitTags(x.itemId, x.tags, entry);
      FiledMore(L, M, itHeap.Lay(), archive, x, firstEffectiveCycle, itHeap.compressMutable, itHeap.EntriesOf(entry));
      DistinctMoved(archive, itemList, a);
      ItemsOkDrop(itemList, currentCycle, itHeap.canonicalItemId, a);
    }

    /** Commits live item a: its tags go to the heap and its moves to the tracks, each exactly
        once, and it is live no more. Fails only when the heap is full. */
    method CommitAt(a: nat) returns (r: bool)
      requires Valid() && a < |itemList|
      modifies this`itemList, this`archive, this`lastProcessedEventOk, trHeap`itemIdxVectors
      modifies itHeap`lookUpCache, itHeap`itemVector, itHeap`tagVector, itHeap`nextTagVectorEntry
      modifies itHeap`nextItemVectorEntry, itHeap`chains, itHeap`owner, itHeap`rank
      ensures Valid() && SameOwners(old(trHeap.State()), trHeap.State())
      ensures r == (|old(archive)| < 0x1000_0000)
      ensures itemList == if r then old(itemList)[..a] + old(itemList)[a+1..] else old(itemList)
      ensures archive == if r then old(archive) + [old(itemList)[a]] else old(archive)
      ensures lastProcessedEventOk == (old(lastProcessedEventOk) && r)
    {
      hide Good, CacheAgrees, ItemBooks, MoveBooks, TracksOk, EdgeTracks, NodeTracks, Untouched;
      var entry := CommitItem(a);
      r := entry >= 0;
      if !r {
        lastProcessedEventOk := false;
        return;
      }
      RecordMoves(a, entry);
      itemList, archive := itemList[..a] + itemList[a+1..], archive + [itemList[a]];
    }

    /** Deletes an item, if it is live. */
    method ComputeDeleteItem(id: int) returns (r: bool)
      requires Valid()
      modifies this`itemList, this`archive, this`lastProcessedEventOk, trHeap`itemIdxVectors
      modifies itHeap`lookUpCache, itHeap`itemVector, itHeap`tagVector, itHeap`nextTagVectorEntry
      modifies itHeap`nextItemVectorEntry, itHeap`chains, itHeap`owner, itHeap`rank
      ensures Valid() && SameOwners(old(trHeap.State()), trHeap.State())
      ensures var a := FindItem(old(itemList), id);
              && r == (a < |old(itemList)| && |old(archive)| < 0x1000_0000)
              && itemList == (if r then old(itemList)[..a] + old(itemList)[a+1..] else old(itemList))
              && archive == (if r then old(archive) + [old(itemList)[a]] else old(archive))
              && lastProcessedEventOk == (old(lastProcessedEventOk) && (r || a == |old(itemList)|))
      ensures Books(itemList, archive) == WithDeleted(Books(old(itemList), old(archive)), id)
    {
      hide ItemsValid, MovesValid, FindItem;
      var a := FindItem(itemList, id);
      if a == |itemList| {
        return false;
      }
      r := CommitAt(a);
    }

    // -------------------------------------------------------------- item events

    /** An item becomes live. Ids are not reused, and items come after the first cycle. */
    method NewItem(id: int)
      requires Valid() && !firstCycle && forall i :: 0 <= i < |archive + itemList| ==>
               (archive + itemList)[i].itemId != id
      modifies this`itemList
      ensures Valid() && itemList == old(itemList) + [LNewItemListNode(currentCycle, id, [], [])]
    {
      hide Good, CacheAgrees, ItemBooks, MoveBooks, TracksOk, EdgeTracks, NodeTracks, Untouched;
      ItemBooksNew(itHeap.Lay(), itemList, archive, firstEffectiveCycle, currentCycle, itHeap.canonicalItemId,
                   itHeap.compressMutable, id);
      MoveBooksNew(trHeap.State(), itemList, archive, firstEffectiveCycle, currentCycle, id);
      itemList := itemList + [LNewItemListNode(currentCycle, id, [], [])];
    }

    /** Logs a value of a tag of a live item. Sets of unknown items are ignored, and so are all
        of them when item tags are not tracked. */
    method SetTagSingleValue(id: int, tagid: nat, value: nat)
      requires Valid() && tagid != itHeap.canonicalItemId
      modifies this`itemList
      ensures Valid()
      ensures itemList == WithTagSet(old(itemList), id, tagid, value, currentCycle, doTrackItemTags)
      ensures !doTrackItemTags ==> itemList == old(itemList)
    {
      hide Good, CacheAgrees, ItemBooks, MoveBooks, TracksOk, EdgeTracks, NodeTracks, Untouched, Logged;
      hide Scanned, LastOther, FindItem;
      if !doTrackItemTags {
        return;
      }
      var a := FindItem(itemList, id);
      if a < |itemList| {
        var x := itemList[a];
        var list, mutant, matching := HasTag(x.tags, tagid, currentCycle);
        list := list + [LSetTagListNode(currentCycle, tagid, value, false, false)];
        if mutant {
          list := list[matching := list[matching].(isMutable := true)];
          list := list[|list| - 1 := list[|list|-1].(isMutable := true)];
        }
        LoggedIs(x.tags, tagid, value, currentCycle, list);
        ItemBooksTag(itHeap.Lay(), itemList, archive, firstEffectiveCycle, currentCycle, itHeap.canonicalItemId,
                     itHeap.compressMutable, a, tagid, value);
        MoveBooksTag(trHeap.State(), itemList, archive, firstEffectiveCycle, currentCycle, a, list);
        itemList := itemList[a := x.(tags := list)];
      }
    }

    method DeleteItem(id: int)
      requires Valid()
      modifies this`itemList, this`archive, this`lastProcessedEventOk, trHeap`itemIdxVectors
      modifies itHeap`lookUpCache, itHeap`itemVector, itHeap`tagVector, itHeap`nextTagVectorEntry
      modifies itHeap`nextItemVectorEntry, itHeap`chains, itHeap`owner, itHeap`rank
      ensures Valid() && SameOwners(old(trHeap.State()), trHeap.State())
      ensures var a := FindItem(old(itemList), id);
              if a < |old(itemList)| && |old(archive)| < 0x1000_0000
              then && itemList == old(itemList)[..a] + old(itemList)[a+1..]
                   && archive == old(archive) + [old(itemList)[a]] && lastProcessedEventOk == old(lastProcessedEventOk)
              else && itemList == old(itemList) && archive == old(archive)
                   && lastProcessedEventOk == (old(lastProcessedEventOk) && a == |old(itemList)|)
    {
      hide ItemsValid, MovesValid, FindItem;
      if FindItem(itemList, id) < |itemList| {
        var _ := ComputeDeleteItem(id);
      }
    }

    /** Logs a move of live item a at a position of a tracked edge. */
    method LogMove(a: nat, edgeId: nat, pos: nat)
      requires ItemsValid() && a < |itemList| && !firstCycle
      requires trHeap.Valid() && trHeap.firstEffectiveCycle == firstEffectiveCycle
      requires MoveBooks(trHeap.State(), itemList, archive, firstEffectiveCycle, currentCycle)
      requires Known(trHeap.State(), Move(currentCycle, edgeId, pos), firstEffectiveCycle)
      modifies this`itemList, trHeap`itemIdxVectors
      ensures ItemsValid() && trHeap.Valid() && SameOwners(old(trHeap.State()), trHeap.State())
      ensures itemList == WithMove(old(itemList), a, Move(currentCycle, edgeId, pos))
      ensures MoveBooks(trHeap.State(), itemList, archive, firstEffectiveCycle, currentCycle)
    {
      hide Good, CacheAgrees, ItemBooks, MoveBooks, TracksOk, EdgeTracks, NodeTracks, IncPending;
      var m := Move(currentCycle, edgeId, pos);
      ghost var T := trHeap.State();
      BooksTracks(T, itemList, archive, firstEffectiveCycle, currentCycle);
      TracksDistinct(T, m, m);
      MoveBooksMove(T, itemList, archive, firstEffectiveCycle, currentCycle, a, m);
      ItemBooksMove(itHeap.Lay(), itemList, archive, firstEffectiveCycle, currentCycle, itHeap.canonicalItemId,
                    itHeap.compressMutable, a, m);
      trHeap.IncPendingCnt(trHeap.edgeTrackTbl[edgeId] + pos, currentCycle);
      itemList := WithMove(itemList, a, m);
      assert trHeap.State() == MoveLogged(T, m, firstEffectiveCycle);
      BooksTracks(trHeap.State(), itemList, archive, firstEffectiveCycle, currentCycle);
    }

    /** Gives the items their positions on a tracked edge, from nextPos on. */
    method PlaceMoves(edgeId: nat, bw: nat, ids: seq<int>, p: nat) returns (nextPos: nat)
      requires ItemsValid() && !firstCycle
      requires trHeap.Valid() && trHeap.firstEffectiveCycle == firstEffectiveCycle
      requires currentCycle < firstEffectiveCycle + 0x10_0000
      requires MoveBooks(trHeap.State(), itemList, archive, firstEffectiveCycle, currentCycle)
      requires edgeId in trHeap.State().base && edgeId in trHeap.State().bandwidth
               && trHeap.State().bandwidth[edgeId] == bw
      modifies this`itemList, trHeap`itemIdxVectors
      ensures ItemsValid() && trHeap.Valid() && SameOwners(old(trHeap.State()), trHeap.State())
      ensures (itemList, nextPos) == WithMoves(old(itemList), ids, edgeId, bw, currentCycle, p)
      ensures MoveBooks(trHeap.State(), itemList, archive, firstEffectiveCycle, currentCycle)
      ensures p < 256 ==> nextPos < 256
    {
      hide ItemBooks, MoveBooks, TracksOk, FindItem, MoveLogged, ItemsValid;
      ghost var T := trHeap.State();
      nextPos := p;
      BooksTracks(T, itemList, archive, firstEffectiveCycle, currentCycle);
      for i := 0 to |ids|
        invariant ItemsValid() && trHeap.Valid() && SameOwners(T, trHeap.State()) && (p < 256 ==> nextPos < 256)
        invariant MoveBooks(trHeap.State(), itemList, archive, firstEffectiveCycle, currentCycle)
        invariant (itemList, nextPos) == WithMoves(old(itemList), ids[..i], edgeId, bw, currentCycle, p)
      {
        assert ids[..i+1][..i] == ids[..i];
        var a := FindItem(itemList, ids[i]);
        if a < |itemList| && nextPos < bw {
          LogMove(a, edgeId, nextPos);
          nextPos := NextPos(nextPos);
        }
      }
      assert ids[..|ids|] == ids;
    }

    /** Items move over an edge: each live item gets the next free position of the edge in this
        cycle and the move is logged with it; unknown items, and items for which there is no
        position left, are passed over. The cycle must have a place in the vectors of the tracks. */
    method MoveItems(edgeId: nat, ids: seq<int>)
      requires Valid() && !firstCycle && lastUsedPosVector != []
      requires edgeId in trHeap.edgeTrackTbl ==> currentCycle < firstEffectiveCycle + 0x10_0000
      modifies this`itemList, this`lastUsedPosVector, trHeap`itemIdxVectors
      ensures Valid() && SameOwners(old(trHeap.State()), trHeap.State())
      ensures var T, s := old(trHeap.State()), SlotOf(lastUsedPosVectorIndirection, edgeId);
              && s < |old(lastUsedPosVector)|
              && if edgeId in T.base && edgeId in T.bandwidth then
                   var r := WithMoves(old(itemList), ids, edgeId, T.bandwidth[edgeId], currentCycle,
                                      old(lastUsedPosVector)[s]);
                   itemList == r.0 && lastUsedPosVector == old(lastUsedPosVector)[s := r.1]
                 else itemList == old(itemList) && lastUsedPosVector == old(lastUsedPosVector)
    {
      hide ItemBooks, MoveBooks, TracksOk, WithMoves, ItemsValid, EdgeTracks, NodeTracks;
      ghost var T := trHeap.State();
      var s := SlotOf(lastUsedPosVectorIndirection, edgeId);
      var bw := dbGraph.GetEdgeBandwidth(edgeId);
      var nextPos := lastUsedPosVector[s];
      if bw <= 0 || edgeId !in trHeap.edgeTrackTbl {
        NoneMoved(itemList, ids, edgeId, currentCycle, nextPos);
        assert lastUsedPosVector[s := nextPos] == lastUsedPosVector;
        return;
      }
      nextPos := PlaceMoves(edgeId, bw, ids, nextPos);
      lastUsedPosVector := lastUsedPosVector[s := nextPos];
    }

    // -------------------------------------------------------------- the limit of live items

    /** Commits the oldest live items, down to nine tenths of the limit or until the heap is full. */
    method ForceMaxIfiPurge() returns (ghost gone: seq<AuxItemListNode>)
      requires Valid() && |itemList| > maxIFI
      modifies this`itemList, this`archive, this`lastProcessedEventOk, trHeap`itemIdxVectors
      modifies itHeap`lookUpCache, itHeap`itemVector, itHeap`tagVector, itHeap`nextTagVectorEntry
      modifies itHeap`nextItemVectorEntry, itHeap`chains, itHeap`owner, itHeap`rank
      ensures Valid() && SameOwners(old(trHeap.State()), trHeap.State())
      ensures itemList == Without(old(itemList), Ids(gone)) && OldestFirst(old(itemList), Ids(gone))
      ensures Books(itemList, archive) == WithAllDeleted(Books(old(itemList), old(archive)), gone)
      ensures |itemList| == |old(itemList)| - Purged(|old(itemList)|, maxIFI, |old(archive)|)
      ensures |archive| == |old(archive)| + Purged(|old(itemList)|, maxIFI, |old(archive)|)
      ensures Handed(old(itemList), itemList, old(archive), archive) && |archive| == |old(archive)| + |gone|
      ensures lastProcessedEventOk
           == (old(lastProcessedEventOk) && |old(archive)| + Surplus(|old(itemList)|, Some(maxIFI)) <= MAX_ITEM_ENTRIES)
    {
      hide ItemsValid, MovesValid, FindItem, Without, Distinct, Handed, Permuted, ByCycle, Ids, OldestFirst;
      hide WithDeleted, WithAllDeleted;
      ghost var items, done := itemList, archive;
      LiveDistinct();
      var numRed := |itemList| - 9 * maxIFI / 10;
      var sorted := SortByCycle(Aux(itemList));
      WithoutNone(items);
      HandedNone(items, done);
      IdsNone(sorted);
      DeletedNone(Books(items, done), sorted);
      ghost var d := 0;
      var cnt := 0;
      while cnt < |sorted| && cnt < numRed
        invariant Valid() && SameOwners(old(trHeap.State()), trHeap.State())
        invariant cnt <= numRed && d <= cnt <= |sorted|
        invariant d == if |done| + cnt <= MAX_ITEM_ENTRIES then cnt else MAX_ITEM_ENTRIES - |done|
        invariant itemList == Without(items, Ids(sorted[..d])) && |itemList| == |items| - d
        invariant |archive| == |done| + d && Handed(items, itemList, done, archive)
        invariant Books(itemList, archive) == WithAllDeleted(Books(items, done), sorted[..d])
        invariant lastProcessedEventOk == (old(lastProcessedEventOk) && d == cnt)
      {
        WithoutStep(items, sorted, cnt);
        ghost var was, filed := itemList, archive;
        var deleted := ComputeDeleteItem(sorted[cnt].itemId);
        if deleted {
          HandedStep(items, was, FindItem(was, sorted[cnt].itemId), done, filed);
          DeletedStep(Books(items, done), sorted, d);
          d := d + 1;
        }
        cnt := cnt + 1;
      }
      OldestGone(items, sorted, d);
      gone := sorted[..d];
    }

    /** Ids are distinct, and there are no items before the first cycle. */
    lemma Ordinary()
      requires Valid()
      ensures Distinct(archive + itemList) && (itemList != [] ==> firstEffectiveCycle <= currentCycle) && dropped == []
      ensures firstCycle ==> itemList == [] && archive == [] && currentCycle == -1
    {
      hide Good, CacheAgrees, TracksOk, EdgeTracks, NodeTracks, Untouched, Distinct;
      if !firstCycle {
        BooksTracks(trHeap.State(), itemList, archive, firstEffectiveCycle, currentCycle);
      }
    }

    /** Lookups can be made at any time. */
    lemma AlwaysLoaded()
      requires Valid()
      ensures Loaded() && Unfiled() == itemList
    {
      hide ItemsValid, TracksHold, TracksOk, EdgeTracks, NodeTracks, Untouched;
      assert itemList + dropped == itemList;
    }

    /** The limit of live items, if there is one. */
    function Limit(): Option<nat> {
      if maxIFIEnabled then Some(maxIFI) else None
    }

    /** Keeps the number of live items below the limit. */
    method LimitItems() returns (ghost gone: seq<AuxItemListNode>)
      requires Valid()
      modifies this`itemList, this`archive, this`lastProcessedEventOk, trHeap`itemIdxVectors
      modifies itHeap`lookUpCache, itHeap`itemVector, itHeap`tagVector, itHeap`nextTagVectorEntry
      modifies itHeap`nextItemVectorEntry, itHeap`chains, itHeap`owner, itHeap`rank
      ensures Valid() && SameOwners(old(trHeap.State()), trHeap.State())
      ensures Limited(old(itemList), itemList, old(archive), archive, Ids(gone), Limit())
      ensures Books(itemList, archive) == WithAllDeleted(Books(old(itemList), old(archive)), gone)
      ensures |archive| == |old(archive)| + |gone|
      ensures lastProcessedEventOk
           == (old(lastProcessedEventOk) && |old(archive)| + Surplus(|old(itemList)|, Limit()) <= MAX_ITEM_ENTRIES)
      ensures !(maxIFIEnabled && |old(itemList)| > maxIFI) ==> gone == [] && trHeap.State() == old(trHeap.State())
      ensures |old(archive)| + |old(itemList)| <= 0x1000_0000 ==>
                |itemList| == if maxIFIEnabled && |old(itemList)| > maxIFI then 9 * maxIFI / 10 else |old(itemList)|
    {
      hide ItemsValid, MovesValid, Without, OldestFirst, Handed, Purged;
      LiveDistinct();
      ghost var items, done := itemList, archive;
      if maxIFIEnabled && |itemList| > maxIFI {
        gone := ForceMaxIfiPurge();
        if |done| + |items| <= 0x1000_0000 {
          LimitKept(items, itemList, done, archive, Ids(gone), maxIFI);
        }
      } else {
        gone := [];
        IdsNone(gone);
        WithoutNone(itemList);
        HandedNone(itemList, archive);
        NoneOldest(itemList);
      }
    }

    lemma LiveDistinct()
      requires Valid()
      ensures Distinct(itemList) && |archive| <= MAX_ITEM_ENTRIES && -1 <= currentCycle
      ensures eofPurgeTag != itHeap.canonicalItemId
    {
      hide MovesValid;
      assert forall i :: 0 <= i < |itemList| ==> (archive + itemList)[|archive| + i] == itemList[i];
    }

    // -------------------------------------------------------------- cycles

    /** The first cycle of the trace is cycle zero of the heaps. */
    method StartActivity(first: int)
      requires Valid() && firstCycle
      modifies this`firstEffectiveCycle, this`lastProcessedEventOk, this`processingDralHeader
      modifies itHeap`firstEffectiveCycle, trHeap`firstEffectiveCycle
      ensures firstEffectiveCycle == itHeap.firstEffectiveCycle == trHeap.firstEffectiveCycle == first
      ensures Valid() && lastProcessedEventOk && !processingDralHeader && trHeap.State() == old(trHeap.State())
    {
      hide Good, CacheAgrees, ItemBooks, TracksOk, EdgeTracks, NodeTracks, Untouched, SlotsOk, TrackHeap.Owners;
      ItemBooksStart(itHeap.Lay(), firstEffectiveCycle, first, currentCycle, itHeap.canonicalItemId,
                     itHeap.compressMutable);
      lastProcessedEventOk := true;
      processingDralHeader := false;
      firstEffectiveCycle := first;
      itHeap.firstEffectiveCycle := first;
      trHeap.firstEffectiveCycle := first;
    }

    /** Goes on to cycle m: all position counters start again. */
    method Advance(m: int)
      requires Valid() && currentCycle <= m
      requires firstCycle ==> firstEffectiveCycle == itHeap.firstEffectiveCycle == trHeap.firstEffectiveCycle == m
      modifies this`lastUsedPosVector, this`currentCycle, this`firstCycle
      ensures Valid() && !firstCycle && firstEffectiveCycle <= currentCycle == m
      ensures lastUsedPosVector == seq(|old(lastUsedPosVector)|, _ => 0)
    {
      hide Good, CacheAgrees, ItemBooks, MoveBooks, TracksOk, EdgeTracks, NodeTracks, Untouched;
      if firstCycle {
        BooksStart(trHeap.State(), m);
      } else {
        BooksLater(trHeap.State(), itemList, archive, firstEffectiveCycle, currentCycle, m);
      }
      ItemBooksLater(itHeap.Lay(), itemList, archive, firstEffectiveCycle, currentCycle, m,
                     itHeap.canonicalItemId, itHeap.compressMutable);
      BooksTracks(trHeap.State(), itemList, archive, firstEffectiveCycle, m);
      lastUsedPosVector := seq(|lastUsedPosVector|, _ => 0);
      currentCycle := m;
      firstCycle := false;
    }

    /** A compression round over the tracks. */
    method Compress()
      requires Valid() && !firstCycle
      modifies trHeap`itemIdxVectors
      ensures Valid() && firstEffectiveCycle <= currentCycle
      ensures trHeap.State() == RoundDone(old(trHeap.State()), currentCycle - firstEffectiveCycle, false)
    {
      hide ItemsValid, MoveBooks, TracksOk, EdgeTracks, NodeTracks, RoundDone;
      ghost var T := trHeap.State();
      BooksTracks(T, itemList, archive, firstEffectiveCycle, currentCycle);
      BooksRound(T, itemList, archive, firstEffectiveCycle, currentCycle);
      trHeap.CompressYourSelf(currentCycle, false);
      BooksTracks(trHeap.State(), itemList, archive, firstEffectiveCycle, currentCycle);
    }

    /** What an accepted cycle brings: positions start again, every 4096 calls the tracks are compressed,
        and the limit of live items is kept. */
    method BeginCycle(m: int) returns (ghost gone: seq<AuxItemListNode>)
      requires Valid() && currentCycle <= m
      requires firstCycle ==> firstEffectiveCycle == itHeap.firstEffectiveCycle == trHeap.firstEffectiveCycle == m
      modifies this`lastProcessedEventOk, this`lastUsedPosVector, this`currentCycle, this`firstCycle, this`itemList
      modifies this`archive, trHeap`itemIdxVectors
      modifies itHeap`lookUpCache, itHeap`itemVector, itHeap`tagVector, itHeap`nextTagVectorEntry
      modifies itHeap`nextItemVectorEntry, itHeap`chains, itHeap`owner, itHeap`rank
      ensures Valid() && SameOwners(old(trHeap.State()), trHeap.State())
      ensures currentCycle == m && !firstCycle && firstEffectiveCycle <= currentCycle
      ensures lastUsedPosVector == seq(|old(lastUsedPosVector)|, _ => 0)
      ensures Limited(old(itemList), itemList, old(archive), archive, Ids(gone), Limit())
      ensures Books(itemList, archive) == WithAllDeleted(Books(old(itemList), old(archive)), gone)
      ensures |archive| == |old(archive)| + |gone|
      ensures lastProcessedEventOk
           == (old(lastProcessedEventOk) && |old(archive)| + Surplus(|old(itemList)|, Limit()) <= MAX_ITEM_ENTRIES)
      ensures |old(archive)| + |old(itemList)| <= 0x1000_0000 ==>
                |itemList| == if maxIFIEnabled && |old(itemList)| > maxIFI then 9 * maxIFI / 10 else |old(itemList)|
      ensures !(maxIFIEnabled && |old(itemList)| > maxIFI) ==>
                && gone == []
                && trHeap.State() == if dcnt % 4096 == 0
                                  then RoundDone(old(trHeap.State()), currentCycle - firstEffectiveCycle, false)
                                  else old(trHeap.State())
    {
      hide ItemsValid, MovesValid, Limited, RoundDone, Surplus, WithAllDeleted, Ids;
      Advance(m);
      if dcnt % CYCLE_CHUNK_SIZE == 0 {
        Compress();
      }
      gone := LimitItems();
    }

    /** A cycle begins. Cycles do not go back; in a cycle in which there are too many live
        items, the oldest ones are committed. */
    method Cycle(n: nat) returns (ghost gone: seq<AuxItemListNode>)
      requires Valid()
      modifies this`firstEffectiveCycle, this`lastProcessedEventOk, this`dcnt, this`lastUsedPosVector, this`currentCycle
      modifies this`firstCycle, this`itemList, this`archive, this`processingDralHeader
      modifies trHeap`itemIdxVectors, trHeap`firstEffectiveCycle
      modifies itHeap`lookUpCache, itHeap`itemVector, itHeap`tagVector, itHeap`nextTagVectorEntry
      modifies itHeap`nextItemVectorEntry, itHeap`chains, itHeap`owner, itHeap`rank, itHeap`firstEffectiveCycle
      ensures Valid() && dcnt == old(dcnt) + 1 && SameOwners(old(trHeap.State()), trHeap.State())
      ensures old(!firstCycle) ==> firstEffectiveCycle == old(firstEffectiveCycle)
      ensures processingDralHeader == (old(processingDralHeader) && !old(firstCycle))
      ensures n < 0x8000_0000 ==> currentCycle == if n >= old(currentCycle) then n else old(currentCycle)
      ensures Signed(n) >= old(currentCycle) && |old(archive)| + |old(itemList)| <= 0x1000_0000 ==>
                |itemList| == if maxIFIEnabled && |old(itemList)| > maxIFI then 9 * maxIFI / 10 else |old(itemList)|
      ensures Signed(n) < old(currentCycle) ==>
                && currentCycle == old(currentCycle) && itemList == old(itemList) && archive == old(archive)
                && !lastProcessedEventOk && firstCycle == old(firstCycle)
                && lastUsedPosVector == old(lastUsedPosVector) && trHeap.State() == old(trHeap.State()) && gone == []
      ensures Signed(n) >= old(currentCycle) ==>
                && currentCycle == Signed(n) && !firstCycle && (old(firstCycle) ==> firstEffectiveCycle == Signed(n))
                && lastUsedPosVector == seq(|old(lastUsedPosVector)|, _ => 0)
                && Limited(old(itemList), itemList, old(archive), archive, Ids(gone), Limit())
                && Books(itemList, archive) == WithAllDeleted(Books(old(itemList), old(archive)), gone)
                && |archive| == |old(archive)| + |gone| && firstEffectiveCycle <= currentCycle
                && lastProcessedEventOk
                   == ((old(firstCycle) || old(lastProcessedEventOk))
                       && |old(archive)| + Surplus(|old(itemList)|, Limit()) <= MAX_ITEM_ENTRIES)
                && (!(maxIFIEnabled && |old(itemList)| > maxIFI) ==>
                      && gone == []
                      && trHeap.State() == if dcnt % 4096 == 0
                                        then RoundDone(old(trHeap.State()), currentCycle - firstEffectiveCycle, false)
                                        else old(trHeap.State()))
    {
      hide ItemsValid, MovesValid, Limited, Signed, RoundDone, Surplus, WithAllDeleted, Ids;
      gone := [];
      dcnt := dcnt + 1;
      var m := Signed(n);
      if n < 0x8000_0000 {
        SignedSmall(n);
      }
      if firstCycle {
        StartActivity(m);
      }
      if m < currentCycle {
        lastProcessedEventOk := false;
        return;
      }
      gone := BeginCycle(m);
    }

    // -------------------------------------------------------------- the end of the trace

    /** Tags a live item as purged and commits it. */
    method PurgeItem(id: int)
      requires Valid()
      modifies this`itemList, this`archive, this`lastProcessedEventOk, trHeap`itemIdxVectors
      modifies itHeap`lookUpCache, itHeap`itemVector, itHeap`tagVector, itHeap`nextTagVectorEntry
      modifies itHeap`nextItemVectorEntry, itHeap`chains, itHeap`owner, itHeap`rank
      ensures Valid() && SameOwners(old(trHeap.State()), trHeap.State()) && old(archive) <= archive
      ensures var a := FindItem(old(itemList), id);
              a < |old(itemList)| && |old(archive)| < 0x1000_0000 ==>
                && itemList == old(itemList)[..a] + old(itemList)[a+1..]
                && archive == old(archive) + [EofTagged(old(itemList)[a], eofPurgeTag, currentCycle, doTrackItemTags)]
                && (!doTrackItemTags ==> archive == old(archive) + [old(itemList)[a]])
      ensures Books(itemList, archive)
           == WithPurged(Books(old(itemList), old(archive)), id, eofPurgeTag, currentCycle, doTrackItemTags)
    {
      hide ItemsValid, MovesValid, FindItem, Logged, WithTagSet, WithDeleted, Distinct;
      LiveDistinct();
      FoundTagged(itemList, id, eofPurgeTag, 1, currentCycle, doTrackItemTags);
      SetTagSingleValue(id, eofPurgeTag, 1);
      var deleted := ComputeDeleteItem(id);
    }

    /** Commits all live items, in any order, as long as there is room in the heap. */
    method PurgeAll() returns (ghost order: seq<AuxItemListNode>)
      requires Valid()
      modifies this`itemList, this`archive, this`lastProcessedEventOk, trHeap`itemIdxVectors
      modifies itHeap`lookUpCache, itHeap`itemVector, itHeap`tagVector, itHeap`nextTagVectorEntry
      modifies itHeap`nextItemVectorEntry, itHeap`chains, itHeap`owner, itHeap`rank
      ensures Valid() && SameOwners(old(trHeap.State()), trHeap.State()) && old(archive) <= archive
      ensures Permuted(Aux(old(itemList)), order)
      ensures Books(itemList, archive)
           == WithAllPurged(Books(old(itemList), old(archive)), order, eofPurgeTag, currentCycle, doTrackItemTags)
      ensures |old(archive)| + |old(itemList)| <= MAX_ITEM_ENTRIES ==>
                && itemList == []
                && Purging(old(itemList), [], archive[|old(archive)|..], eofPurgeTag, currentCycle, doTrackItemTags)
    {
      hide ItemsValid, MovesValid, FindItem, Without, Distinct, Purging, Permuted, Ids, EofTagged;
      hide WithPurged, WithAllPurged;
      ghost var items, done := itemList, archive;
      ghost var room := |done| + |items| <= MAX_ITEM_ENTRIES;
      LiveDistinct();
      var list := IterationOrder(Aux(itemList));
      order := list;
      WithoutNone(items);
      IdsNone(list);
      PurgingNone(items, eofPurgeTag, currentCycle, doTrackItemTags);
      PurgedNone(Books(items, done), list, eofPurgeTag, currentCycle, doTrackItemTags);
      assert archive[|done|..] == [];
      for k := 0 to |list|
        invariant Valid() && SameOwners(old(trHeap.State()), trHeap.State()) && done <= archive
        invariant room ==> itemList == Without(items, Ids(list[..k])) && |itemList| == |items| - k
        invariant room ==> |archive| == |done| + k
        invariant room ==> Purging(items, itemList, archive[|done|..], eofPurgeTag, currentCycle, doTrackItemTags)
        invariant Books(itemList, archive)
               == WithAllPurged(Books(items, done), list[..k], eofPurgeTag, currentCycle, doTrackItemTags)
      {
        WithoutStep(items, list, k);
        ghost var was, filed := itemList, archive;
        ghost var a := FindItem(was, list[k].itemId);
        PurgeItem(list[k].itemId);
        PurgedStep(Books(items, done), list, k, eofPurgeTag, currentCycle, doTrackItemTags);
        if room {
          PurgingStep(items, was, a, filed, |done|, eofPurgeTag, currentCycle, doTrackItemTags);
        }
      }
      assert list[..|list|] == list;
    }

    /** Commits the items that are live after the last cycle, if the configuration says so. */
    method PurgeRest(ghost items: NewItemList, ghost done: NewItemList) returns (ghost order: seq<AuxItemListNode>)
      requires Valid() && Handed(items, itemList, done, archive) && |itemList| + |archive| == |items| + |done|
      modifies this`itemList, this`archive, this`lastProcessedEventOk, trHeap`itemIdxVectors
      modifies itHeap`lookUpCache, itHeap`itemVector, itHeap`tagVector, itHeap`nextTagVectorEntry
      modifies itHeap`nextItemVectorEntry, itHeap`chains, itHeap`owner, itHeap`rank
      ensures Valid() && SameOwners(old(trHeap.State()), trHeap.State()) && old(archive) <= archive
      ensures if autoPurge then Permuted(Aux(old(itemList)), order) else order == []
      ensures Books(itemList, archive)
           == WithAllPurged(Books(old(itemList), old(archive)), order, eofPurgeTag, currentCycle, doTrackItemTags)
      ensures !autoPurge ==> archive == old(archive)
      ensures autoPurge && |items| + |done| <= MAX_ITEM_ENTRIES ==>
                && itemList == [] && done <= archive
                && Purging(items, [], archive[|done|..], eofPurgeTag, currentCycle, doTrackItemTags)
    {
      hide ItemsValid, MovesValid, Handed, Purging, WithPurged, IdsDiffer;
      ghost var live, filed := itemList, archive;
      order := [];
      if autoPurge && |itemList| > 0 {
        order := PurgeAll();
      } else if |itemList| == 0 {
        PurgingNone(live, eofPurgeTag, currentCycle, doTrackItemTags);
        assert archive[|filed|..] == [];
      }
      if itemList == [] && Purging(live, [], archive[|filed|..], eofPurgeTag, currentCycle, doTrackItemTags) {
        PurgingHanded(items, live, done, filed, archive, eofPurgeTag, currentCycle, doTrackItemTags);
      }
    }

    /** Drops what is still live and packs the tracks. */
    method Finish()
      requires Valid() && !firstCycle
      modifies this`itemList, this`dropped, trHeap`itemIdxVectors
      ensures itemList == [] && dropped == old(itemList) && Loaded() && SameOwners(old(trHeap.State()), trHeap.State())
      ensures Closed(trHeap.State(), firstEffectiveCycle, currentCycle, dropped, archive)
    {
      hide Good, CacheAgrees, ItemBooks, MoveBooks, TracksOk, EdgeTracks, NodeTracks, TracksHold, RoundDone;
      ghost var T := trHeap.State();
      BooksTracks(T, itemList, archive, firstEffectiveCycle, currentCycle);
      ItemBooksClear(itHeap.Lay(), itemList, archive, firstEffectiveCycle, currentCycle,
                     itHeap.canonicalItemId, itHeap.compressMutable);
      BooksClosed(T, itemList, archive, firstEffectiveCycle, currentCycle);
      dropped := itemList;
      itemList := [];
      trHeap.CompressYourSelf(currentCycle, true);
      assert itemList + dropped == dropped;
    }

    /** The end of the trace: a last cycle; the items that are still live are committed if the
        configuration says so; what is left is dropped, and the tracks are packed. Everything that
        was committed can be looked up. When all items found room in the heap nothing was lost,
        and no move is pending any more. */
    method EndSimulation() returns (ghost gone: seq<AuxItemListNode>, ghost order: seq<AuxItemListNode>)
      requires if eoSimulation then Loaded() else Valid() && currentCycle < 0x7FFF_FFFF
      modifies this`eoSimulation, this`firstEffectiveCycle, this`lastProcessedEventOk, this`dcnt, this`lastUsedPosVector
      modifies this`currentCycle, this`firstCycle, this`itemList, this`archive, this`dropped
      modifies this`processingDralHeader
      modifies trHeap`itemIdxVectors, trHeap`firstEffectiveCycle
      modifies itHeap`lookUpCache, itHeap`itemVector, itHeap`tagVector, itHeap`nextTagVectorEntry
      modifies itHeap`nextItemVectorEntry, itHeap`chains, itHeap`owner, itHeap`rank, itHeap`firstEffectiveCycle
      ensures eoSimulation && Loaded() && SameOwners(old(trHeap.State()), trHeap.State())
      ensures old(eoSimulation) ==>
                && itemList == old(itemList) && archive == old(archive) && dropped == old(dropped)
                && trHeap.State() == old(trHeap.State()) && currentCycle == old(currentCycle)
      ensures !old(eoSimulation) ==>
                && itemList == [] && !firstCycle && old(archive) <= archive
                && currentCycle == old(currentCycle) + 1
                && firstEffectiveCycle == (if old(firstCycle) then currentCycle else old(firstEffectiveCycle))
                && Closed(trHeap.State(), firstEffectiveCycle, currentCycle, dropped, archive)
                && (var mid := WithAllDeleted(Books(old(itemList), old(archive)), gone);
                    && (if autoPurge then Permuted(Aux(mid.items), order) else order == [])
                    && Books(dropped, archive) == WithAllPurged(mid, order, eofPurgeTag, currentCycle, doTrackItemTags))
                && (!maxIFIEnabled ==> gone == []) && (!autoPurge && !maxIFIEnabled ==> archive == old(archive))
                && (autoPurge && |old(archive)| + |old(itemList)| <= MAX_ITEM_ENTRIES ==>
                      && dropped == []
                      && Purging(old(itemList), [], archive[|old(archive)|..], eofPurgeTag, currentCycle,
                                 doTrackItemTags))
    {
      hide ItemsValid, MovesValid, Loaded, Limited, Handed, Purging, Closed, SameOwners, WithAllPurged,
           WithAllDeleted, Permuted;
      gone, order := [], [];
      if eoSimulation {
        OwnersSame(trHeap.State());
        return;
      }
      ghost var items, done, T := itemList, archive, trHeap.State();
      LiveDistinct();
      eoSimulation := true;
      SignedSmall(currentCycle + 1);
      gone := Cycle(currentCycle + 1);
      ghost var U := trHeap.State();
      LimitHands(items, itemList, done, archive, Ids(gone), Limit());
      order := PurgeRest(items, done);
      ghost var V := trHeap.State();
      Finish();
      OwnersOn(T, U, V, trHeap.State());
    }

    // -------------------------------------------------------------- before the events

    /** What is in the counters before they are cleared is not known. */
    method NewCounters(n: nat) returns (v: seq<nat>)
      ensures |v| == n && forall i :: 0 <= i < n ==> v[i] < 256
    {
      v := seq(n, _ => 0);
    }

    /** Tracks the moves over an edge. This reports success even when there is no such edge. */
    method TrackMoveItem(edgeId: nat) returns (r: bool)
      requires Valid()
      requires edgeId in dbGraph.dbgeList && edgeId !in trHeap.edgeTrackTbl ==>
                 trHeap.nextTrackID + dbGraph.dbgeList[edgeId].bandwidth <= 0x4_0000
      modifies this`trackedEdges
      modifies trHeap`nextTrackID, trHeap`trackTypes, trHeap`itemIdxVectors, trHeap`edgeTrackTbl
      ensures Valid() && r && trackedEdges == old(trackedEdges) + [edgeId] && Grown(old(trHeap.State()), trHeap.State())
      ensures edgeId in trHeap.edgeTrackTbl <==> edgeId in dbGraph.dbgeList || edgeId in old(trHeap.edgeTrackTbl)
      ensures trHeap.State() == if edgeId in dbGraph.dbgeList && edgeId !in old(trHeap.edgeTrackTbl)
                                then WithEdge(old(trHeap.State()), edgeId) else old(trHeap.State())
    {
      hide ItemsValid, MoveBooks, TracksOk, EdgeTracks, NodeTracks, Grown, Untouched;
      ghost var T := trHeap.State();
      var _ := trHeap.TrackMoveItem(edgeId);
      if firstCycle {
        UntouchedGrown(T, trHeap.State());
      } else {
        BooksGrown(T, trHeap.State(), itemList, archive, firstEffectiveCycle, currentCycle);
      }
      trackedEdges := trackedEdges + [edgeId];
      r := true;
    }

    /** A new edge of the traced system; it is refused when its id is taken or an end is unknown. */
    method AddEdge(source: nat, destination: nat, edgeId: nat, bandwidth: nat, latency: nat, name: string)
      requires Valid() && dbGraph.Valid()
      modifies this`lastProcessedEventOk, dbGraph`dbgeList
      ensures Valid() && dbGraph.Valid() && Grown(old(trHeap.State()), trHeap.State())
      ensures lastProcessedEventOk
         <==> edgeId !in old(dbGraph.dbgeList) && source in dbGraph.dbgnList && destination in dbGraph.dbgnList
    {
      hide ItemsValid, MoveBooks, NodeTracks, Untouched, SameNodes, NamesDistinct, TracksOk, EdgeTracks, Grown;
      ghost var T := trHeap.State();
      lastProcessedEventOk := dbGraph.AddEdge(source, destination, edgeId, bandwidth, latency, name);
      EdgeKnown(T, trHeap.State());
      if firstCycle {
        UntouchedGrown(T, trHeap.State());
      } else {
        BooksGrown(T, trHeap.State(), itemList, archive, firstEffectiveCycle, currentCycle);
      }
    }

    /** Gives every tracked edge its own position counter, before any item is known. */
    method SetTrackedEdges()
      requires Valid() && itemList == [] && archive == []
      modifies this`lastUsedPosVector, this`lastUsedPosVectorIndirection
      ensures Valid() && lastUsedPosVector != []
      ensures forall e :: e in lastUsedPosVectorIndirection <==> e in trackedEdges
      ensures forall e :: e in trackedEdges ==> lastUsedPosVectorIndirection[e] < |lastUsedPosVector|
      ensures forall e, e' :: e in trackedEdges && e' in trackedEdges && e != e' ==>
                lastUsedPosVectorIndirection[e] != lastUsedPosVectorIndirection[e']
    {
      hide ItemsValid, Ledger, TracksOk, EdgeTracks, NodeTracks, Untouched;
      var value := |trackedEdges|;
      lastUsedPosVector := NewCounters(if value > 1 then value else 1);
      var slots: map<nat, nat> := map[];
      for i := 0 to value
        invariant forall e :: e in slots ==> slots[e] < i && trackedEdges[slots[e]] == e
        invariant forall k :: 0 <= k < i ==> trackedEdges[k] in slots
      {
        slots := slots[trackedEdges[i] := i];
      }
      lastUsedPosVectorIndirection := slots;
    }

    /** The first cycle begins for the tracks that have been set up: all counters start. */
    method PropagateFirstCycle()
      requires Valid() && itemList == [] && archive == []
      modifies this`lastUsedPosVector
      ensures Valid() && lastUsedPosVector == seq(|old(lastUsedPosVector)|, _ => 0)
    {
      hide ItemsValid, Ledger, TracksOk, EdgeTracks, NodeTracks, Untouched;
      lastUsedPosVector := seq(|lastUsedPosVector|, _ => 0);
    }

    // -------------------------------------------------------------- looking things up

    /** End to end: what the heap gives for a tag of a deleted item is what the events that set
        the tag say. A tag id that does not fit a slot is not found. Cycles before the first one are
        taken for cycles far behind the end. */
    method GetItemTag(h: ItemHandler, id: int, tagid: nat, cycle: int) returns (r: bool, value: int)
      requires ItemsValid() && !firstCycle && tagid != itHeap.canonicalItemId
      modifies h, itHeap`lookUpCache
      ensures ItemsValid()
      ensures var a := FindItem(archive, id);
              && (a == |archive| || tagid >= 0x1000 ==> !r)
              && (a < |archive| && Unshared(archive[a].tags, tagid)
                  && InWindow(archive[a].tags, tagid, firstEffectiveCycle)
                  && firstEffectiveCycle - 0x1_0000_0000 <= cycle < firstEffectiveCycle + 0x1_0000_0000 ==>
                    var q := if cycle < firstEffectiveCycle then cycle + 0x1_0000_0000 else cycle;
                    var e := Expected(archive[a].tags, tagid, q, itHeap.tagBackPropagate || itHeap.dralVersion < 2);
                    r == e.Some? && (r ==> value == e.value))
    {
      hide Good, CacheAgrees, EntriesIn, FirstItem, FindItem, Filed, ItemsOk, Distinct, Committed, LogOk;
      hide Expected, Answer, InWindow, Relative, Unshared;
      ghost var a, back := FindItem(archive, id), itHeap.tagBackPropagate || itHeap.dralVersion < 2;
      FiledFind(itHeap.Lay(), archive, id, firstEffectiveCycle, itHeap.compressMutable);
      CachedPosition(itHeap.lookUpCache, itHeap.Items(), id);
      var found := itHeap.LookForItemId(h, id);
      if !found {
        return false, 0;
      }
      var when;
      r, value, when := itHeap.GetTagById(h, tagid, cycle);
      FiledAt(itHeap.Lay(), archive, firstEffectiveCycle, itHeap.compressMutable, a);
      HeapAnswers(itHeap.EntriesOf(a), archive[a].tags, firstEffectiveCycle, itHeap.compressMutable, tagid, cycle,
                  back);
    }

    /** The item at a position of an edge in a cycle: the last to be deleted of those that made
        this move, or none when nobody did. */
    method GetMoveItem(h: ItemHandler, edgeId: nat, cycle: int, pos: nat)
      requires Loaded() && !firstCycle
      requires OnEdge(trHeap.State(), edgeId, pos) ==>
                 var gone := Moves(Movs(archive));
                 NoGap(gone, Moves(Movs(Unfiled())) + gone, firstEffectiveCycle, Move(cycle, edgeId, pos))
      modifies h
      ensures var i := LastMover(Movs(archive), Move(cycle, edgeId, pos));
              h.validItem == i.Some? && (h.validItem ==> h.itemIdx == i.value)
    {
      hide Good, EntriesIn, EdgeTracks, NodeTracks, Readable, ValueAt, TracksHold, NoGap, ItemBooks, LastMover;
      ghost var T, m, live, done := trHeap.State(), Move(cycle, edgeId, pos), Movs(Unfiled()), Movs(archive);
      FiledCount();
      if OnEdge(T, edgeId, pos) {
        ReadableExactly(T, firstEffectiveCycle, currentCycle, live, done, m);
        TracksAnswer(T, firstEffectiveCycle, currentCycle, live, done, m);
      } else {
        NobodyElsewhere(T, firstEffectiveCycle, currentCycle, live, done, m);
      }
      trHeap.GetMoveItem(h, itHeap, edgeId, cycle, pos);
    }

    /** The heap has the committed items, in order. */
    lemma FiledCount()
      requires ItemsValid()
      ensures itHeap.Shape() && |itHeap.chains| == |archive|
      ensures forall i :: 0 <= i < |archive| ==> itHeap.itemVector[i].itemId == archive[i].itemId
    {
      hide CacheAgrees, Distinct, ItemsOk, EntriesIn, ChainsOk, Owned, LogOk, Committed;
    }
  }
}
