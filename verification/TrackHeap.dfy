/** The track heap: gives out track ids to whatever is tracked, and keeps the vectors of the
    tracks of edges. */
module TrackHeaps {
  import opened TagHistory
  import opened TagVecs
  import opened TagIdVecs
  import opened DBGraphs
  import opened MoveLogs
  import opened MoveLedgers
  import opened ItemTagHeaps

  /** The dictionary of one kind of node event holds exactly the tracks of that kind. */
  ghost predicate NodeTracks(kinds: seq<TrackKind>, what: NodeEvent, names: map<string, nat>) {
    && (forall key :: key in names ==> names[key] < |kinds| && kinds[names[key]] == OfNode(what, key))
    && (forall t :: 0 <= t < |kinds| && kinds[t].OfNode? && kinds[t].what == what ==>
          kinds[t].node in names && names[kinds[t].node] == t)
  }

  /** The tracks of an edge are the ones from its first track on, one for each position. */
  ghost predicate EdgeTracks(kinds: seq<TrackKind>, base: map<nat, nat>, bandwidth: map<nat, nat>) {
    forall t :: 0 <= t < |kinds| && kinds[t].MoveItem? ==>
      var e := kinds[t].edge;
      e in base && e in bandwidth && base[e] <= t < base[e] + bandwidth[e]
  }

  ghost predicate EdgesOwn(T: Tracks) { EdgeTracks(T.kinds, T.base, T.bandwidth) }

  /** The tracks with one more. */
  function WithTrack(T: Tracks, kind: TrackKind): Tracks {
    T.(kinds := T.kinds + [kind], vecs := T.vecs + [Blank(false, false)])
  }

  lemma TrackAdded(T: Tracks, kind: TrackKind)
    requires TracksOk(T) && EdgesOwn(T) && !kind.MoveItem?
    ensures Grown(T, WithTrack(T, kind)) && EdgesOwn(WithTrack(T, kind))
  {
  }

  lemma NodeTracksOther(kinds: seq<TrackKind>, what: NodeEvent, names: map<string, nat>, more: seq<TrackKind>)
    requires NodeTracks(kinds, what, names)
    requires forall i :: 0 <= i < |more| ==> !(more[i].OfNode? && more[i].what == what)
    ensures NodeTracks(kinds + more, what, names)
  {
  }

  lemma NodeTracksAdded(kinds: seq<TrackKind>, what: NodeEvent, names: map<string, nat>, key: string)
    requires NodeTracks(kinds, what, names) && key !in names
    ensures NodeTracks(kinds + [OfNode(what, key)], what, names[key := |kinds|])
  {
  }

  /** The tracks once edge e is tracked. */
  function WithEdge(T: Tracks, e: nat): Tracks
    requires e in T.bandwidth
  {
    T.(base := T.base[e := |T.kinds|],
       kinds := T.kinds + seq(T.bandwidth[e], _ => MoveItem(e)),
       vecs := T.vecs + seq(T.bandwidth[e], _ => Blank(false, false)))
  }

  lemma EdgeAdded(T: Tracks, e: nat)
    requires TracksOk(T) && EdgesOwn(T) && e in T.bandwidth && e !in T.base
    ensures Grown(T, WithEdge(T, e)) && EdgesOwn(WithEdge(T, e))
  {
    var U, n := WithEdge(T, e), |T.kinds|;
    assert forall t :: n <= t < |U.kinds| ==> U.kinds[t] == MoveItem(e) && U.vecs[t] == Blank(false, false);
    assert forall t :: 0 <= t < n ==> U.kinds[t] == T.kinds[t] && U.vecs[t] == T.vecs[t];
  }

  predicate NoBraces(base: string) { '{' !in base && '}' !in base }

  /** A name as nodes are given it. */
  ghost predicate PlainName(name: string) {
    exists base, instance :: NoBraces(base) && name == NodeName(base, instance)
  }

  class TrackHeap {
    const dbgraph: DBGraph
    var nextTrackID: nat
    var firstEffectiveCycle: int
    var edgeTrackTbl: map<nat, nat>
    var trackedNodes: map<string, nat>
    var trackedEnterNodes: map<string, nat>
    var trackedExitNodes: map<string, nat>
    var cycleTagTrackID: int
    // the track id vector: what every track is for, and its vector of item indices
    var trackTypes: seq<TrackKind>
    var itemIdxVectors: seq<NodeState>

    ghost function Bandwidths(): map<nat, nat>
      reads dbgraph
    {
      map e | e in dbgraph.dbgeList :: dbgraph.dbgeList[e].bandwidth
    }

    ghost function State(): Tracks
      reads this, dbgraph
    {
      Tracks(Bandwidths(), edgeTrackTbl, trackTypes, itemIdxVectors)
    }

    /** Every track id below the next one has exactly one owner. */
    ghost predicate Owners()
      reads `nextTrackID, `trackTypes, `edgeTrackTbl, `trackedNodes, `trackedEnterNodes, `trackedExitNodes, dbgraph
    {
      && nextTrackID == |trackTypes| && EdgeTracks(trackTypes, edgeTrackTbl, Bandwidths())
      && NodeTracks(trackTypes, Tags, trackedNodes)
      && NodeTracks(trackTypes, Enter, trackedEnterNodes)
      && NodeTracks(trackTypes, Exit, trackedExitNodes)
      && (forall e :: e in edgeTrackTbl && e in dbgraph.dbgeList ==> dbgraph.dbgeList[e].bandwidth < 0x8000_0000)
    }

    ghost predicate Valid()
      reads this, dbgraph
    {
      Owners() && TracksOk(State())
    }

    constructor (graph: DBGraph)
      ensures Valid() && dbgraph == graph && nextTrackID == 0 && edgeTrackTbl == map[]
      ensures firstEffectiveCycle == -9999999 && cycleTagTrackID == -1
    {
      dbgraph := graph;
      nextTrackID, cycleTagTrackID, firstEffectiveCycle := 0, -1, -9999999;
      trackedNodes, trackedEnterNodes, trackedExitNodes, edgeTrackTbl := map[], map[], map[], map[];
      trackTypes, itemIdxVectors := [], [];
    }

    /** Forgets all tracks; the track of the cycle tags is still remembered. */
    method Reset()
      modifies this
      ensures Valid() && nextTrackID == 0 && edgeTrackTbl == map[] && firstEffectiveCycle == -9999999
      ensures cycleTagTrackID == old(cycleTagTrackID)
    {
      hide TracksOk, EdgeTracks, NodeTracks;
      NoTracks(Bandwidths());
      nextTrackID, firstEffectiveCycle := 0, -9999999;
      trackedNodes, trackedEnterNodes, trackedExitNodes, edgeTrackTbl := map[], map[], map[], map[];
      trackTypes, itemIdxVectors := [], [];
    }

    // -------------------------------------------------------------- giving out track ids

    /** The key of a slot of a node, if the node is known. */
    function KeyOf(nodeId: nat, slots: seq<nat>): Option<string>
      reads dbgraph
    {
      if nodeId in dbgraph.dbgnList then Some(SlotKey(dbgraph.dbgnList[nodeId].name, slots)) else None
    }

    /** The slot of the node is tracked, by one of the three dictionaries of nodes. */
    predicate IsTracked(names: map<string, nat>, nodeId: nat, slots: seq<nat>)
      reads dbgraph
    {
      var key := KeyOf(nodeId, slots);
      key.Some? && key.value in names
    }

    /** The node is known by a name without braces and an instance. */
    ghost predicate PlainNode(nodeId: nat)
      reads dbgraph
    {
      nodeId in dbgraph.dbgnList && PlainName(dbgraph.dbgnList[nodeId].name)
    }

    /** Slots have the same key exactly when node and slot list are the same. */
    lemma KeysApart(n: nat, s: seq<nat>, n': nat, s': seq<nat>)
      requires dbgraph.Valid() && PlainNode(n) && PlainNode(n')
      ensures KeyOf(n, s).Some? && KeyOf(n', s').Some?
      ensures KeyOf(n, s) == KeyOf(n', s') <==> n == n' && s == s'
    {
      var name, name' := dbgraph.dbgnList[n].name, dbgraph.dbgnList[n'].name;
      var base, i :| NoBraces(base) && name == NodeName(base, i);
      var base', i' :| NoBraces(base') && name' == NodeName(base', i');
      hide SlotKey, NodeName;
      KeysInjective(base, i, s, base', i', s');
    }

    /** This slot is tracked now, and of all others the same ones as before. */
    ghost predicate JustTracked(names: map<string, nat>, names': map<string, nat>, nodeId: nat, slots: seq<nat>)
      reads dbgraph
    {
      forall n: nat, s: seq<nat> :: PlainNode(n) ==>
        (IsTracked(names', n, s) <==> IsTracked(names, n, s) || (n == nodeId && s == slots))
    }

    /** Putting one slot under its key makes that slot tracked and no other. */
    lemma OneMoreTracked(names: map<string, nat>, nodeId: nat, slots: seq<nat>, id: nat)
      requires dbgraph.Valid() && PlainNode(nodeId)
      ensures KeyOf(nodeId, slots).Some?
      ensures JustTracked(names, names[KeyOf(nodeId, slots).value := id], nodeId, slots)
      ensures IsTracked(names, nodeId, slots) ==> JustTracked(names, names, nodeId, slots)
    {
      hide KeyOf, PlainNode, IsTracked;
      KeysApart(nodeId, slots, nodeId, slots);
      var names' := names[KeyOf(nodeId, slots).value := id];
      forall n: nat, s: seq<nat> | PlainNode(n)
        ensures IsTracked(names', n, s) <==> IsTracked(names, n, s) || (n == nodeId && s == slots)
      {
        OneTracked(names, nodeId, slots, id, n, s);
      }
    }

    lemma OneTracked(names: map<string, nat>, nodeId: nat, slots: seq<nat>, id: nat, n: nat, s: seq<nat>)
      requires dbgraph.Valid() && PlainNode(nodeId) && PlainNode(n)
      ensures KeyOf(nodeId, slots).Some?
      ensures IsTracked(names[KeyOf(nodeId, slots).value := id], n, s)
              <==> IsTracked(names, n, s) || (n == nodeId && s == slots)
    {
      hide KeyOf, PlainNode;
      KeysApart(nodeId, slots, n, s);
    }

    /** Takes the next track id. */
    method AllocateTrack(kind: TrackKind) returns (id: nat)
      requires Valid() && !kind.MoveItem? && nextTrackID < 0x4_0000
      modifies `nextTrackID, `trackTypes, `itemIdxVectors
      ensures id == old(nextTrackID) && nextTrackID == id + 1
      ensures State() == WithTrack(old(State()), kind)
      ensures Grown(old(State()), State()) && EdgesOwn(State())
    {
      TrackAdded(State(), kind);
      id := nextTrackID;
      nextTrackID := nextTrackID + 1;
      trackTypes := trackTypes + [kind];
      itemIdxVectors := itemIdxVectors + [Blank(false, false)];
    }

    /** Tracks the tags of a slot of a node; a slot that is tracked already keeps its track. */
    method TrackNodeTags(nodeId: nat, slots: seq<nat>) returns (r: int)
      requires Valid() && nextTrackID < 0x4_0000
      modifies `nextTrackID, `trackTypes, `itemIdxVectors, `trackedNodes
      ensures Valid() && Grown(old(State()), State())
      ensures match KeyOf(nodeId, slots)
              case None => r == -1 && trackedNodes == old(trackedNodes) && State() == old(State())
              case Some(key) =>
                && key in trackedNodes && r == trackedNodes[key]
                && if key in old(trackedNodes) then trackedNodes == old(trackedNodes) && State() == old(State())
                   else && trackedNodes == old(trackedNodes)[key := old(nextTrackID)]
                        && State() == WithTrack(old(State()), OfNode(Tags, key))
      ensures dbgraph.Valid() && PlainNode(nodeId) ==>
                && (!old(IsTracked(trackedNodes, nodeId, slots)) ==> r == old(nextTrackID))
                && nextTrackID == old(nextTrackID) + (if old(IsTracked(trackedNodes, nodeId, slots)) then 0 else 1)
                && JustTracked(old(trackedNodes), trackedNodes, nodeId, slots)
    {
      hide TracksOk, EdgeTracks, NodeTracks, SlotKey, KeyOf, PlainNode, JustTracked;
      ghost var was := trackedNodes;
      if dbgraph.Valid() && PlainNode(nodeId) {
        OneMoreTracked(was, nodeId, slots, nextTrackID);
      }
      var name := KeyOf(nodeId, slots);
      GrownSame(State());
      if name == None {
        return -1;
      }
      var key := name.value;
      if key in trackedNodes {
        return trackedNodes[key];
      }
      NodeTracksAdded(trackTypes, Tags, trackedNodes, key);
      NodeTracksOther(trackTypes, Enter, trackedEnterNodes, [OfNode(Tags, key)]);
      NodeTracksOther(trackTypes, Exit, trackedExitNodes, [OfNode(Tags, key)]);
      var id := AllocateTrack(OfNode(Tags, key));
      trackedNodes := trackedNodes[key := id];
      r := id;
    }

    /** Tracks the items that enter a slot of a node, once. */
    method TrackEnterNode(nodeId: nat, slots: seq<nat>) returns (r: int)
      requires Valid() && nextTrackID < 0x4_0000
      modifies `nextTrackID, `trackTypes, `itemIdxVectors, `trackedEnterNodes
      ensures Valid() && Grown(old(State()), State())
      ensures var name := KeyOf(nodeId, slots);
              if name == None || name.value in old(trackedEnterNodes)
              then r == -1 && trackedEnterNodes == old(trackedEnterNodes) && State() == old(State())
              else && r == old(nextTrackID) && trackedEnterNodes == old(trackedEnterNodes)[name.value := r]
                   && State() == WithTrack(old(State()), OfNode(Enter, name.value))
      ensures dbgraph.Valid() && PlainNode(nodeId) ==>
                && r == (if old(IsTracked(trackedEnterNodes, nodeId, slots)) then -1 else old(nextTrackID))
                && nextTrackID == old(nextTrackID) + (if old(IsTracked(trackedEnterNodes, nodeId, slots)) then 0 else 1)
                && JustTracked(old(trackedEnterNodes), trackedEnterNodes, nodeId, slots)
    {
      hide TracksOk, EdgeTracks, NodeTracks, SlotKey, KeyOf, PlainNode, JustTracked;
      ghost var was := trackedEnterNodes;
      if dbgraph.Valid() && PlainNode(nodeId) {
        OneMoreTracked(was, nodeId, slots, nextTrackID);
      }
      var name := KeyOf(nodeId, slots);
      GrownSame(State());
      if name == None || name.value in trackedEnterNodes {
        return -1;
      }
      var key := name.value;
      NodeTracksAdded(trackTypes, Enter, trackedEnterNodes, key);
      NodeTracksOther(trackTypes, Tags, trackedNodes, [OfNode(Enter, key)]);
      NodeTracksOther(trackTypes, Exit, trackedExitNodes, [OfNode(Enter, key)]);
      var id := AllocateTrack(OfNode(Enter, key));
      trackedEnterNodes := trackedEnterNodes[key := id];
      r := id;
    }

    /** Tracks the items that leave a slot of a node, once. */
    method TrackExitNode(nodeId: nat, slots: seq<nat>) returns (r: int)
      requires Valid() && nextTrackID < 0x4_0000
      modifies `nextTrackID, `trackTypes, `itemIdxVectors, `trackedExitNodes
      ensures Valid() && Grown(old(State()), State())
      ensures var name := KeyOf(nodeId, slots);
              if name == None || name.value in old(trackedExitNodes)
              then r == -1 && trackedExitNodes == old(trackedExitNodes) && State() == old(State())
              else && r == old(nextTrackID) && trackedExitNodes == old(trackedExitNodes)[name.value := r]
                   && State() == WithTrack(old(State()), OfNode(Exit, name.value))
      ensures dbgraph.Valid() && PlainNode(nodeId) ==>
                && r == (if old(IsTracked(trackedExitNodes, nodeId, slots)) then -1 else old(nextTrackID))
                && nextTrackID == old(nextTrackID) + (if old(IsTracked(trackedExitNodes, nodeId, slots)) then 0 else 1)
                && JustTracked(old(trackedExitNodes), trackedExitNodes, nodeId, slots)
    {
      hide TracksOk, EdgeTracks, NodeTracks, SlotKey, KeyOf, PlainNode, JustTracked;
      ghost var was := trackedExitNodes;
      if dbgraph.Valid() && PlainNode(nodeId) {
        OneMoreTracked(was, nodeId, slots, nextTrackID);
      }
      var name := KeyOf(nodeId, slots);
      GrownSame(State());
      if name == None || name.value in trackedExitNodes {
        return -1;
      }
      var key := name.value;
      NodeTracksAdded(trackTypes, Exit, trackedExitNodes, key);
      NodeTracksOther(trackTypes, Tags, trackedNodes, [OfNode(Exit, key)]);
      NodeTracksOther(trackTypes, Enter, trackedEnterNodes, [OfNode(Exit, key)]);
      var id := AllocateTrack(OfNode(Exit, key));
      trackedExitNodes := trackedExitNodes[key := id];
      r := id;
    }

    /** Two slots get tracks of their own exactly when they are different slots of a node or slots of
        different nodes. */
    method TrackTwoSlots(n: nat, s: seq<nat>, n': nat, s': seq<nat>) returns (t: int, t': int, e: int, e': int)
      requires Valid() && dbgraph.Valid() && PlainNode(n) && PlainNode(n') && nextTrackID + 4 <= 0x4_0000
      requires !IsTracked(trackedNodes, n, s) && !IsTracked(trackedNodes, n', s')
      requires !IsTracked(trackedEnterNodes, n, s) && !IsTracked(trackedEnterNodes, n', s')
      modifies `nextTrackID, `trackTypes, `itemIdxVectors, `trackedNodes, `trackedEnterNodes
      ensures Valid()
      ensures t == old(nextTrackID) && t' == if n == n' && s == s' then t else t + 1
      ensures e == t' + 1 && e' == if n == n' && s == s' then -1 else e + 1
    {
      hide Owners, KeyOf, PlainNode, IsTracked, TracksOk, WithTrack, Grown;
      t := TrackNodeTags(n, s);
      t' := TrackNodeTags(n', s');
      e := TrackEnterNode(n, s);
      e' := TrackEnterNode(n', s');
    }

    /** Tracks the cycle tags; every call takes a new track. */
    method TrackCycleTags() returns (r: nat)
      requires Valid() && nextTrackID < 0x4_0000
      modifies `nextTrackID, `trackTypes, `itemIdxVectors, `cycleTagTrackID
      ensures Valid() && Grown(old(State()), State())
      ensures r == old(nextTrackID) == cycleTagTrackID && State() == WithTrack(old(State()), CycleTag)
    {
      hide TracksOk, EdgeTracks, NodeTracks;
      NodeTracksOther(trackTypes, Tags, trackedNodes, [CycleTag]);
      NodeTracksOther(trackTypes, Enter, trackedEnterNodes, [CycleTag]);
      NodeTracksOther(trackTypes, Exit, trackedExitNodes, [CycleTag]);
      r := AllocateTrack(CycleTag);
      cycleTagTrackID := r;
    }

    /** Gives an edge one track for each position, unless it has them. */
    method TrackMoveItem(edgeId: nat) returns (r: bool)
      requires Valid()
      requires edgeId in dbgraph.dbgeList && edgeId !in edgeTrackTbl ==>
                 nextTrackID + dbgraph.dbgeList[edgeId].bandwidth <= 0x4_0000
      modifies `nextTrackID, `trackTypes, `itemIdxVectors, `edgeTrackTbl
      ensures Valid() && Grown(old(State()), State())
      ensures r <==> edgeId in dbgraph.dbgeList
      ensures State() == if r && edgeId !in old(edgeTrackTbl) then WithEdge(old(State()), edgeId) else old(State())
    {
      hide TracksOk, EdgeTracks, NodeTracks;
      GrownSame(State());
      if edgeId !in dbgraph.dbgeList {
        return false;
      }
      if edgeId in edgeTrackTbl {
        return true;
      }
      ghost var T := State();
      EdgeAdded(T, edgeId);
      var bandwidth := dbgraph.dbgeList[edgeId].bandwidth;
      edgeTrackTbl := edgeTrackTbl[edgeId := nextTrackID];
      for i := 0 to bandwidth
        invariant nextTrackID == |T.kinds| && edgeTrackTbl == T.base[edgeId := nextTrackID]
        invariant trackTypes == T.kinds + seq(i, _ => MoveItem(edgeId))
        invariant itemIdxVectors == T.vecs + seq(i, _ => Blank(false, false))
      {
        trackTypes := trackTypes + [MoveItem(edgeId)];
        itemIdxVectors := itemIdxVectors + [Blank(false, false)];
      }
      nextTrackID := nextTrackID + bandwidth;
      var more := seq(bandwidth, _ => MoveItem(edgeId));
      NodeTracksOther(T.kinds, Tags, trackedNodes, more);
      NodeTracksOther(T.kinds, Enter, trackedEnterNodes, more);
      NodeTracksOther(T.kinds, Exit, trackedExitNodes, more);
      r := true;
    }

    // -------------------------------------------------------------- moves

    /** One more move is pending in its chunk of a track; no value changes. */
    method IncPendingCnt(trackId: nat, cycle: int)
      requires trackId < |itemIdxVectors|
      requires firstEffectiveCycle <= cycle < firstEffectiveCycle + 0x10_0000
      modifies `itemIdxVectors
      ensures itemIdxVectors
           == old(itemIdxVectors)[trackId := IncPending(old(itemIdxVectors)[trackId], cycle - firstEffectiveCycle)]
      ensures Plain(old(itemIdxVectors)[trackId]) ==>
                && (forall k: nat :: PendingAt(itemIdxVectors[trackId], k)
                      == PendingAt(old(itemIdxVectors)[trackId], k)
                         + (if k == ChunkOf(cycle - firstEffectiveCycle) then 1 else 0))
                && (forall d: int :: Slot(itemIdxVectors[trackId], d) == Slot(old(itemIdxVectors)[trackId], d))
    {
      if Plain(itemIdxVectors[trackId]) {
      }
      itemIdxVectors := itemIdxVectors[trackId := IncPending(itemIdxVectors[trackId], cycle - firstEffectiveCycle)];
    }

    /** One move less is pending in its chunk of a track; no value changes. */
    method DecPendingCnt(trackId: nat, cycle: int)
      requires trackId < |itemIdxVectors|
      requires firstEffectiveCycle <= cycle < firstEffectiveCycle + 0x10_0000
      modifies `itemIdxVectors
      ensures itemIdxVectors
           == old(itemIdxVectors)[trackId := DecPending(old(itemIdxVectors)[trackId], cycle - firstEffectiveCycle)]
      ensures Plain(old(itemIdxVectors)[trackId]) ==>
                && (forall k: nat :: PendingAt(itemIdxVectors[trackId], k)
                      == PendingAt(old(itemIdxVectors)[trackId], k)
                         - (if k == ChunkOf(cycle - firstEffectiveCycle) then 1 else 0))
                && (forall d: int :: Slot(itemIdxVectors[trackId], d) == Slot(old(itemIdxVectors)[trackId], d))
    {
      if Plain(itemIdxVectors[trackId]) {
      }
      itemIdxVectors := itemIdxVectors[trackId := DecPending(itemIdxVectors[trackId], cycle - firstEffectiveCycle)];
    }

    /** Records a move on its track; moves on unknown or untracked edges, and moves beyond the
        bandwidth, are refused. */
    method AddMoveItem(edgeId: nat, itemIdx: nat, cycle: int, pos: nat) returns (r: bool)
      requires Valid() && firstEffectiveCycle <= cycle
      requires OnEdge(State(), edgeId, pos) ==> cycle < firstEffectiveCycle + 0x10_0000
      modifies `itemIdxVectors
      ensures var m := Move(cycle, edgeId, pos);
              && (!Known(State(), m, firstEffectiveCycle) ==> !r && itemIdxVectors == old(itemIdxVectors))
              && (Known(State(), m, firstEffectiveCycle) ==>
                    && TrackOf(State(), m) < |old(itemIdxVectors)|
                    && var a := Added(old(itemIdxVectors)[TrackOf(State(), m)], cycle - firstEffectiveCycle, itemIdx);
                    && r == a.1 && itemIdxVectors == old(itemIdxVectors)[TrackOf(State(), m) := a.0])
    {
      hide EdgeTracks, NodeTracks;
      if edgeId !in dbgraph.dbgeList || pos >= dbgraph.dbgeList[edgeId].bandwidth || edgeId !in edgeTrackTbl {
        return false;
      }
      TracksDistinct(State(), Move(cycle, edgeId, pos), Move(cycle, edgeId, pos));
      var trackId := edgeTrackTbl[edgeId] + pos;
      var (n, ok) := Added(itemIdxVectors[trackId], cycle - firstEffectiveCycle, itemIdx);
      itemIdxVectors := itemIdxVectors[trackId := n];
      r := ok;
    }

    /** The item that was at a position of an edge in a cycle. The lookup must not follow a null
        pointer into the table of chunks. */
    method GetMoveItem(h: ItemHandler, heap: ItemTagHeap, edgeId: nat, cycle: int, pos: nat)
      requires Valid() && heap.Shape()
      requires var m := Move(cycle, edgeId, pos);
               OnEdge(State(), edgeId, pos) && TrackOf(State(), m) < |itemIdxVectors| ==>
                 && Readable(itemIdxVectors[TrackOf(State(), m)], cycle - firstEffectiveCycle)
                 && var v := ValueAt(itemIdxVectors[TrackOf(State(), m)], cycle - firstEffectiveCycle);
                    v.Some? ==> v.value < |heap.chains|
      modifies h
      ensures var m := Move(cycle, edgeId, pos);
              if OnEdge(State(), edgeId, pos) then
                && TrackOf(State(), m) < |itemIdxVectors|
                && var v := ValueAt(itemIdxVectors[TrackOf(State(), m)], cycle - firstEffectiveCycle);
                && h.validItem == v.Some?
                && (v.Some? ==> h.itemIdx == v.value && heap.Cursor(h) && heap.Pos(h) == -1)
              else !h.validItem
    {
      hide EdgeTracks, NodeTracks, WalkOk, Walk;
      if edgeId !in dbgraph.dbgeList || pos >= dbgraph.dbgeList[edgeId].bandwidth || edgeId !in edgeTrackTbl {
        h.Invalid();
        return;
      }
      TracksDistinct(State(), Move(cycle, edgeId, pos), Move(cycle, edgeId, pos));
      var v := ValueAt(itemIdxVectors[edgeTrackTbl[edgeId] + pos], cycle - firstEffectiveCycle);
      if v == None {
        h.Invalid();
        return;
      }
      h.itemIdx := v.value;
      h.validItem := true;
      heap.ResetTagState(h);
    }

    /** Compresses the vectors of all tracks. */
    method CompressYourSelf(cycle: int, last: bool)
      requires Valid() && firstEffectiveCycle <= cycle
      modifies `itemIdxVectors
      ensures State() == RoundDone(old(State()), cycle - firstEffectiveCycle, last)
    {
      hide TracksOk, EdgeTracks, NodeTracks, Compressed;
      ghost var T, vecs := State(), itemIdxVectors;
      TracksCount(T);
      for i := 0 to nextTrackID
        invariant |itemIdxVectors| == |vecs|
        invariant forall t :: 0 <= t < |vecs| ==>
                    itemIdxVectors[t] == if t < i
                                         then Compressed(vecs[t], cycle - firstEffectiveCycle, last) else vecs[t]
      {
        itemIdxVectors := itemIdxVectors[i := Compressed(itemIdxVectors[i], cycle - firstEffectiveCycle, last)];
      }
      assert itemIdxVectors == RoundDone(T, cycle - firstEffectiveCycle, last).vecs;
    }
  }

  lemma NoTracks(bandwidth: map<nat, nat>)
    ensures TracksOk(Tracks(bandwidth, map[], [], [])) && EdgeTracks([], map[], bandwidth)
    ensures forall what :: NodeTracks([], what, map[])
  {
  }

  lemma TracksCount(T: Tracks)
    requires TracksOk(T)
    ensures |T.kinds| == |T.vecs|
  {
  }

  lemma GrownSame(T: Tracks)
    requires TracksOk(T)
    ensures Grown(T, T)
  {
  }

  /** Slots of nodes share a track only if they are the same slot, tracked for the same events. */
  lemma SlotsApart(kinds: seq<TrackKind>, what: NodeEvent, names: map<string, nat>, base: string, instance: nat,
                   slots: seq<nat>,
                   what': NodeEvent, names': map<string, nat>, base': string, instance': nat, slots': seq<nat>)
    requires NodeTracks(kinds, what, names) && NodeTracks(kinds, what', names') && (what == what' ==> names == names')
    requires '{' !in base && '}' !in base && '{' !in base' && '}' !in base'
    requires SlotKey(NodeName(base, instance), slots) in names && SlotKey(NodeName(base', instance'), slots') in names'
    ensures names[SlotKey(NodeName(base, instance), slots)] == names'[SlotKey(NodeName(base', instance'), slots')]
       <==> what == what' && base == base' && instance == instance' && slots == slots'
  {
    hide SlotKey, NodeName;
    var key, key' := SlotKey(NodeName(base, instance), slots), SlotKey(NodeName(base', instance'), slots');
    if names[key] == names'[key'] {
      assert key == key';
      KeysInjective(base, instance, slots, base', instance', slots');
    }
  }
}
