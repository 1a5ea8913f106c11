/** Moves of items over edges. Every edge owns a run of tracks, one for each position; a
    move is logged with its item until the item is deleted, and is then recorded on its
    track. A chunk of a track counts the logged moves of its cycles: while there are any,
    the chunk must not be packed, because a packed chunk takes no more values. */
module MoveLogs {
  import opened TagHistory
  import opened TagVecs
  import opened TagIdVecs

  datatype Move = Move(cycle: int, edgeid: nat, pos: nat)

  /** What happens at a node and can be tracked. */
  datatype NodeEvent = Tags | Enter | Exit

  datatype TrackKind = MoveItem(edge: nat) | OfNode(what: NodeEvent, node: string) | CycleTag

  /** The bandwidth of every edge, the first track of every tracked edge, and what every
      track is for, with its vector of item indices. */
  datatype Tracks = Tracks(bandwidth: map<nat, nat>, base: map<nat, nat>, kinds: seq<TrackKind>, vecs: seq<NodeState>)

  /** Vectors of item indices are plain: exact lookups, no dictionary. */
  ghost predicate Plain(n: NodeState) {
    !n.fwd && !n.dictionary && 0 <= n.first && forall k :: k in n.chunks ==> n.chunks[k].Items?
  }

  ghost predicate TracksOk(T: Tracks) {
    && |T.kinds| == |T.vecs|
    && (forall t :: 0 <= t < |T.vecs| ==> Plain(T.vecs[t]))
    && (forall e :: e in T.base ==> e in T.bandwidth && T.base[e] + T.bandwidth[e] <= |T.kinds|)
    && (forall e, t :: e in T.base && T.base[e] <= t < T.base[e] + T.bandwidth[e] ==> T.kinds[t] == MoveItem(e))
  }

  /** The edge is tracked and has this position. */
  predicate OnEdge(T: Tracks, edge: nat, pos: nat) {
    edge in T.base && edge in T.bandwidth && pos < T.bandwidth[edge]
  }

  /** The move is on a tracked edge, within its bandwidth and in a cycle that vectors have room for. */
  predicate Known(T: Tracks, m: Move, first: int) {
    OnEdge(T, m.edgeid, m.pos) && first <= m.cycle < first + 0x10_0000
  }

  function TrackOf(T: Tracks, m: Move): nat
    requires m.edgeid in T.base
  {
    T.base[m.edgeid] + m.pos
  }

  /** Different positions of edges are different tracks. */
  lemma TracksDistinct(T: Tracks, m: Move, m': Move)
    requires TracksOk(T) && OnEdge(T, m.edgeid, m.pos) && OnEdge(T, m'.edgeid, m'.pos)
    ensures TrackOf(T, m) < |T.vecs|
    ensures TrackOf(T, m) == TrackOf(T, m') <==> m.edgeid == m'.edgeid && m.pos == m'.pos
  {
    assert T.kinds[TrackOf(T, m)] == MoveItem(m.edgeid);
    assert T.kinds[TrackOf(T, m')] == MoveItem(m'.edgeid);
  }

  // ---------------------------------------------------------------- steps on tracks

  /** The tracks belong to the same edges and nodes. */
  predicate SameOwners(T: Tracks, U: Tracks) {
    U.bandwidth == T.bandwidth && U.base == T.base && U.kinds == T.kinds && |U.vecs| == |T.vecs|
  }

  function WithVec(T: Tracks, t: nat, n: NodeState): Tracks
    requires t < |T.vecs|
  {
    T.(vecs := T.vecs[t := n])
  }

  /** One more logged move. */
  function MoveLogged(T: Tracks, m: Move, first: int): (U: Tracks)
    requires TracksOk(T) && Known(T, m, first)
    ensures SameOwners(T, U)
  {
    TracksDistinct(T, m, m);
    WithVec(T, TrackOf(T, m), IncPending(T.vecs[TrackOf(T, m)], m.cycle - first))
  }

  /** A move is recorded for item i; when that succeeds it is no longer pending. */
  function MoveRecorded(T: Tracks, m: Move, first: int, i: nat): (r: (Tracks, bool))
    requires TracksOk(T) && Known(T, m, first)
    ensures SameOwners(T, r.0)
  {
    TracksDistinct(T, m, m);
    var t, c := TrackOf(T, m), m.cycle - first;
    var (n, ok) := Added(T.vecs[t], c, i);
    (WithVec(T, t, if ok then DecPending(n, c) else n), ok)
  }

  /** A compression round over all tracks. */
  function RoundDone(T: Tracks, cycle: nat, last: bool): (U: Tracks)
    ensures SameOwners(T, U)
  {
    T.(vecs := seq(|T.vecs|, t requires 0 <= t < |T.vecs| => Compressed(T.vecs[t], cycle, last)))
  }

  // ---------------------------------------------------------------- counting logged moves

  /** The move belongs on track t in chunk k. */
  predicate InChunk(T: Tracks, first: int, m: Move, t: nat, k: nat) {
    m.edgeid in T.base && TrackOf(T, m) == t && first <= m.cycle && ChunkOf(m.cycle - first) == k
  }

  function Hit(T: Tracks, first: int, m: Move, t: nat, k: nat): nat {
    if InChunk(T, first, m, t, k) then 1 else 0
  }

  function Hits(T: Tracks, first: int, log: seq<Move>, t: nat, k: nat): nat {
    if log == [] then 0 else Hits(T, first, log[..|log|-1], t, k) + Hit(T, first, log[|log|-1], t, k)
  }

  /** The logged moves of all items on track t in chunk k. */
  function Total(T: Tracks, first: int, logs: seq<seq<Move>>, t: nat, k: nat): nat {
    if logs == [] then 0 else Total(T, first, logs[..|logs|-1], t, k) + Hits(T, first, logs[|logs|-1], t, k)
  }

  function PendingAt(n: NodeState, k: nat): int {
    if k in n.chunks && n.chunks[k].Items? then n.chunks[k].pending else 0
  }

  /** Conservation: every pending counter equals the number of matching logged moves. */
  ghost predicate Conserved(T: Tracks, first: int, logs: seq<seq<Move>>) {
    forall t, k :: 0 <= t < |T.vecs| && 0 <= k ==> PendingAt(T.vecs[t], k) == Total(T, first, logs, t, k)
  }

  /** Chunks with pending moves are write enabled and not packed, and those that are not packed are
      write enabled only then; packed chunks lie behind. */
  ghost predicate Writable(T: Tracks, first: int, now: int) {
    forall t, k :: 0 <= t < |T.vecs| && k in T.vecs[t].chunks && T.vecs[t].chunks[k].Items? ==>
      var ch := T.vecs[t].chunks[k];
      && (ch.pending != 0 ==> ch.we && !ch.dense) && (ch.we && !ch.dense ==> ch.pending != 0)
      && (ch.dense ==> (k + 1) * CYCLE_CHUNK_SIZE < now - first)
  }

  /** The value in the slot of cycle c. */
  function Slot(n: NodeState, c: int): Option<nat> {
    if 0 <= c && ChunkOf(c) in n.chunks then ChunkAt(n.chunks[ChunkOf(c)], c) else None
  }

  ghost predicate AllKnown(T: Tracks, first: int, now: int, logs: seq<seq<Move>>) {
    forall a, i :: 0 <= a < |logs| && 0 <= i < |logs[a]| ==> Known(T, logs[a][i], first) && logs[a][i].cycle <= now
  }

  // ---------------------------------------------------------------- sums

  lemma {:induction false} TotalReplaced(T: Tracks, first: int, logs: seq<seq<Move>>, a: nat, x: seq<Move>, t: nat,
                                         k: nat)
    requires a < |logs|
    ensures Total(T, first, logs[a := x], t, k)
         == Total(T, first, logs, t, k) - Hits(T, first, logs[a], t, k) + Hits(T, first, x, t, k)
  {
    var r := logs[a := x];
    if a < |logs| - 1 {
      TotalReplaced(T, first, logs[..|logs|-1], a, x, t, k);
      assert r[..|r|-1] == logs[..|logs|-1][a := x];
    } else {
      assert r[..|r|-1] == logs[..|logs|-1];
    }
  }

  lemma {:induction false} TotalRemoved(T: Tracks, first: int, logs: seq<seq<Move>>, a: nat, t: nat, k: nat)
    requires a < |logs|
    ensures Total(T, first, logs[..a] + logs[a+1..], t, k)
         == Total(T, first, logs, t, k) - Hits(T, first, logs[a], t, k)
  {
    var r := logs[..a] + logs[a+1..];
    if a < |logs| - 1 {
      var g := logs[..|logs|-1];
      TotalRemoved(T, first, g, a, t, k);
      assert r[..|r|-1] == g[..a] + g[a+1..];
    } else {
      assert r == logs[..|logs|-1];
    }
  }

  /** Totals depend only on which tracks the edges own. */
  lemma {:induction false} TotalSame(T: Tracks, U: Tracks, first: int, logs: seq<seq<Move>>, t: nat, k: nat)
    requires U.base == T.base
    ensures Total(U, first, logs, t, k) == Total(T, first, logs, t, k)
  {
    if logs != [] {
      TotalSame(T, U, first, logs[..|logs|-1], t, k);
      HitsSame(T, U, first, logs[|logs|-1], t, k);
    }
  }

  lemma {:induction false} HitsSame(T: Tracks, U: Tracks, first: int, log: seq<Move>, t: nat, k: nat)
    requires U.base == T.base
    ensures Hits(U, first, log, t, k) == Hits(T, first, log, t, k)
  {
    if log != [] {
      HitsSame(T, U, first, log[..|log|-1], t, k);
    }
  }

  lemma HitsOne(T: Tracks, first: int, log: seq<Move>, m: Move, t: nat, k: nat)
    ensures Hits(T, first, log + [m], t, k) == Hits(T, first, log, t, k) + Hit(T, first, m, t, k)
  {
    assert (log + [m])[..|log|] == log;
  }

  // ---------------------------------------------------------------- logging a move

  lemma IncKeeps(n: NodeState, c: nat, k: nat)
    requires Plain(n)
    ensures var m := IncPending(n, c);
            && Plain(m) && PendingAt(m, k) == PendingAt(n, k) + (if k == ChunkOf(c) then 1 else 0)
            && m.first == n.first && m.last == n.last && (k in m.chunks <==> k in n.chunks || k == ChunkOf(c))
  {
  }

  lemma IncSlot(n: NodeState, c: nat, d: int)
    requires Plain(n)
    ensures Slot(IncPending(n, c), d) == Slot(n, d)
  {
  }

  /** Logging a move keeps the counters right, wherever the item is. */
  lemma LoggedConserved(T: Tracks, first: int, logs: seq<seq<Move>>, a: nat, m: Move)
    requires TracksOk(T) && Known(T, m, first) && Conserved(T, first, logs) && a < |logs|
    ensures TracksOk(MoveLogged(T, m, first))
    ensures Conserved(MoveLogged(T, m, first), first, logs[a := logs[a] + [m]])
  {
    hide IncPending, Total, Hits;
    var U, x := MoveLogged(T, m, first), logs[a] + [m];
    TracksDistinct(T, m, m);
    IncKeeps(T.vecs[TrackOf(T, m)], m.cycle - first, 0);
    forall t, k | 0 <= t < |T.vecs| && 0 <= k
      ensures PendingAt(U.vecs[t], k) == Total(U, first, logs[a := x], t, k)
    {
      IncKeeps(T.vecs[TrackOf(T, m)], m.cycle - first, k);
      TotalSame(T, U, first, logs[a := x], t, k);
      TotalReplaced(T, first, logs, a, x, t, k);
      HitsOne(T, first, logs[a], m, t, k);
    }
  }

  lemma LoggedWritable(T: Tracks, first: int, logs: seq<seq<Move>>, m: Move)
    requires TracksOk(T) && Known(T, m, first) && Conserved(T, first, logs) && Writable(T, first, m.cycle)
    ensures Writable(MoveLogged(T, m, first), first, m.cycle)
  {
    hide Total, Conserved;
    TracksDistinct(T, m, m);
    var k := ChunkOf(m.cycle - first);
    CountersNatural(T, first, logs, TrackOf(T, m), k);
    assert (k + 1) * CYCLE_CHUNK_SIZE > m.cycle - first;
  }

  lemma CountersNatural(T: Tracks, first: int, logs: seq<seq<Move>>, t: nat, k: nat)
    requires Conserved(T, first, logs) && t < |T.vecs|
    ensures PendingAt(T.vecs[t], k) == Total(T, first, logs, t, k) >= 0
  {
  }

  // ---------------------------------------------------------------- recording a move

  lemma {:induction false} HitsFirst(T: Tracks, first: int, log: seq<Move>, t: nat, k: nat)
    requires log != []
    ensures Hits(T, first, log, t, k) == Hit(T, first, log[0], t, k) + Hits(T, first, log[1..], t, k)
  {
    if |log| > 1 {
      HitsFirst(T, first, log[..|log|-1], t, k);
      assert log[1..][..|log|-2] == log[..|log|-1][1..];
    }
  }

  lemma {:induction false} TotalAtLeast(T: Tracks, first: int, logs: seq<seq<Move>>, a: nat, t: nat, k: nat)
    requires a < |logs|
    ensures Total(T, first, logs, t, k) >= Hits(T, first, logs[a], t, k)
  {
    if a < |logs| - 1 {
      TotalAtLeast(T, first, logs[..|logs|-1], a, t, k);
    }
  }

  lemma {:induction false} HitsIn(T: Tracks, first: int, log: seq<Move>, i: nat, t: nat, k: nat)
    requires i < |log| && InChunk(T, first, log[i], t, k)
    ensures Hits(T, first, log, t, k) > 0
  {
    if i < |log| - 1 {
      HitsIn(T, first, log[..|log|-1], i, t, k);
    }
  }

  /** What recording value i at cycle c does to a vector whose chunk takes values. */
  lemma RecordKeeps(n: NodeState, c: nat, i: nat, k: nat)
    requires Plain(n) && i < 0x8000_0000
    requires ChunkOf(c) in n.chunks && !n.chunks[ChunkOf(c)].dense
    ensures var (a, ok) := Added(n, c, i); var m := DecPending(a, c);
            && ok && Plain(m)
            && m.first == (if c < n.first then c else n.first) && m.last == (if c > n.last then c else n.last)
            && PendingAt(m, k) == PendingAt(n, k) - (if k == ChunkOf(c) then 1 else 0)
            && (k in m.chunks <==> k in n.chunks)
            && (k in n.chunks ==> m.chunks[k].dense == n.chunks[k].dense)
            && (k in n.chunks && k != ChunkOf(c) ==> m.chunks[k] == n.chunks[k])
            && (m.chunks[ChunkOf(c)].we == (n.chunks[ChunkOf(c)].we && PendingAt(m, ChunkOf(c)) != 0))
  {
  }

  /** The value is in its slot, and no other slot changes. */
  lemma RecordSlot(n: NodeState, c: nat, i: nat, d: int)
    requires Plain(n) && i < 0x8000_0000
    requires ChunkOf(c) in n.chunks && !n.chunks[ChunkOf(c)].dense
    ensures Slot(DecPending(Added(n, c, i).0, c), d) == if d == c then Some(i) else Slot(n, d)
  {
  }

  /** A logged move is always recorded: its chunk cannot have been packed. The counters
      stay right once it is taken off the log. */
  lemma RecordedConserved(T: Tracks, first: int, now: int, logs: seq<seq<Move>>, a: nat, i: nat)
    requires TracksOk(T) && Conserved(T, first, logs) && Writable(T, first, now)
    requires a < |logs| && logs[a] != [] && Known(T, logs[a][0], first) && i < 0x8000_0000
    ensures var (U, ok) := MoveRecorded(T, logs[a][0], first, i);
            ok && TracksOk(U) && Conserved(U, first, logs[a := logs[a][1..]]) && Writable(U, first, now)
  {
    hide Total, Hits, Added, DecPending;
    var m := logs[a][0];
    var (U, ok) := MoveRecorded(T, m, first, i);
    var t, c := TrackOf(T, m), m.cycle - first;
    var rest := logs[a := logs[a][1..]];
    TracksDistinct(T, m, m);
    HitsFirst(T, first, logs[a], t, ChunkOf(c));
    TotalAtLeast(T, first, logs, a, t, ChunkOf(c));
    CountersNatural(T, first, logs, t, ChunkOf(c));
    assert PendingAt(T.vecs[t], ChunkOf(c)) >= 1;
    RecordKeeps(T.vecs[t], c, i, 0);
    forall u, k | 0 <= u < |T.vecs| && 0 <= k
      ensures PendingAt(U.vecs[u], k) == Total(U, first, rest, u, k)
    {
      RecordKeeps(T.vecs[t], c, i, k);
      TotalSame(T, U, first, rest, u, k);
      TotalReplaced(T, first, logs, a, logs[a][1..], u, k);
      HitsFirst(T, first, logs[a], u, k);
    }
    forall u, k | 0 <= u < |T.vecs| && k in U.vecs[u].chunks && U.vecs[u].chunks[k].Items?
      ensures U.vecs[u].chunks[k].pending != 0 ==> U.vecs[u].chunks[k].we && !U.vecs[u].chunks[k].dense
      ensures U.vecs[u].chunks[k].we && !U.vecs[u].chunks[k].dense ==> U.vecs[u].chunks[k].pending != 0
      ensures U.vecs[u].chunks[k].dense ==> (k + 1) * CYCLE_CHUNK_SIZE < now - first
    {
      RecordKeeps(T.vecs[t], c, i, k);
    }
  }

  // ---------------------------------------------------------------- compression rounds

  /** Whatever a round packs, values and bounds stay. */
  lemma RoundSlot(n: NodeState, cycle: nat, last: bool, d: int)
    requires Plain(n)
    ensures var z := Compressed(n, cycle, last);
            && Plain(z) && Slot(z, d) == Slot(n, d) && z.chunks.Keys == n.chunks.Keys
            && z.first == n.first && z.last == n.last
  {
  }

  /** A round packs no chunk that still expects values, so the counters stay right. */
  lemma RoundKeeps(T: Tracks, first: int, now: int, logs: seq<seq<Move>>, last: bool)
    requires TracksOk(T) && Conserved(T, first, logs) && Writable(T, first, now)
    requires first <= now && (last ==> logs == [])
    ensures var U := RoundDone(T, now - first, last);
            TracksOk(U) && Conserved(U, first, logs) && (!last ==> Writable(U, first, now))
  {
    hide Total, Compressed;
    var U, c := RoundDone(T, now - first, last), now - first;
    forall t | 0 <= t < |T.vecs|
      ensures Plain(U.vecs[t])
    {
      RoundOne(T, first, now, logs, last, t, 0);
    }
    forall t, k | 0 <= t < |T.vecs| && 0 <= k
      ensures PendingAt(U.vecs[t], k) == Total(U, first, logs, t, k)
    {
      RoundOne(T, first, now, logs, last, t, k);
      TotalSame(T, U, first, logs, t, k);
    }
    if !last {
      forall t, k | 0 <= t < |T.vecs| && k in U.vecs[t].chunks && U.vecs[t].chunks[k].Items?
        ensures U.vecs[t].chunks[k].pending != 0 ==> U.vecs[t].chunks[k].we && !U.vecs[t].chunks[k].dense
        ensures U.vecs[t].chunks[k].we && !U.vecs[t].chunks[k].dense ==> U.vecs[t].chunks[k].pending != 0
        ensures U.vecs[t].chunks[k].dense ==> (k + 1) * CYCLE_CHUNK_SIZE < now - first
      {
        RoundOne(T, first, now, logs, last, t, k);
      }
    }
  }

  lemma RoundOne(T: Tracks, first: int, now: int, logs: seq<seq<Move>>, last: bool, t: nat, k: nat)
    requires TracksOk(T) && Conserved(T, first, logs) && Writable(T, first, now)
    requires first <= now && (last ==> logs == []) && t < |T.vecs|
    ensures var n, z := T.vecs[t], RoundDone(T, now - first, last).vecs[t];
            && Plain(z) && PendingAt(z, k) == PendingAt(n, k) && (k in z.chunks <==> k in n.chunks)
            && (k in n.chunks ==>
                  || z.chunks[k] == n.chunks[k]
                  || (z.chunks[k].dense && z.chunks[k].we && z.chunks[k].pending == 0
                      && (last || now - first > (k + 1) * CYCLE_CHUNK_SIZE)))
  {
    CountersNatural(T, first, logs, t, k);
    assert last ==> Total(T, first, logs, t, k) == 0;
  }
}
