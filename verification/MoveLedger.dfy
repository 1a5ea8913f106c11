/** The books of all moves of a trace: the logs of live items, the logs of deleted items,
    and the tracks. What every event keeps of them, and what a lookup gives. */
module MoveLedgers {
  import opened TagHistory
  import opened TagVecs
  import opened TagIdVecs
  import opened MoveLogs

  // ---------------------------------------------------------------- who made which move

  ghost predicate MoveIn(m: Move, logs: seq<seq<Move>>) {
    exists a :: 0 <= a < |logs| && m in logs[a]
  }

  ghost function Moves(logs: seq<seq<Move>>): iset<Move> {
    iset m | MoveIn(m, logs)
  }

  /** The last of the deleted items that made this move. */
  function LastMover(done: seq<seq<Move>>, m: Move): (r: Option<nat>)
    ensures r.Some? ==> r.value < |done| && m in done[r.value]
    ensures r == None ==> forall i :: 0 <= i < |done| ==> m !in done[i]
  {
    if done == [] then None
    else if m in done[|done|-1] then Some(|done| - 1)
    else LastMover(done[..|done|-1], m)
  }

  // ---------------------------------------------------------------- the invariant of the books

  /** The move belongs on track t at cycle c. */
  predicate OnTrack(T: Tracks, first: int, m: Move, t: nat, c: int) {
    m.edgeid in T.base && TrackOf(T, m) == t && m.cycle - first == c
  }

  /** The slot of a move has the item that was the last to be deleted of those that made it. */
  ghost predicate SlotOk(T: Tracks, first: int, done: seq<seq<Move>>, m: Move) {
    && m.edgeid in T.base && TrackOf(T, m) < |T.vecs|
    && Slot(T.vecs[TrackOf(T, m)], m.cycle - first) == LastMover(done, m)
  }

  ghost predicate Mirrored(T: Tracks, first: int, done: seq<seq<Move>>) {
    forall m :: Known(T, m, first) ==> SlotOk(T, first, done, m)
  }

  ghost predicate Touched(T: Tracks, first: int, all: iset<Move>, t: nat, k: nat) {
    exists m :: m in all && InChunk(T, first, m, t, k)
  }

  /** A track has exactly the chunks of its moves, logged or recorded. */
  ghost predicate Chunked(T: Tracks, first: int, all: iset<Move>) {
    forall t, k :: 0 <= t < |T.vecs| && 0 <= k ==> (k in T.vecs[t].chunks <==> Touched(T, first, all, t, k))
  }

  /** Some move belongs on track t at cycle c. */
  ghost predicate At(T: Tracks, first: int, gone: iset<Move>, t: nat, c: int) {
    exists m :: m in gone && OnTrack(T, first, m, t, c)
  }

  ghost predicate BoundsOk(T: Tracks, first: int, gone: iset<Move>, t: nat, lo: int, hi: int) {
    && (forall c :: At(T, first, gone, t, c) ==> lo <= c <= hi)
    && if lo <= hi then At(T, first, gone, t, lo) && At(T, first, gone, t, hi) else lo == 2147483647 && hi == -1
  }

  /** The bounds of a track are the first and the last cycle of its recorded moves. */
  ghost predicate Bounded(T: Tracks, first: int, gone: iset<Move>) {
    forall t :: 0 <= t < |T.vecs| ==> BoundsOk(T, first, gone, t, T.vecs[t].first, T.vecs[t].last)
  }

  /** What the tracks hold, with these items live and these deleted. */
  ghost predicate TracksHold(T: Tracks, first: int, now: int, live: seq<seq<Move>>, done: seq<seq<Move>>) {
    && TracksOk(T) && first <= now
    && AllKnown(T, first, now, live) && AllKnown(T, first, now, done)
    && Mirrored(T, first, done) && Chunked(T, first, Moves(live) + Moves(done)) && Bounded(T, first, Moves(done))
  }

  /** The invariant of the books while events come in. */
  ghost predicate Ledger(T: Tracks, first: int, now: int, live: seq<seq<Move>>, done: seq<seq<Move>>) {
    TracksHold(T, first, now, live, done) && Conserved(T, first, live) && Writable(T, first, now)
  }

  // ---------------------------------------------------------------- reading moves back

  predicate SamePlace(m: Move, d: Move) { m.edgeid == d.edgeid && m.pos == d.pos }

  predicate SameChunk(first: int, m: Move, d: Move) {
    first <= m.cycle && first <= d.cycle && (m.cycle - first) / 4096 == (d.cycle - first) / 4096
  }

  /** The cycle of m lies between the first and the last recorded move at its place. */
  ghost predicate Within(gone: iset<Move>, m: Move) {
    && (exists d :: d in gone && SamePlace(m, d) && d.cycle <= m.cycle)
    && (exists d :: d in gone && SamePlace(m, d) && m.cycle <= d.cycle)
  }

  /** No missing chunk is in the way of looking for m: between the first and the last recorded
      move at its place, there is a move, recorded or logged, in its chunk. */
  ghost predicate NoGap(gone: iset<Move>, all: iset<Move>, first: int, m: Move) {
    Within(gone, m) ==> exists d :: d in all && SamePlace(m, d) && SameChunk(first, m, d)
  }

  lemma MoveCycle(T: Tracks, m: Move, first: int)
    requires Known(T, m, first)
    ensures 0 <= m.cycle - first < 0x10_0000 && m.edgeid in T.base && OnEdge(T, m.edgeid, m.pos)
  {
  }

  lemma KnownIn(T: Tracks, first: int, now: int, logs: seq<seq<Move>>, m: Move)
    requires AllKnown(T, first, now, logs) && MoveIn(m, logs)
    ensures Known(T, m, first) && m.cycle <= now
  {
    hide Known;
    var a :| 0 <= a < |logs| && m in logs[a];
    var i :| 0 <= i < |logs[a]| && logs[a][i] == m;
  }

  /** A recorded move is on the track of a place exactly when it was made there. */
  lemma PlaceTrack(T: Tracks, first: int, now: int, done: seq<seq<Move>>, m: Move, d: Move)
    requires TracksOk(T) && AllKnown(T, first, now, done) && OnEdge(T, m.edgeid, m.pos) && MoveIn(d, done)
    ensures first <= d.cycle && d.edgeid in T.base && (TrackOf(T, d) == TrackOf(T, m) <==> SamePlace(m, d))
  {
    hide Known;
    KnownIn(T, first, now, done, d);
    MoveCycle(T, d, first);
    TracksDistinct(T, m, d);
  }

  /** The bounds of the track of a place, in terms of the moves made there. */
  lemma WithinBounds(T: Tracks, first: int, now: int, done: seq<seq<Move>>, m: Move)
    requires TracksOk(T) && AllKnown(T, first, now, done) && OnEdge(T, m.edgeid, m.pos) && TrackOf(T, m) < |T.vecs|
    requires Bounded(T, first, Moves(done))
    ensures var n := T.vecs[TrackOf(T, m)];
            n.first <= m.cycle - first <= n.last <==> Within(Moves(done), m)
  {
    hide AllKnown, TracksOk;
    var n, t, c, gone := T.vecs[TrackOf(T, m)], TrackOf(T, m), m.cycle - first, Moves(done);
    forall d | d in gone
      ensures d.edgeid in T.base && (TrackOf(T, d) == t <==> SamePlace(m, d))
    {
      PlaceTrack(T, first, now, done, m, d);
    }
    if n.first <= c <= n.last {
      var d :| d in gone && OnTrack(T, first, d, t, n.first);
      var e :| e in gone && OnTrack(T, first, e, t, n.last);
      assert SamePlace(m, d) && SamePlace(m, e);
    }
    if Within(gone, m) {
      var d :| d in gone && SamePlace(m, d) && d.cycle <= m.cycle;
      var e :| e in gone && SamePlace(m, e) && m.cycle <= e.cycle;
      assert At(T, first, gone, t, d.cycle - first) && At(T, first, gone, t, e.cycle - first);
    }
  }

  /** A lookup meets no missing chunk exactly when none is in its way. */
  lemma ReadableExactly(T: Tracks, first: int, now: int, live: seq<seq<Move>>, done: seq<seq<Move>>, m: Move)
    requires TracksHold(T, first, now, live, done) && OnEdge(T, m.edgeid, m.pos)
    ensures TrackOf(T, m) < |T.vecs|
    ensures Readable(T.vecs[TrackOf(T, m)], m.cycle - first)
       <==> NoGap(Moves(done), Moves(live) + Moves(done), first, m)
  {
    hide AllKnown, Mirrored, Bounded, Within;
    TracksDistinct(T, m, m);
    var t, c, all := TrackOf(T, m), m.cycle - first, Moves(live) + Moves(done);
    WithinBounds(T, first, now, done, m);
    VecPlain(T, t);
    forall d | d in all
      ensures first <= d.cycle && d.edgeid in T.base && (TrackOf(T, d) == t <==> SamePlace(m, d))
    {
      if d in Moves(live) {
        PlaceTrack(T, first, now, live, m, d);
      } else {
        PlaceTrack(T, first, now, done, m, d);
      }
    }
    if 0 <= c {
      assert Touched(T, first, all, t, ChunkOf(c))
             <==> exists d :: d in all && SamePlace(m, d) && SameChunk(first, m, d);
    }
  }

  /** A lookup gives the item that was the last to be deleted of those that made the move. */
  lemma TracksAnswer(T: Tracks, first: int, now: int, live: seq<seq<Move>>, done: seq<seq<Move>>, m: Move)
    requires TracksHold(T, first, now, live, done) && OnEdge(T, m.edgeid, m.pos)
    requires TrackOf(T, m) < |T.vecs| && Readable(T.vecs[TrackOf(T, m)], m.cycle - first)
    ensures ValueAt(T.vecs[TrackOf(T, m)], m.cycle - first) == LastMover(done, m)
  {
    hide AllKnown, Bounded, Chunked, Within, TracksOk, WalkOk;
    var n, c, r := T.vecs[TrackOf(T, m)], m.cycle - first, LastMover(done, m);
    WithinBounds(T, first, now, done, m);
    VecPlain(T, TrackOf(T, m));
    if r.Some? {
      assert m in done[r.value];
      KnownIn(T, first, now, done, m);
      assert Within(Moves(done), m) by { MadeWithin(done, m); }
    }
    if n.first <= c <= n.last && !Known(T, m, first) {
      LastBound(T, first, now, done, m);
    }
  }

  lemma MadeWithin(done: seq<seq<Move>>, m: Move)
    requires MoveIn(m, done)
    ensures Within(Moves(done), m)
  {
    assert m in Moves(done) && SamePlace(m, m);
  }

  /** No recorded move is beyond the table of chunks. */
  lemma LastBound(T: Tracks, first: int, now: int, done: seq<seq<Move>>, m: Move)
    requires AllKnown(T, first, now, done) && Within(Moves(done), m) && OnEdge(T, m.edgeid, m.pos)
    ensures Known(T, m, first)
  {
    var d :| d in Moves(done) && SamePlace(m, d) && d.cycle <= m.cycle;
    var e :| e in Moves(done) && SamePlace(m, e) && m.cycle <= e.cycle;
    KnownIn(T, first, now, done, d);
    KnownIn(T, first, now, done, e);
  }

  /** Nobody made a move where there is no track. */
  lemma NobodyElsewhere(T: Tracks, first: int, now: int, live: seq<seq<Move>>, done: seq<seq<Move>>, m: Move)
    requires TracksHold(T, first, now, live, done) && !OnEdge(T, m.edgeid, m.pos)
    ensures LastMover(done, m) == None
  {
    hide TracksOk, Mirrored, Chunked, Bounded, AllKnown;
    if LastMover(done, m).Some? {
      assert MoveIn(m, done);
      KnownIn(T, first, now, done, m);
    }
  }

  lemma VecPlain(T: Tracks, t: nat)
    requires TracksOk(T) && t < |T.vecs|
    ensures Plain(T.vecs[t])
  {
  }

  // ---------------------------------------------------------------- logs

  lemma MoreMoves(logs: seq<seq<Move>>, a: nat, m: Move)
    requires a < |logs|
    ensures Moves(logs[a := logs[a] + [m]]) == Moves(logs) + iset{m}
  {
    var r := logs[a := logs[a] + [m]];
    forall d | d in Moves(logs)
      ensures d in Moves(r)
    {
      var b :| 0 <= b < |logs| && d in logs[b];
      assert d in r[b];
    }
    assert m in r[a];
  }

  lemma ShiftMoves(logs: seq<seq<Move>>, a: nat)
    requires a < |logs| && logs[a] != []
    ensures Moves(logs) == Moves(logs[a := logs[a][1..]]) + iset{logs[a][0]}
  {
    var g := logs[a := logs[a][1..]];
    forall d | d in Moves(logs) && d != logs[a][0]
      ensures d in Moves(g)
    {
      var b :| 0 <= b < |logs| && d in logs[b];
      assert d in g[b];
    }
    forall d | d in Moves(g)
      ensures d in Moves(logs)
    {
      var b :| 0 <= b < |g| && d in g[b];
      assert d in logs[b];
    }
    assert logs[a][0] in logs[a];
  }

  lemma DropMoves(logs: seq<seq<Move>>, a: nat)
    requires a < |logs| && logs[a] == []
    ensures Moves(logs[..a] + logs[a+1..]) == Moves(logs)
  {
    var r := logs[..a] + logs[a+1..];
    assert forall b :: 0 <= b < |r| ==> r[b] == logs[if b < a then b else b + 1];
    forall d | d in Moves(logs)
      ensures d in Moves(r)
    {
      var b :| 0 <= b < |logs| && d in logs[b];
      assert d in r[if b < a then b else b - 1];
    }
  }

  lemma AddMoves(logs: seq<seq<Move>>)
    ensures Moves(logs + [[]]) == Moves(logs)
  {
    var r := logs + [[]];
    forall d | d in Moves(logs)
      ensures d in Moves(r)
    {
      var b :| 0 <= b < |logs| && d in logs[b];
      assert d in r[b];
    }
  }

  lemma {:induction false} TotalAdd(T: Tracks, first: int, logs: seq<seq<Move>>, t: nat, k: nat)
    ensures Total(T, first, logs + [[]], t, k) == Total(T, first, logs, t, k)
  {
    assert (logs + [[]])[..|logs|] == logs;
  }

  // ---------------------------------------------------------------- what every event keeps

  lemma LedgerTracks(T: Tracks, first: int, now: int, live: seq<seq<Move>>, done: seq<seq<Move>>)
    requires Ledger(T, first, now, live, done)
    ensures TracksHold(T, first, now, live, done) && TracksOk(T) && first <= now
  {
  }

  /** A later cycle keeps the books. */
  lemma LedgerLater(T: Tracks, first: int, now: int, now': int, live: seq<seq<Move>>, done: seq<seq<Move>>)
    requires Ledger(T, first, now, live, done) && now <= now'
    ensures Ledger(T, first, now', live, done)
  {
    hide TracksOk, Conserved, Mirrored, Chunked, Bounded, Known;
  }

  /** A new item brings an empty log. */
  lemma LedgerNew(T: Tracks, first: int, now: int, live: seq<seq<Move>>, done: seq<seq<Move>>)
    requires Ledger(T, first, now, live, done)
    ensures Ledger(T, first, now, live + [[]], done)
  {
    hide TracksOk, Writable, Mirrored, Chunked, Bounded, Known;
    AddMoves(live);
    forall t, k | 0 <= t < |T.vecs| && 0 <= k
      ensures PendingAt(T.vecs[t], k) == Total(T, first, live + [[]], t, k)
    {
      TotalAdd(T, first, live, t, k);
    }
  }

  lemma KnownSame(T: Tracks, U: Tracks, first: int, now: int, logs: seq<seq<Move>>, m: Move)
    requires SameOwners(T, U)
    ensures Known(U, m, first) <==> Known(T, m, first)
    ensures AllKnown(U, first, now, logs) <==> AllKnown(T, first, now, logs)
  {
    assert forall d :: Known(U, d, first) <==> Known(T, d, first);
  }

  /** Where moves belong depends only on which tracks the edges own. */
  lemma PlacesSame(T: Tracks, U: Tracks, first: int, all: iset<Move>, t: nat, k: nat, c: int)
    requires U.base == T.base
    ensures Touched(U, first, all, t, k) <==> Touched(T, first, all, t, k)
    ensures At(U, first, all, t, c) <==> At(T, first, all, t, c)
  {
    assert forall m :: InChunk(U, first, m, t, k) <==> InChunk(T, first, m, t, k);
    assert forall m :: OnTrack(U, first, m, t, c) <==> OnTrack(T, first, m, t, c);
  }

  lemma BoundsSame(T: Tracks, U: Tracks, first: int, gone: iset<Move>, t: nat, lo: int, hi: int)
    requires U.base == T.base && BoundsOk(T, first, gone, t, lo, hi)
    ensures BoundsOk(U, first, gone, t, lo, hi)
  {
    hide At;
    forall c
      ensures At(U, first, gone, t, c) <==> At(T, first, gone, t, c)
    {
      PlacesSame(T, U, first, gone, t, 0, c);
    }
  }

  /** The vectors of U have the values, chunks and bounds of those of T. */
  ghost predicate SameContent(T: Tracks, U: Tracks) {
    SameOwners(T, U) && forall t :: 0 <= t < |T.vecs| ==>
      && Plain(U.vecs[t]) && U.vecs[t].first == T.vecs[t].first && U.vecs[t].last == T.vecs[t].last
      && U.vecs[t].chunks.Keys == T.vecs[t].chunks.Keys && forall d :: Slot(U.vecs[t], d) == Slot(T.vecs[t], d)
  }

  lemma ContentHeld(T: Tracks, U: Tracks, first: int, now: int, live: seq<seq<Move>>, done: seq<seq<Move>>)
    requires TracksHold(T, first, now, live, done) && SameContent(T, U)
    ensures TracksHold(U, first, now, live, done)
  {
    hide Plain, Slot, Known, AllKnown, Touched, BoundsOk, LastMover;
    KnownSame(T, U, first, now, live, Move(0, 0, 0));
    KnownSame(T, U, first, now, done, Move(0, 0, 0));
    forall m | Known(U, m, first)
      ensures SlotOk(U, first, done, m)
    {
      KnownSame(T, U, first, now, done, m);
      MoveCycle(T, m, first);
    }
    forall t, k | 0 <= t < |U.vecs| && 0 <= k
      ensures k in U.vecs[t].chunks <==> Touched(U, first, Moves(live) + Moves(done), t, k)
    {
      PlacesSame(T, U, first, Moves(live) + Moves(done), t, k, 0);
      assert k in U.vecs[t].chunks.Keys <==> k in T.vecs[t].chunks.Keys;
    }
    forall t | 0 <= t < |U.vecs|
      ensures BoundsOk(U, first, Moves(done), t, U.vecs[t].first, U.vecs[t].last)
    {
      BoundsSame(T, U, first, Moves(done), t, T.vecs[t].first, T.vecs[t].last);
    }
  }

  /** A compression round, the last one too, keeps what the tracks hold. */
  lemma RoundHolds(T: Tracks, first: int, now: int, live: seq<seq<Move>>, done: seq<seq<Move>>, last: bool)
    requires TracksHold(T, first, now, live, done) && first <= now
    ensures TracksHold(RoundDone(T, now - first, last), first, now, live, done)
  {
    hide TracksHold, Plain, Slot, Compressed;
    HoldsFirst(T, first, now, live, done);
    var U := RoundDone(T, now - first, last);
    forall t | 0 <= t < |T.vecs|
      ensures Plain(U.vecs[t]) && U.vecs[t].first == T.vecs[t].first && U.vecs[t].last == T.vecs[t].last
      ensures U.vecs[t].chunks.Keys == T.vecs[t].chunks.Keys
      ensures forall d :: Slot(U.vecs[t], d) == Slot(T.vecs[t], d)
    {
      forall d: int
        ensures Slot(U.vecs[t], d) == Slot(T.vecs[t], d)
      {
        RoundSlot(T.vecs[t], now - first, last, d);
      }
      RoundSlot(T.vecs[t], now - first, last, 0);
    }
    ContentHeld(T, U, first, now, live, done);
  }

  lemma HoldsFirst(T: Tracks, first: int, now: int, live: seq<seq<Move>>, done: seq<seq<Move>>)
    requires TracksHold(T, first, now, live, done)
    ensures TracksOk(T) && first <= now && forall t :: 0 <= t < |T.vecs| ==> Plain(T.vecs[t])
  {
  }

  /** A compression round keeps the books; in the last one no item is left. */
  lemma LedgerRound(T: Tracks, first: int, now: int, live: seq<seq<Move>>, done: seq<seq<Move>>, last: bool)
    requires Ledger(T, first, now, live, done) && (last ==> live == [])
    ensures var U := RoundDone(T, now - first, last);
            && TracksHold(U, first, now, live, done) && Conserved(U, first, live)
            && (!last ==> Ledger(U, first, now, live, done))
  {
    hide RoundDone, TracksHold, Conserved, Writable;
    LedgerTracks(T, first, now, live, done);
    RoundHolds(T, first, now, live, done, last);
    RoundKeeps(T, first, now, live, last);
  }

  /** A round packs a chunk exactly when no live item has moved there, it lies more than a chunk behind,
      and less than half of its slots are in use. */
  lemma PackedWhen(T: Tracks, first: int, now: int, live: seq<seq<Move>>, done: seq<seq<Move>>, t: nat, k: nat)
    requires Ledger(T, first, now, live, done) && t < |T.vecs| && k in T.vecs[t].chunks
    ensures T.vecs[t].chunks[k].Items? && RoundDone(T, now - first, false).vecs[t].chunks[k].Items?
    ensures var ch := T.vecs[t].chunks[k];
            RoundDone(T, now - first, false).vecs[t].chunks[k].dense
            <==> || ch.dense
                 || (!Touched(T, first, Moves(live), t, k) && 4096 * (k + 1) < now - first && |ch.values| < 2047)
  {
    hide TracksHold, Conserved, Total, Known, AllKnown;
    LedgerTracks(T, first, now, live, done);
    HoldsFirst(T, first, now, live, done);
    var n, ch := T.vecs[t], T.vecs[t].chunks[k];
    assert Plain(n) && ch.Items?;
    PendingTouched(T, first, now, live, done, t, k);
    if !Touched(T, first, Moves(live), t, k) && 4096 * (k + 1) < now - first {
      RecordedBounds(T, first, now, live, done, t, k);
      PackedRound(n, now - first, false, k);
    }
  }

  /** The moves that are pending in a chunk are those of live items. */
  lemma PendingTouched(T: Tracks, first: int, now: int, live: seq<seq<Move>>, done: seq<seq<Move>>, t: nat, k: nat)
    requires Ledger(T, first, now, live, done) && t < |T.vecs| && k in T.vecs[t].chunks && T.vecs[t].chunks[k].Items?
    ensures T.vecs[t].chunks[k].pending != 0 <==> Touched(T, first, Moves(live), t, k)
  {
    hide TracksHold, Writable, Hits;
    assert T.vecs[t].chunks[k].pending == PendingAt(T.vecs[t], k) == Total(T, first, live, t, k);
    if Touched(T, first, Moves(live), t, k) {
      var m :| m in Moves(live) && InChunk(T, first, m, t, k);
      var a :| 0 <= a < |live| && m in live[a];
      var i :| 0 <= i < |live[a]| && live[a][i] == m;
      HitsIn(T, first, live[a], i, t, k);
      TotalAtLeast(T, first, live, a, t, k);
    } else {
      NoneTouched(T, first, live, t, k);
    }
  }

  lemma {:induction false} NoneTouched(T: Tracks, first: int, logs: seq<seq<Move>>, t: nat, k: nat)
    requires !Touched(T, first, Moves(logs), t, k)
    ensures Total(T, first, logs, t, k) == 0
  {
    if logs != [] {
      var g, log := logs[..|logs|-1], logs[|logs|-1];
      forall m | m in Moves(g)
        ensures m in Moves(logs)
      {
        var a :| 0 <= a < |g| && m in g[a];
        assert logs[a] == g[a];
      }
      NoneTouched(T, first, g, t, k);
      forall i | 0 <= i < |log|
        ensures !InChunk(T, first, log[i], t, k)
      {
        assert log[i] in logs[|logs|-1] && MoveIn(log[i], logs);
      }
      NoHits(T, first, log, t, k);
    }
  }

  lemma {:induction false} NoHits(T: Tracks, first: int, log: seq<Move>, t: nat, k: nat)
    requires forall i :: 0 <= i < |log| ==> !InChunk(T, first, log[i], t, k)
    ensures Hits(T, first, log, t, k) == 0
  {
    if log != [] {
      NoHits(T, first, log[..|log|-1], t, k);
    }
  }

  /** A chunk in which no live item has moved lies within the bounds of its track. */
  lemma RecordedBounds(T: Tracks, first: int, now: int, live: seq<seq<Move>>, done: seq<seq<Move>>, t: nat, k: nat)
    requires TracksHold(T, first, now, live, done) && t < |T.vecs| && k in T.vecs[t].chunks
    requires !Touched(T, first, Moves(live), t, k)
    ensures 0 <= T.vecs[t].first / 4096 <= k < 256
  {
    hide Mirrored, TracksOk;
    assert Touched(T, first, Moves(live) + Moves(done), t, k);
    var m :| m in Moves(live) + Moves(done) && InChunk(T, first, m, t, k);
    assert m in Moves(done);
    KnownIn(T, first, now, done, m);
    assert OnTrack(T, first, m, t, m.cycle - first);
    assert At(T, first, Moves(done), t, m.cycle - first);
  }

  /** When no item is left, no move is pending anywhere. */
  lemma NonePending(T: Tracks, first: int, t: nat, k: nat)
    requires Conserved(T, first, []) && t < |T.vecs|
    ensures PendingAt(T.vecs[t], k) == 0
  {
    assert Total(T, first, [], t, k) == 0;
  }

  // ---------------------------------------------------------------- logging a move

  lemma AllKnownLogged(T: Tracks, first: int, now: int, live: seq<seq<Move>>, a: nat, m: Move)
    requires AllKnown(T, first, now, live) && a < |live| && Known(T, m, first) && m.cycle <= now
    ensures AllKnown(T, first, now, live[a := live[a] + [m]])
  {
    hide Known;
    var r := live[a := live[a] + [m]];
    assert forall b, j :: 0 <= b < |r| && 0 <= j < |r[b]| ==>
      if b == a && j == |live[a]| then r[b][j] == m else j < |live[b]| && r[b][j] == live[b][j];
  }

  /** Logging a move changes no value and no bound, and puts its chunk in place. */
  lemma LoggedHolds(T: Tracks, first: int, now: int, live: seq<seq<Move>>, done: seq<seq<Move>>, a: nat, m: Move)
    requires TracksHold(T, first, now, live, done) && a < |live| && Known(T, m, first) && m.cycle <= now
    requires TracksOk(MoveLogged(T, m, first))
    ensures TracksHold(MoveLogged(T, m, first), first, now, live[a := live[a] + [m]], done)
  {
    hide TracksOk, Plain, Slot, Known, AllKnown, Touched, BoundsOk, LastMover, IncPending, Moves;
    var U, r := MoveLogged(T, m, first), live[a := live[a] + [m]];
    MoveCycle(T, m, first);
    AllKnownLogged(T, first, now, live, a, m);
    KnownSame(T, U, first, now, r, m);
    KnownSame(T, U, first, now, done, m);
    MoreMoves(live, a, m);
    assert Moves(r) + Moves(done) == Moves(live) + Moves(done) + iset{m};
    TracksDistinct(T, m, m);
    VecPlain(T, TrackOf(T, m));
    forall d | Known(U, d, first)
      ensures SlotOk(U, first, done, d)
    {
      KnownSame(T, U, first, now, done, d);
      MoveCycle(T, d, first);
      IncSlot(T.vecs[TrackOf(T, m)], m.cycle - first, d.cycle - first);
    }
    forall t, k | 0 <= t < |U.vecs| && 0 <= k
      ensures k in U.vecs[t].chunks <==> Touched(U, first, Moves(r) + Moves(done), t, k)
    {
      PlacesSame(T, U, first, Moves(r) + Moves(done), t, k, 0);
      TouchedMore(T, first, Moves(live) + Moves(done), m, t, k);
      IncKeeps(T.vecs[TrackOf(T, m)], m.cycle - first, k);
    }
    forall t | 0 <= t < |U.vecs|
      ensures BoundsOk(U, first, Moves(done), t, U.vecs[t].first, U.vecs[t].last)
    {
      IncKeeps(T.vecs[TrackOf(T, m)], m.cycle - first, 0);
      BoundsSame(T, U, first, Moves(done), t, T.vecs[t].first, T.vecs[t].last);
    }
  }

  lemma TouchedMore(T: Tracks, first: int, all: iset<Move>, m: Move, t: nat, k: nat)
    ensures Touched(T, first, all + iset{m}, t, k) <==> Touched(T, first, all, t, k) || InChunk(T, first, m, t, k)
  {
  }

  /** A move is logged for live item a. */
  lemma LedgerMove(T: Tracks, first: int, now: int, live: seq<seq<Move>>, done: seq<seq<Move>>, a: nat, m: Move)
    requires Ledger(T, first, now, live, done) && a < |live| && Known(T, m, first) && m.cycle == now
    ensures Ledger(MoveLogged(T, m, first), first, now, live[a := live[a] + [m]], done)
  {
    hide MoveLogged, Known, TracksHold, Conserved, Writable;
    LedgerTracks(T, first, now, live, done);
    LoggedConserved(T, first, live, a, m);
    LoggedWritable(T, first, live, m);
    LoggedHolds(T, first, now, live, done, a, m);
  }

  // ---------------------------------------------------------------- recording

  /** The chunk of a logged move is there and takes values. */
  lemma PendingChunk(T: Tracks, first: int, now: int, logs: seq<seq<Move>>, a: nat)
    requires TracksOk(T) && Conserved(T, first, logs) && Writable(T, first, now)
    requires a < |logs| && logs[a] != [] && Known(T, logs[a][0], first)
    ensures TrackOf(T, logs[a][0]) < |T.vecs|
    ensures var n, k := T.vecs[TrackOf(T, logs[a][0])], ChunkOf(logs[a][0].cycle - first);
            Plain(n) && k in n.chunks && !n.chunks[k].dense
  {
    hide Total, Hits;
    var m := logs[a][0];
    var t, k := TrackOf(T, m), ChunkOf(m.cycle - first);
    TracksDistinct(T, m, m);
    HitsFirst(T, first, logs[a], t, k);
    TotalAtLeast(T, first, logs, a, t, k);
    CountersNatural(T, first, logs, t, k);
    assert PendingAt(T.vecs[t], k) >= 1;
  }

  lemma AllKnownRecorded(T: Tracks, first: int, now: int, live: seq<seq<Move>>, a: nat)
    requires AllKnown(T, first, now, live) && a < |live| && live[a] != []
    ensures AllKnown(T, first, now, live[a := live[a][1..]])
    ensures Known(T, live[a][0], first) && live[a][0].cycle <= now
  {
    hide Known;
    var r := live[a := live[a][1..]];
    assert forall b, j :: 0 <= b < |r| && 0 <= j < |r[b]| ==> r[b][j] == live[b][if b == a then j + 1 else j];
  }

  lemma LastMoverMore(done: seq<seq<Move>>, so: seq<Move>, m: Move, d: Move)
    ensures LastMover(done + [so + [m]], d) == if d == m then Some(|done|) else LastMover(done + [so], d)
    ensures LastMover(done + [[]], d) == LastMover(done, d)
  {
    assert (done + [so + [m]])[..|done|] == done && (done + [so])[..|done|] == done && (done + [[]])[..|done|] == done;
  }

  lemma BoundsMore(T: Tracks, first: int, gone: iset<Move>, m: Move, t: nat, lo: int, hi: int, c: int)
    requires BoundsOk(T, first, gone, t, lo, hi) && OnTrack(T, first, m, t, c) && 0 <= c < 2147483647
    ensures BoundsOk(T, first, gone + iset{m}, t, if c < lo then c else lo, if c > hi then c else hi)
  {
    hide At;
    forall d
      ensures At(T, first, gone + iset{m}, t, d) <==> At(T, first, gone, t, d) || d == c
    {
      AtMore(T, first, gone, m, t, d);
    }
  }

  lemma AtMore(T: Tracks, first: int, gone: iset<Move>, m: Move, t: nat, c: int)
    ensures At(T, first, gone + iset{m}, t, c) <==> At(T, first, gone, t, c) || OnTrack(T, first, m, t, c)
  {
  }

  lemma BoundsOther(T: Tracks, first: int, gone: iset<Move>, m: Move, t: nat, lo: int, hi: int)
    requires BoundsOk(T, first, gone, t, lo, hi) && m.edgeid in T.base && TrackOf(T, m) != t
    ensures BoundsOk(T, first, gone + iset{m}, t, lo, hi)
  {
    hide At;
    forall d
      ensures At(T, first, gone + iset{m}, t, d) <==> At(T, first, gone, t, d)
    {
      AtMore(T, first, gone, m, t, d);
    }
  }

  /** Recording a move gives its slot the item, takes its cycle into the bounds, and changes
      nothing else. */
  lemma RecordedHolds(T: Tracks, first: int, now: int, live: seq<seq<Move>>, done: seq<seq<Move>>, so: seq<Move>,
                      a: nat)
    requires TracksHold(T, first, now, live, done + [so])
    requires a < |live| && live[a] != [] && |done| < 0x8000_0000 && Known(T, live[a][0], first)
    requires live[a][0].edgeid in T.base && TrackOf(T, live[a][0]) < |T.vecs|
    requires var n, k := T.vecs[TrackOf(T, live[a][0])], ChunkOf(live[a][0].cycle - first);
             Plain(n) && k in n.chunks && !n.chunks[k].dense
    requires TracksOk(MoveRecorded(T, live[a][0], first, |done|).0)
    ensures TracksHold(MoveRecorded(T, live[a][0], first, |done|).0, first, now,
                       live[a := live[a][1..]], done + [so + [live[a][0]]])
  {
    hide TracksOk, Plain, Slot, Known, AllKnown, Touched, BoundsOk, LastMover, Added, DecPending, Moves;
    var m, i, d, r := live[a][0], |done|, done + [so], live[a := live[a][1..]];
    var e := done + [so + [m]];
    var U, n, c := MoveRecorded(T, m, first, i).0, T.vecs[TrackOf(T, m)], m.cycle - first;
    MoveCycle(T, m, first);
    RecordKeeps(n, c, i, 0);
    assert d[i := d[i] + [m]] == e;
    AllKnownRecorded(T, first, now, live, a);
    AllKnownLogged(T, first, now, d, i, m);
    KnownSame(T, U, first, now, r, m);
    KnownSame(T, U, first, now, e, m);
    MoreMoves(d, i, m);
    ShiftMoves(live, a);
    assert Moves(r) + Moves(e) == Moves(live) + Moves(d);
    forall x | Known(U, x, first)
      ensures SlotOk(U, first, e, x)
    {
      KnownSame(T, U, first, now, e, x);
      MoveCycle(T, x, first);
      TracksDistinct(T, m, x);
      RecordSlot(n, c, i, x.cycle - first);
      LastMoverMore(done, so, m, x);
    }
    forall t, k | 0 <= t < |U.vecs| && 0 <= k
      ensures k in U.vecs[t].chunks <==> Touched(U, first, Moves(r) + Moves(e), t, k)
    {
      PlacesSame(T, U, first, Moves(live) + Moves(d), t, k, 0);
      RecordKeeps(n, c, i, k);
    }
    forall t | 0 <= t < |U.vecs|
      ensures BoundsOk(U, first, Moves(e), t, U.vecs[t].first, U.vecs[t].last)
    {
      if t == TrackOf(T, m) {
        BoundsMore(T, first, Moves(d), m, t, n.first, n.last, c);
      } else {
        BoundsOther(T, first, Moves(d), m, t, T.vecs[t].first, T.vecs[t].last);
      }
      BoundsSame(T, U, first, Moves(e), t, U.vecs[t].first, U.vecs[t].last);
    }
  }

  lemma LedgerFirst(T: Tracks, first: int, now: int, live: seq<seq<Move>>, done: seq<seq<Move>>, a: nat)
    requires Ledger(T, first, now, live, done) && a < |live| && live[a] != []
    ensures TracksOk(T) && Known(T, live[a][0], first)
  {
    hide TracksOk, Known;
  }

  /** The first logged move of item a goes over to the tracks; the item that is being
      recorded is the last of done. This always succeeds. */
  lemma LedgerRecord(T: Tracks, first: int, now: int, live: seq<seq<Move>>, done: seq<seq<Move>>, so: seq<Move>, a: nat)
    requires Ledger(T, first, now, live, done + [so])
    requires a < |live| && live[a] != [] && |done| < 0x8000_0000 && Known(T, live[a][0], first)
    ensures var (U, ok) := MoveRecorded(T, live[a][0], first, |done|);
            ok && Ledger(U, first, now, live[a := live[a][1..]], done + [so + [live[a][0]]])
  {
    hide MoveRecorded, TracksHold, Known, Conserved, Writable, Plain;
    LedgerTracks(T, first, now, live, done + [so]);
    RecordedConserved(T, first, now, live, a, |done|);
    PendingChunk(T, first, now, live, a);
    MoveCycle(T, live[a][0], first);
    RecordedHolds(T, first, now, live, done, so, a);
  }

  /** An item whose moves are all recorded leaves the live items. */
  lemma LedgerDrop(T: Tracks, first: int, now: int, live: seq<seq<Move>>, done: seq<seq<Move>>, a: nat)
    requires Ledger(T, first, now, live, done) && a < |live| && live[a] == []
    ensures Ledger(T, first, now, live[..a] + live[a+1..], done)
  {
    hide TracksOk, Known, Writable, Mirrored, Chunked, Bounded;
    var r := live[..a] + live[a+1..];
    DropMoves(live, a);
    assert forall b :: 0 <= b < |r| ==> r[b] == live[if b < a then b else b + 1];
    forall t, k | 0 <= t < |T.vecs| && 0 <= k
      ensures PendingAt(T.vecs[t], k) == Total(T, first, r, t, k)
    {
      TotalRemoved(T, first, live, a, t, k);
    }
  }

  /** An item that starts being recorded has nothing on the tracks. */
  lemma LedgerOpen(T: Tracks, first: int, now: int, live: seq<seq<Move>>, done: seq<seq<Move>>)
    requires Ledger(T, first, now, live, done)
    ensures Ledger(T, first, now, live, done + [[]])
  {
    hide TracksOk, Known, Writable, Conserved, Chunked, Bounded, LastMover, Slot;
    AddMoves(done);
    forall m
      ensures LastMover(done + [[]], m) == LastMover(done, m)
    {
      LastMoverMore(done, [], m, m);
    }
  }

  // ---------------------------------------------------------------- more tracks

  /** U is T with more edges and more tracks, which are empty. */
  ghost predicate Grown(T: Tracks, U: Tracks) {
    && TracksOk(T) && TracksOk(U) && |T.vecs| <= |U.vecs|
    && (forall e :: e in T.bandwidth ==> e in U.bandwidth && U.bandwidth[e] == T.bandwidth[e])
    && (forall e :: e in T.base ==> e in U.base && U.base[e] == T.base[e])
    && (forall e :: e in U.base && e !in T.base ==> |T.vecs| <= U.base[e])
    && (forall t :: 0 <= t < |T.vecs| ==> U.vecs[t] == T.vecs[t])
    && (forall t :: |T.vecs| <= t < |U.vecs| ==> U.vecs[t] == Blank(false, false))
  }

  lemma GrownKnown(T: Tracks, U: Tracks, first: int, m: Move)
    requires Grown(T, U) && Known(T, m, first)
    ensures Known(U, m, first) && TrackOf(U, m) == TrackOf(T, m) < |T.vecs|
  {
  }

  lemma {:induction false} GrownHits(T: Tracks, U: Tracks, first: int, log: seq<Move>, t: nat, k: nat)
    requires Grown(T, U) && forall i :: 0 <= i < |log| ==> Known(T, log[i], first)
    ensures Hits(U, first, log, t, k) == Hits(T, first, log, t, k)
    ensures t >= |T.vecs| ==> Hits(T, first, log, t, k) == 0
  {
    if log != [] {
      hide Grown, Known;
      GrownHits(T, U, first, log[..|log|-1], t, k);
      MoveCycle(T, log[|log|-1], first);
      GrownKnown(T, U, first, log[|log|-1]);
      MoveCycle(U, log[|log|-1], first);
    }
  }

  lemma {:induction false} GrownTotal(T: Tracks, U: Tracks, first: int, now: int, logs: seq<seq<Move>>, t: nat, k: nat)
    requires Grown(T, U) && AllKnown(T, first, now, logs)
    ensures Total(U, first, logs, t, k) == Total(T, first, logs, t, k)
    ensures t >= |T.vecs| ==> Total(T, first, logs, t, k) == 0
  {
    if logs != [] {
      hide Grown, Known;
      GrownTotal(T, U, first, now, logs[..|logs|-1], t, k);
      GrownHits(T, U, first, logs[|logs|-1], t, k);
    }
  }

  /** All these moves were known before. */
  ghost predicate Old(T: Tracks, first: int, all: iset<Move>) {
    forall m :: m in all ==> Known(T, m, first)
  }

  lemma GrownPlaces(T: Tracks, U: Tracks, first: int, all: iset<Move>, t: nat, k: nat, c: int)
    requires Grown(T, U) && Old(T, first, all)
    ensures Touched(U, first, all, t, k) <==> t < |T.vecs| && Touched(T, first, all, t, k)
    ensures At(U, first, all, t, c) <==> t < |T.vecs| && At(T, first, all, t, c)
  {
    hide Grown, Known;
    forall m | m in all
      ensures m.edgeid in T.base && m.edgeid in U.base && TrackOf(U, m) == TrackOf(T, m) < |T.vecs|
    {
      MoveCycle(T, m, first);
      GrownKnown(T, U, first, m);
      MoveCycle(U, m, first);
    }
  }

  lemma AllOld(T: Tracks, first: int, now: int, logs: seq<seq<Move>>)
    requires AllKnown(T, first, now, logs)
    ensures Old(T, first, Moves(logs))
  {
    hide Known, AllKnown;
    forall m | m in Moves(logs)
      ensures Known(T, m, first)
    {
      KnownIn(T, first, now, logs, m);
    }
  }

  /** A move that is new to the tracks has a new track, and nobody made it. */
  lemma GrownSlot(T: Tracks, U: Tracks, first: int, now: int, done: seq<seq<Move>>, m: Move)
    requires Grown(T, U) && AllKnown(T, first, now, done) && Mirrored(T, first, done) && Known(U, m, first)
    ensures SlotOk(U, first, done, m)
  {
    hide AllKnown, LastMover;
    TracksDistinct(U, m, m);
    if Known(T, m, first) {
      GrownKnown(T, U, first, m);
    } else {
      assert m.edgeid !in T.base;
      if LastMover(done, m).Some? {
        assert MoveIn(m, done);
        KnownIn(T, first, now, done, m);
      }
    }
  }

  /** Tracking more edges or nodes keeps the books. */
  lemma LedgerGrown(T: Tracks, U: Tracks, first: int, now: int, live: seq<seq<Move>>, done: seq<seq<Move>>)
    requires Grown(T, U) && Ledger(T, first, now, live, done)
    ensures Ledger(U, first, now, live, done)
  {
    hide Known, Total, TrackOf, Touched, At, Slot, Moves;
    forall m | Known(T, m, first)
      ensures Known(U, m, first)
    {
      GrownKnown(T, U, first, m);
    }
    var gone, all := Moves(done), Moves(live) + Moves(done);
    AllOld(T, first, now, live);
    AllOld(T, first, now, done);
    forall m | Known(U, m, first)
      ensures SlotOk(U, first, done, m)
    {
      GrownSlot(T, U, first, now, done, m);
    }
    forall t, k | 0 <= t < |U.vecs| && 0 <= k
      ensures PendingAt(U.vecs[t], k) == Total(U, first, live, t, k)
      ensures k in U.vecs[t].chunks <==> Touched(U, first, all, t, k)
    {
      GrownTotal(T, U, first, now, live, t, k);
      GrownPlaces(T, U, first, all, t, k, 0);
    }
    forall t, c | 0 <= t < |U.vecs|
      ensures At(U, first, gone, t, c) <==> t < |T.vecs| && At(T, first, gone, t, c)
    {
      GrownPlaces(T, U, first, gone, t, 0, c);
    }
  }
}
