/** The cycle-indexed vector of one tag of one track: chunks of 4096 cycles, looked up in
    two levels. Values hold from their cycle on (forward vectors) or at their cycle only. */
module TagIdVecs {
  import opened TagHistory
  import opened TagVecs

  const TAGIDVECNODE_MAXCHUNKS := 256

  /** The cycles that the table of chunks has room for, from the first one of the trace on. */
  const TAGIDVECNODE_MAXCYCLES := TAGIDVECNODE_MAXCHUNKS * CYCLE_CHUNK_SIZE

  /** A vector: its first and last cycle, its two flags, and its chunks; a chunk that is not
      in the map is one that was never made, and a lookup must not follow its pointer. */
  datatype NodeState = NodeState(first: int, last: int, fwd: bool, dictionary: bool, chunks: map<nat, ChunkState>)

  function Blank(fwd: bool, dictionary: bool): NodeState {
    NodeState(2147483647, -1, fwd, dictionary, map[])
  }

  function ChunkOf(cycle: nat): nat { cycle / CYCLE_CHUNK_SIZE }

  /** The vector with chunk k in place. */
  function Ensured(n: NodeState, k: nat): NodeState {
    if k in n.chunks then n
    else n.(chunks := n.chunks[k := if n.dictionary then BLANK_WORDS else BLANK_ITEMS])
  }

  /** Adds a value; the bounds move even when the chunk takes no more values. */
  function Added(n: NodeState, cycle: nat, v: nat): (NodeState, bool) {
    var k := ChunkOf(cycle);
    var m := Ensured(n.(first := if cycle < n.first then cycle else n.first,
                        last := if cycle > n.last then cycle else n.last), k);
    var a := ChunkAdded(m.chunks[k], cycle, v);
    (m.(chunks := m.chunks[k := a.0]), a.1)
  }

  function IncPending(n: NodeState, cycle: nat): NodeState {
    var m := Ensured(n, ChunkOf(cycle));
    m.(chunks := m.chunks[ChunkOf(cycle) := ChunkInc(m.chunks[ChunkOf(cycle)])])
  }

  function DecPending(n: NodeState, cycle: nat): NodeState {
    var m := Ensured(n, ChunkOf(cycle));
    m.(chunks := m.chunks[ChunkOf(cycle) := ChunkDec(m.chunks[ChunkOf(cycle)])])
  }

  /** The chunk numbers a compression round goes through. */
  function Clamped(k: int): int {
    if k >= TAGIDVECNODE_MAXCHUNKS then TAGIDVECNODE_MAXCHUNKS - 1 else k
  }

  predicate Visited(n: NodeState, cycle: nat, k: nat) {
    Clamped(n.first / CYCLE_CHUNK_SIZE) <= k <= Clamped(ChunkOf(cycle))
  }

  function Compressed(n: NodeState, cycle: nat, last: bool): NodeState {
    n.(chunks := map k | k in n.chunks ::
         if Visited(n, cycle, k) then ChunkCompressed(n.chunks[k], k * CYCLE_CHUNK_SIZE, cycle, last)
         else n.chunks[k])
  }

  // ---------------------------------------------------------------- lookups

  /** Walking from chunk k down to chunk lo meets no missing chunk before it finds a value. */
  predicate WalkOk(n: NodeState, k: int, lo: int, c: nat)
    requires 0 <= lo
    decreases k - lo
  {
    lo <= k ==> k in n.chunks && (ChunkLatest(n.chunks[k], c) == None ==> WalkOk(n, k - 1, lo, c))
  }

  /** The value found by walking from chunk k down to chunk lo. */
  function Walk(n: NodeState, k: int, lo: int, c: nat): Option<nat>
    requires 0 <= lo && WalkOk(n, k, lo, c)
    decreases k - lo
  {
    if k < lo then None
    else if ChunkLatest(n.chunks[k], c) != None then ChunkLatest(n.chunks[k], c)
    else Walk(n, k - 1, lo, c)
  }

  /** The cycle that is looked up in place of c: a forward vector holds its last value. */
  function Held(n: NodeState, c: int): int {
    if n.fwd && c > n.last then n.last else c
  }

  /** A lookup at cycle c meets no missing chunk. */
  predicate Readable(n: NodeState, c: int) {
    && 0 <= n.first
    && (n.first <= c && (n.fwd || c <= n.last) ==>
          var d := Held(n, c);
          && n.first <= d
          && if n.fwd then WalkOk(n, ChunkOf(d), ChunkOf(n.first), d) else ChunkOf(d) in n.chunks)
  }

  /** What a lookup at cycle c gives. */
  function ValueAt(n: NodeState, c: int): Option<nat>
    requires Readable(n, c)
  {
    var d := Held(n, c);
    if c < n.first || (!n.fwd && c > n.last) then None
    else if n.fwd then Walk(n, ChunkOf(d), ChunkOf(n.first), d)
    else ChunkAt(n.chunks[ChunkOf(d)], d)
  }

  /** What a round packs of the chunks it goes through: in the last round, or when the simulation has
      gone far enough beyond the chunk, what is less than half full, or less than three quarters for a
      chunk with a dictionary, and expects no more item indices. */
  lemma PackedRound(n: NodeState, cycle: nat, last: bool, k: nat)
    requires k in n.chunks && 0 <= n.first / 4096 <= k < 256 && k <= cycle / 4096
    ensures var ch, z := n.chunks[k], Compressed(n, cycle, last).chunks[k];
            match ch
            case Items(dense, we, _, values) =>
              && z.Items? && z.values == values
              && (z.dense <==> dense || ((last || (!we && 4096 * (k + 1) < cycle)) && |values| < 2047))
            case Words(frozen, words) =>
              && z.Words? && z.words == words
              && (z.frozen <==> frozen || ((last || 4096 * (k + 1) <= cycle) && |words| < 3072))
  {
  }

  lemma {:induction false} CompressedWalk(n: NodeState, cycle: nat, last: bool, k: int, lo: int, c: nat)
    requires 0 <= lo
    ensures var z := Compressed(n, cycle, last);
            && (WalkOk(z, k, lo, c) <==> WalkOk(n, k, lo, c))
            && (WalkOk(n, k, lo, c) ==> Walk(z, k, lo, c) == Walk(n, k, lo, c))
    decreases k - lo
  {
    if lo <= k {
      CompressedWalk(n, cycle, last, k - 1, lo, c);
      if k in n.chunks {
      }
    }
  }

  /** A chunk that is put in place holds nothing: lookups that meet no missing chunk give the same,
      and the chunk is there. */
  lemma EnsuredAnswers(n: NodeState, k: nat, c: int)
    requires 0 <= n.first
    ensures k in Ensured(n, k).chunks && Ensured(n, k).chunks.Keys == n.chunks.Keys + {k}
    ensures forall j :: j in n.chunks ==> Ensured(n, k).chunks[j] == n.chunks[j]
    ensures k !in n.chunks ==> forall d: nat :: ChunkLatest(Ensured(n, k).chunks[k], d) == None
    ensures Readable(n, c) ==> Readable(Ensured(n, k), c) && ValueAt(Ensured(n, k), c) == ValueAt(n, c)
  {
    var d := Held(n, c);
    if n.fwd && n.first <= d && Readable(n, c) {
      EnsuredWalk(n, k, ChunkOf(d), ChunkOf(n.first), d);
    }
  }

  lemma {:induction false} EnsuredWalk(n: NodeState, k: nat, j: int, lo: int, c: nat)
    requires 0 <= lo && WalkOk(n, j, lo, c)
    ensures WalkOk(Ensured(n, k), j, lo, c) && Walk(Ensured(n, k), j, lo, c) == Walk(n, j, lo, c)
    decreases j - lo
  {
    if lo <= j && ChunkLatest(n.chunks[j], c) == None {
      EnsuredWalk(n, k, j - 1, lo, c);
    }
  }

  /** A compression round changes no answer at any cycle. */
  lemma CompressedAnswers(n: NodeState, cycle: nat, last: bool, c: int)
    requires 0 <= n.first
    ensures Readable(Compressed(n, cycle, last), c) <==> Readable(n, c)
    ensures Readable(n, c) ==> ValueAt(Compressed(n, cycle, last), c) == ValueAt(n, c)
  {
    var d := Held(n, c);
    if n.first <= d {
      CompressedWalk(n, cycle, last, ChunkOf(d), ChunkOf(n.first), d);
      if ChunkOf(d) in n.chunks {
      }
    }
  }

  // ---------------------------------------------------------------- the vector

  class TagIdVecNode {
    var cycleVec: map<nat, ChunkState>
    var firstCycle: int
    var lastCycle: int
    var isFwd: bool
    var useDictionary: bool

    function State(): NodeState
      reads this
    {
      NodeState(firstCycle, lastCycle, isFwd, useDictionary, cycleVec)
    }

    constructor (fwd: bool, dictionary: bool)
      ensures State() == Blank(fwd, dictionary)
    {
      firstCycle, lastCycle, isFwd, useDictionary, cycleVec := 2147483647, -1, fwd, dictionary, map[];
    }

    /** Puts chunk k in place; the table has room for 256 of them. */
    method CheckCycleChunk(k: nat)
      requires k < TAGIDVECNODE_MAXCHUNKS
      modifies this
      ensures State() == Ensured(old(State()), k)
    {
      if k !in cycleVec {
        cycleVec := cycleVec[k := if useDictionary then BLANK_WORDS else BLANK_ITEMS];
      }
    }

    method AddTagValue(cycle: nat, value: nat) returns (r: bool)
      requires cycle < TAGIDVECNODE_MAXCYCLES
      modifies this
      ensures (State(), r) == Added(old(State()), cycle, value)
    {
      lastCycle := if cycle > lastCycle then cycle else lastCycle;
      firstCycle := if cycle < firstCycle then cycle else firstCycle;
      var k := ChunkOf(cycle);
      CheckCycleChunk(k);
      var (ch, ok) := ChunkAdded(cycleVec[k], cycle, value);
      cycleVec := cycleVec[k := ch];
      r := ok;
    }

    method IncPendingCnt(cycle: nat)
      requires cycle < TAGIDVECNODE_MAXCYCLES
      modifies this
      ensures State() == IncPending(old(State()), cycle)
    {
      var k := ChunkOf(cycle);
      CheckCycleChunk(k);
      cycleVec := cycleVec[k := ChunkInc(cycleVec[k])];
    }

    method DecPendingCnt(cycle: nat)
      requires cycle < TAGIDVECNODE_MAXCYCLES
      modifies this
      ensures State() == DecPending(old(State()), cycle)
    {
      var k := ChunkOf(cycle);
      CheckCycleChunk(k);
      cycleVec := cycleVec[k := ChunkDec(cycleVec[k])];
    }

    /** Looks up the natural chunk; a forward vector then looks back. */
    method GetTagValue(c: int) returns (r: Option<nat>)
      requires Readable(State(), c)
      ensures r == ValueAt(State(), c)
    {
      var cycle := c;
      if cycle < firstCycle {
        return None;
      }
      if cycle > lastCycle {
        if !isFwd {
          return None;
        }
        cycle := lastCycle;
      }
      var cycleChunk: int := ChunkOf(cycle);
      if !isFwd {
        return ChunkAt(cycleVec[cycleChunk], cycle);
      }
      r := ChunkLatest(cycleVec[cycleChunk], cycle);
      var k: int := cycleChunk - 1;
      var minChunk := ChunkOf(firstCycle);
      while r == None && k >= minChunk
        invariant r != None ==> r == ValueAt(State(), c)
        invariant r == None ==> WalkOk(State(), k, minChunk, cycle)
                                && Walk(State(), k, minChunk, cycle) == ValueAt(State(), c)
        decreases k - minChunk, r == None
      {
        r := ChunkLatest(cycleVec[k], cycle);
        k := k - 1;
      }
    }

    /** Replaces the chunks up to the given cycle by their compressed forms. */
    method CompressYourSelf(cycle: nat, last: bool)
      requires 0 <= firstCycle
      modifies `cycleVec
      ensures State() == Compressed(old(State()), cycle, last)
      ensures forall k :: k in old(cycleVec) && k >= 256 ==> k in cycleVec && cycleVec[k] == old(cycleVec)[k]
    {
      ghost var n := State();
      var firstChunk := Clamped(firstCycle / CYCLE_CHUNK_SIZE);
      var lastChunk := Clamped(ChunkOf(cycle));
      var i := firstChunk;
      while i <= lastChunk
        invariant firstChunk <= i && (i <= lastChunk + 1 || i == firstChunk)
        invariant cycleVec.Keys == n.chunks.Keys
        invariant forall k :: k in n.chunks ==>
                    cycleVec[k] == if firstChunk <= k < i
                                   then ChunkCompressed(n.chunks[k], k * CYCLE_CHUNK_SIZE, cycle, last)
                                   else n.chunks[k]
      {
        if i in cycleVec {
          cycleVec := cycleVec[i := ChunkCompressed(cycleVec[i], i * CYCLE_CHUNK_SIZE, cycle, last)];
        }
        i := i + 1;
      }
      assert cycleVec == Compressed(n, cycle, last).chunks;
    }
  }

  // ---------------------------------------------------------------- vectors over a run

  /** What happens to a vector: a write, or a compression round. */
  datatype Step = Write(x: Stamp) | Round(at: nat)

  /** A vector after these steps. */
  function After(fwd: bool, dictionary: bool, steps: seq<Step>): NodeState {
    if steps == [] then Blank(fwd, dictionary)
    else
      var n := After(fwd, dictionary, steps[..|steps|-1]);
      match steps[|steps|-1]
      case Write(x) => Added(n, x.cycle, x.value).0
      case Round(at) => Compressed(n, at, false)
  }

  /** The writes among the steps. */
  function Writes(steps: seq<Step>): seq<Stamp> {
    if steps == [] then []
    else
      match steps[|steps|-1]
      case Write(x) => Writes(steps[..|steps|-1]) + [x]
      case Round(_) => Writes(steps[..|steps|-1])
  }

  function CycleOf(s: Step): nat {
    match s
    case Write(x) => x.cycle
    case Round(at) => at
  }

  /** Cycles do not go back, and writes are in the first 2^20 cycles, for which there is room. */
  ghost predicate InOrder(steps: seq<Step>) {
    && (forall i, j :: 0 <= i < j < |steps| ==> CycleOf(steps[i]) <= CycleOf(steps[j]))
    && (forall i :: 0 <= i < |steps| && steps[i].Write? ==> CycleOf(steps[i]) < 0x10_0000)
  }

  /** The writes that fall into chunk k. */
  function Part(ws: seq<Stamp>, k: int): seq<Stamp> {
    if ws == [] then []
    else Part(ws[..|ws|-1], k) + (if ChunkOf(ws[|ws|-1].cycle) == k then [ws[|ws|-1]] else [])
  }

  /** The writes that fall into chunks up to k. */
  function Upto(ws: seq<Stamp>, k: int): seq<Stamp> {
    if ws == [] then []
    else Upto(ws[..|ws|-1], k) + (if ChunkOf(ws[|ws|-1].cycle) <= k then [ws[|ws|-1]] else [])
  }

  /** The vector holds the writes ws; a chunk that takes no more words lies behind cycle now. */
  ghost predicate Holds(n: NodeState, ws: seq<Stamp>, now: int) {
    && n.dictionary
    && (if ws == [] then n.first == 2147483647 && n.last == -1
        else n.first == ws[0].cycle && n.last == ws[|ws|-1].cycle <= now)
    && (forall k :: k in n.chunks <==> k >= 0 && Part(ws, k) != [])
    && (forall k :: k in n.chunks ==> ChunkHolds(n.chunks[k], ws, k, now))
  }

  ghost predicate ChunkHolds(ch: ChunkState, ws: seq<Stamp>, k: int, now: int) {
    && ch.Words? && ch.words == Folded([], Part(ws, k), true)
    && (ch.frozen ==> (k + 1) * CYCLE_CHUNK_SIZE <= now)
  }

  lemma PartStep(ws: seq<Stamp>)
    requires ws != []
    ensures var g, x := ws[..|ws|-1], ws[|ws|-1];
            forall j :: Part(ws, j) == if j == ChunkOf(x.cycle) then Part(g, j) + [x] else Part(g, j)
  {
  }

  /** What the chunk of a write holds afterwards. */
  lemma WordAdded(g: seq<Stamp>, x: Stamp, k: int)
    ensures Extended(Folded([], Part(g, k), true), x, true) == Folded([], Part(g, k) + [x], true)
    ensures Part(g, k) == [] ==> Extended([], x, true) == Folded([], Part(g, k) + [x], true)
  {
    FoldedOne([], Part(g, k), x, true);
  }

  /** What a write does to the chunks of a forward vector. */
  lemma AddedWords(n: NodeState, c: nat, v: nat, k: int)
    requires n.dictionary && (ChunkOf(c) in n.chunks ==> n.chunks[ChunkOf(c)].Words? && !n.chunks[ChunkOf(c)].frozen)
    ensures var m, w := Added(n, c, v).0, ChunkOf(c);
            && m.fwd == n.fwd && m.dictionary
            && m.first == (if c < n.first then c else n.first) && m.last == (if c > n.last then c else n.last)
            && (k in m.chunks <==> k in n.chunks || k == w)
            && (k in n.chunks && k != w ==> m.chunks[k] == n.chunks[k])
            && w in m.chunks
            && m.chunks[w] == Words(false, Extended(if w in n.chunks then n.chunks[w].words else [], Stamp(c, v), true))
  {
    hide Extended;
  }

  lemma NotFrozen(ch: ChunkState, ws: seq<Stamp>, c: nat, now: int)
    requires ChunkHolds(ch, ws, ChunkOf(c), now) && now <= c
    ensures ch.Words? && !ch.frozen
  {
  }

  lemma LaterHolds(ch: ChunkState, ws: seq<Stamp>, ws': seq<Stamp>, k: int, now: int, now': int)
    requires ChunkHolds(ch, ws, k, now) && now <= now' && Part(ws', k) == Part(ws, k)
    ensures ChunkHolds(ch, ws', k, now')
  {
  }

  /** One more write. */
  lemma HoldsWrite(n: NodeState, g: seq<Stamp>, now: int, x: Stamp)
    requires Holds(n, g, now) && now <= x.cycle < 2147483647 && (g != [] ==> g[0].cycle <= x.cycle)
    ensures Holds(Added(n, x.cycle, x.value).0, g + [x], x.cycle)
  {
    hide Folded, Extended, Part, ChunkOf, Added, ChunkHolds;
    var ws, m, w := g + [x], Added(n, x.cycle, x.value).0, ChunkOf(x.cycle);
    assert ws[..|g|] == g;
    PartStep(ws);
    WordAdded(g, x, w);
    if w in n.chunks {
      NotFrozen(n.chunks[w], g, x.cycle, now);
    }
    AddedWords(n, x.cycle, x.value, w);
    forall k | true
      ensures k in m.chunks <==> k >= 0 && Part(ws, k) != []
      ensures k in m.chunks ==> ChunkHolds(m.chunks[k], ws, k, x.cycle)
    {
      AddedWords(n, x.cycle, x.value, k);
      if k == w {
        WrittenHolds(n, m.chunks[w], g, x, now);
      } else if k in n.chunks {
        LaterHolds(n.chunks[k], g, ws, k, now, x.cycle);
      }
    }
  }

  /** The chunk of a write holds it. */
  lemma WrittenHolds(n: NodeState, ch: ChunkState, g: seq<Stamp>, x: Stamp, now: int)
    requires Holds(n, g, now)
    requires var w := ChunkOf(x.cycle);
             var had := if w in n.chunks && n.chunks[w].Words? then n.chunks[w].words else [];
             ch == Words(false, Extended(had, x, true))
    ensures ChunkHolds(ch, g + [x], ChunkOf(x.cycle), x.cycle)
  {
    hide Folded, Extended, Part, ChunkOf;
    var w := ChunkOf(x.cycle);
    assert (g + [x])[..|g|] == g;
    PartStep(g + [x]);
    WordAdded(g, x, w);
  }

  /** A round freezes only chunks that lie behind. */
  lemma HoldsRound(n: NodeState, ws: seq<Stamp>, now: int, at: nat)
    requires Holds(n, ws, now) && now <= at
    ensures Holds(Compressed(n, at, false), ws, at)
  {
    hide Folded, Part;
  }

  lemma NoneHeld(fwd: bool)
    ensures Holds(After(fwd, true, []), [], -1)
  {
  }

  lemma {:induction false} WritesOrdered(steps: seq<Step>)
    requires InOrder(steps)
    ensures Chronological(Writes(steps))
    ensures forall i :: 0 <= i < |Writes(steps)| ==> Writes(steps)[i].cycle < 0x10_0000
    ensures steps != [] ==> forall i :: 0 <= i < |Writes(steps)| ==> Writes(steps)[i].cycle <= CycleOf(steps[|steps|-1])
  {
    if steps != [] {
      WritesOrdered(steps[..|steps|-1]);
    }
  }

  lemma {:induction false} AfterHolds(fwd: bool, steps: seq<Step>)
    requires InOrder(steps)
    ensures Holds(After(fwd, true, steps), Writes(steps), if steps == [] then -1 else CycleOf(steps[|steps|-1]))
    ensures After(fwd, true, steps).fwd == fwd && Chronological(Writes(steps))
    ensures forall i :: 0 <= i < |Writes(steps)| ==> Writes(steps)[i].cycle < 0x10_0000
  {
    hide Added, Compressed, Holds;
    WritesOrdered(steps);
    if steps == [] {
      NoneHeld(fwd);
    } else {
      var g, e := steps[..|steps|-1], steps[|steps|-1];
      var n := After(fwd, true, g);
      AfterHolds(fwd, g);
      var now := if g == [] then -1 else CycleOf(g[|g|-1]);
      match e
      case Write(x) =>
        WritesOrdered(g);
        FlagsStay(n, x.cycle, x.value, 0);
        HoldsWrite(n, Writes(g), now, x);
      case Round(at) =>
        FlagsStay(n, 0, 0, at);
        HoldsRound(n, Writes(g), now, at);
    }
  }

  lemma FlagsStay(n: NodeState, c: nat, v: nat, at: nat)
    ensures Added(n, c, v).0.fwd == n.fwd == Compressed(n, at, false).fwd
  {
  }

  lemma {:induction false} PartsOrdered(ws: seq<Stamp>, k: int)
    ensures forall i :: 0 <= i < |Part(ws, k)| ==> Part(ws, k)[i] in ws && ChunkOf(Part(ws, k)[i].cycle) == k
    ensures Chronological(ws) ==> Chronological(Part(ws, k))
  {
    if ws != [] {
      var g := ws[..|ws|-1];
      PartsOrdered(g, k);
    }
  }

  lemma ChunksOrdered(a: nat, b: nat)
    requires a <= b
    ensures ChunkOf(a) <= ChunkOf(b)
  {
  }

  lemma {:induction false} PartNone(ws: seq<Stamp>, k: int)
    requires forall i :: 0 <= i < |ws| ==> ChunkOf(ws[i].cycle) != k
    ensures Part(ws, k) == []
  {
    if ws != [] {
      PartNone(ws[..|ws|-1], k);
    }
  }

  lemma {:induction false} UptoSplit(ws: seq<Stamp>, k: int)
    requires Chronological(ws)
    ensures Upto(ws, k) == Upto(ws, k - 1) + Part(ws, k)
  {
    if ws != [] {
      var g, x := ws[..|ws|-1], ws[|ws|-1];
      UptoSplit(g, k);
      if ChunkOf(x.cycle) < k {
        forall i | 0 <= i < |g|
          ensures ChunkOf(g[i].cycle) != k
        {
          ChunksOrdered(ws[i].cycle, x.cycle);
        }
        PartNone(g, k);
      }
    }
  }

  lemma {:induction false} UptoNone(ws: seq<Stamp>, k: int)
    requires forall i :: 0 <= i < |ws| ==> ChunkOf(ws[i].cycle) > k
    ensures Upto(ws, k) == []
  {
    if ws != [] {
      UptoNone(ws[..|ws|-1], k);
    }
  }

  lemma {:induction false} LatestConcat(a: seq<Stamp>, b: seq<Stamp>, c: nat)
    ensures Latest(a + b, c) == if Latest(b, c) != None then Latest(b, c) else Latest(a, c)
  {
    if b == [] {
      assert a + b == a;
    } else {
      assert (a + b)[..|a + b|-1] == a + b[..|b|-1];
      LatestConcat(a, b[..|b|-1], c);
    }
  }

  /** Writes in chunks beyond that of c do not count. */
  lemma {:induction false} LatestUpto(ws: seq<Stamp>, c: nat)
    ensures Latest(Upto(ws, ChunkOf(c)), c) == Latest(ws, c)
  {
    if ws != [] {
      var g, x := ws[..|ws|-1], ws[|ws|-1];
      LatestUpto(g, c);
      if ChunkOf(x.cycle) <= ChunkOf(c) {
        LatestConcat(Upto(g, ChunkOf(c)), [x], c);
        LatestConcat(g, [x], c);
        assert ws == g + [x];
      } else {
        assert Upto(ws, ChunkOf(c)) == Upto(g, ChunkOf(c));
      }
    }
  }

  /** Dropping repeated words does not change a forward lookup. */
  lemma LatestFolded(xs: seq<Stamp>, c: nat)
    requires Chronological(xs)
    ensures ValueOf(Latest(Folded([], xs, true), c)) == ValueOf(Latest(xs, c))
  {
    hide Latest, Folded;
    assert [] + xs == xs;
    FoldedSame([], [], xs);
    SameLatest(Folded([], xs, true), xs, c);
  }

  lemma SameLatest(g: seq<Stamp>, h: seq<Stamp>, c: nat)
    requires SameValues(g, h) && Chronological(g) && Chronological(h)
    ensures ValueOf(Latest(g, c)) == ValueOf(Latest(h, c))
  {
    hide Latest;
    LatestIs(g, c);
    LatestIs(h, c);
    if h != [] {
      LatestSome(g, c);
      LatestSome(h, c);
    }
  }

  lemma LatestSome(h: seq<Stamp>, c: nat)
    requires Chronological(h) && h != []
    ensures Latest(h, c) != None <==> h[0].cycle <= c
  {
    LatestIs(h, c);
  }

  /** The walk finds the latest write of the chunks it goes through. */
  lemma {:induction false} WalkLatest(n: NodeState, ws: seq<Stamp>, now: int, k: int, c: nat)
    requires Holds(n, ws, now) && Chronological(ws) && ws != []
    requires WalkOk(n, k, ChunkOf(ws[0].cycle), c)
    ensures Walk(n, k, ChunkOf(ws[0].cycle), c) == ValueOf(Latest(Upto(ws, k), c))
    decreases k - ChunkOf(ws[0].cycle)
  {
    hide Latest, Folded, Upto, Part;
    var lo := ChunkOf(ws[0].cycle);
    if k < lo {
      forall i | 0 <= i < |ws|
        ensures ChunkOf(ws[i].cycle) > k
      {
        ChunksOrdered(ws[0].cycle, ws[i].cycle);
      }
      UptoNone(ws, k);
      LatestIs(Upto(ws, k), c);
    } else {
      PartsOrdered(ws, k);
      LatestFolded(Part(ws, k), c);
      UptoSplit(ws, k);
      LatestConcat(Upto(ws, k - 1), Part(ws, k), c);
      if ChunkLatest(n.chunks[k], c) == None {
        WalkLatest(n, ws, now, k - 1, c);
      }
    }
  }

  /** A forward vector answers every lookup with the latest write at or before the cycle, over all
      chunks and whatever rounds came in between, as long as the walk back meets no missing chunk. */
  lemma ForwardAnswers(steps: seq<Step>, c: nat)
    requires InOrder(steps) && Readable(After(true, true, steps), c)
    ensures ValueAt(After(true, true, steps), c) == ValueOf(Latest(Writes(steps), c))
  {
    hide After, Writes, InOrder, WalkOk, Walk;
    var n, ws := After(true, true, steps), Writes(steps);
    AfterHolds(true, steps);
    if ws != [] && ws[0].cycle <= c {
      var d := Held(n, c);
      WalkLatest(n, ws, if steps == [] then -1 else CycleOf(steps[|steps|-1]), ChunkOf(d), d);
      LatestUpto(ws, d);
    } else if ws != [] {
      LatestSome(ws, c);
    }
  }

  /** When the walk back meets no missing chunk: the natural chunk has been written to, and
      if that was only after the cycle, so has the chunk before it. */
  lemma ForwardReadable(steps: seq<Step>, c: nat)
    requires InOrder(steps)
    requires Writes(steps) != [] && Writes(steps)[0].cycle <= c
    ensures var ws := Writes(steps);
            var d := if c > ws[|ws|-1].cycle then ws[|ws|-1].cycle else c;
            var k, lo := d / 4096, ws[0].cycle / 4096;
            && (Readable(After(true, true, steps), c)
                <==> Part(ws, k) != [] && (Part(ws, k)[0].cycle <= d || k == lo || Part(ws, k - 1) != []))
  {
    hide Latest, Folded, After, Part, Writes, InOrder, ChunkHolds;
    var n, ws := After(true, true, steps), Writes(steps);
    var now := if steps == [] then -1 else CycleOf(steps[|steps|-1]);
    AfterHolds(true, steps);
    var d := if c > ws[|ws|-1].cycle then ws[|ws|-1].cycle else c;
    var k: int, lo: int := ChunkOf(d), ChunkOf(ws[0].cycle);
    ChunksOrdered(ws[0].cycle, d);
    ChunkKnows(n, ws, now, k, d);
    ChunkKnows(n, ws, now, k - 1, d);
    if k > lo && Part(ws, k - 1) != [] {
      PartsOrdered(ws, k - 1);
    }
    assert lo <= k && n.first == ws[0].cycle && Held(n, c) == d;
    assert WalkOk(n, k, lo, d) <==>
      k in n.chunks && (ChunkLatest(n.chunks[k], d) != None || WalkOk(n, k - 1, lo, d));
    assert k > lo ==> (WalkOk(n, k - 1, lo, d) <==> k - 1 in n.chunks);
  }

  /** Writes in cycles 0 and 8192 leave out a chunk: a lookup in it meets a missing one. */
  lemma ForwardGap(v: nat, w: nat)
    ensures var steps := [Write(Stamp(0, v)), Write(Stamp(8192, w))];
            InOrder(steps) && !Readable(After(true, true, steps), 5000)
  {
    hide After, Readable, Writes, Part;
    var steps := [Write(Stamp(0, v)), Write(Stamp(8192, w))];
    TwoWrites(Stamp(0, v), Stamp(8192, w));
    PartNone(Writes(steps), 1);
    ForwardReadable(steps, 5000);
  }

  lemma TwoWrites(x: Stamp, y: Stamp)
    ensures Writes([Write(x), Write(y)]) == [x, y]
  {
    assert [Write(x), Write(y)][..1] == [Write(x)];
    assert Writes([Write(x)]) == [x];
  }

  /** A chunk of a forward vector has a value at or before c exactly when its first write is. */
  lemma ChunkKnows(n: NodeState, ws: seq<Stamp>, now: int, k: int, c: nat)
    requires Holds(n, ws, now) && Chronological(ws)
    ensures k in n.chunks <==> k >= 0 && Part(ws, k) != []
    ensures k in n.chunks ==> (ChunkLatest(n.chunks[k], c) != None <==> Part(ws, k)[0].cycle <= c)
  {
    if k in n.chunks {
      PartsOrdered(ws, k);
      LatestFolded(Part(ws, k), c);
      LatestSome(Part(ws, k), c);
    }
  }

  // ---------------------------------------------------------------- exact vectors with a dictionary

  /** Write i of a chunk is kept: it does not repeat the value of the write before it. */
  predicate KeptWrite(xs: seq<Stamp>, i: nat)
    requires i < |xs|
  {
    i == 0 || xs[i-1].value != xs[i].value
  }

  /** Write i is the first one of cycle c that is kept. */
  ghost predicate FirstKept(xs: seq<Stamp>, c: nat, i: nat) {
    && i < |xs| && xs[i].cycle == c && KeptWrite(xs, i)
    && forall j :: 0 <= j < i && xs[j].cycle == c ==> !KeptWrite(xs, j)
  }

  lemma FindMore(h: seq<Stamp>, x: Stamp, c: nat)
    ensures Find(h + [x], c)
         == if Find(h, c) != None then Find(h, c) else if x.cycle == c then Some(x.value) else None
  {
    if h == [] {
      assert (h + [x])[1..] == [];
    } else if h[0].cycle != c {
      FindMore(h[1..], x, c);
      assert (h + [x])[1..] == h[1..] + [x];
    }
  }

  /** An exact lookup among the kept writes. */
  lemma {:induction false} FindKept(xs: seq<Stamp>, c: nat)
    ensures var h := Folded([], xs, true);
            && (h == [] <==> xs == []) && (xs != [] ==> h[|h|-1].value == xs[|xs|-1].value)
            && (Find(h, c) == None <==> forall i :: 0 <= i < |xs| && xs[i].cycle == c ==> !KeptWrite(xs, i))
            && (forall i :: 0 <= i < |xs| && FirstKept(xs, c, i) ==> Find(h, c) == Some(xs[i].value))
  {
    if xs != [] {
      hide Folded, Find;
      var n := |xs| - 1;
      var g, x := xs[..n], xs[n];
      FindKept(g, c);
      assert xs == g + [x];
      FoldedOne([], g, x, true);
      FindMore(Folded([], g, true), x, c);
      assert forall i :: 0 <= i < n ==> KeptWrite(xs, i) == KeptWrite(g, i);
      forall i | 0 <= i < |xs| && FirstKept(xs, c, i)
        ensures Find(Folded([], xs, true), c) == Some(xs[i].value)
      {
        assert i < n ==> FirstKept(g, c, i);
      }
    } else {
      assert Folded([], xs, true) == [];
    }
  }

  /** An exact vector with a dictionary, as the tags of cycles have it: a cycle that was not written
      gives nothing. A written one gives the first value written in it that does not repeat the value
      before it in its chunk of 4096 cycles, and nothing when all of them do. */
  lemma ExactAnswers(steps: seq<Step>, c: nat)
    requires InOrder(steps) && Readable(After(false, true, steps), c)
    ensures var r, xs := ValueAt(After(false, true, steps), c), Part(Writes(steps), c / 4096);
            && (r == None <==> forall i :: 0 <= i < |xs| && xs[i].cycle == c ==> !KeptWrite(xs, i))
            && (forall i :: 0 <= i < |xs| && FirstKept(xs, c, i) ==> r == Some(xs[i].value))
    ensures (forall i :: 0 <= i < |Writes(steps)| ==> Writes(steps)[i].cycle != c) ==>
              ValueAt(After(false, true, steps), c) == None
  {
    hide After, Writes, InOrder, Folded, Find, Part;
    var n, ws, k := After(false, true, steps), Writes(steps), ChunkOf(c);
    AfterHolds(false, steps);
    PartsOrdered(ws, k);
    if ws == [] {
      PartNone(ws, k);
    } else if c < ws[0].cycle || ws[|ws|-1].cycle < c {
      forall i | 0 <= i < |Part(ws, k)|
        ensures Part(ws, k)[i].cycle != c
      {
        assert Part(ws, k)[i] in ws;
      }
    }
    FindKept(Part(ws, k), c);
  }

  /** A lookup between the first and the last write meets a missing chunk exactly when nothing was
      written in its 4096 cycles. */
  lemma ExactReadable(steps: seq<Step>, c: nat)
    requires InOrder(steps)
    ensures var ws := Writes(steps);
            Readable(After(false, true, steps), c)
            <==> ws == [] || c < ws[0].cycle || ws[|ws|-1].cycle < c || Part(ws, c / 4096) != []
  {
    hide After, Writes, InOrder, Part, ChunkHolds;
    AfterHolds(false, steps);
  }

  // ---------------------------------------------------------------- vectors of item indices

  /** The last value written in cycle c. */
  function WrittenAt(ws: seq<Stamp>, c: int): Option<nat> {
    if ws == [] then None
    else if ws[|ws|-1].cycle == c then Some(ws[|ws|-1].value)
    else WrittenAt(ws[..|ws|-1], c)
  }

  /** A slot has 31 bits for a value. */
  function Cut(v: Option<nat>): Option<nat> {
    match v case None => None case Some(x) => Some(x % 0x8000_0000)
  }

  /** A chunk of item indices on which no move is pending holds the values of its cycles; it is not packed. */
  ghost predicate SlotsHold(ch: ChunkState, ws: seq<Stamp>, k: nat) {
    && ch.Items? && !ch.dense && ch.we
    && forall c: nat :: ChunkAt(ch, c) == if ChunkOf(c) == k then Cut(WrittenAt(ws, c)) else None
  }

  ghost predicate HoldsItems(n: NodeState, ws: seq<Stamp>) {
    && !n.dictionary
    && (if ws == [] then n.first == 2147483647 && n.last == -1
        else n.first == ws[0].cycle && n.last == ws[|ws|-1].cycle)
    && (forall k :: k in n.chunks ==> SlotsHold(n.chunks[k], ws, k))
    && (forall c: nat :: ChunkOf(c) !in n.chunks ==> WrittenAt(ws, c) == None)
  }

  lemma ItemsWrite(n: NodeState, g: seq<Stamp>, x: Stamp)
    requires HoldsItems(n, g) && x.cycle < 2147483647
    requires g != [] ==> g[0].cycle <= x.cycle && g[|g|-1].cycle <= x.cycle
    ensures HoldsItems(Added(n, x.cycle, x.value).0, g + [x])
  {
    var ws, m, w := g + [x], Added(n, x.cycle, x.value).0, ChunkOf(x.cycle);
    assert ws[..|g|] == g;
    forall k | k in m.chunks
      ensures SlotsHold(m.chunks[k], ws, k)
    {
      assert k != w ==> m.chunks[k] == n.chunks[k];
    }
  }

  lemma ItemsRound(n: NodeState, ws: seq<Stamp>, at: nat)
    requires HoldsItems(n, ws)
    ensures HoldsItems(Compressed(n, at, false), ws)
  {
    assert forall k :: k in n.chunks ==> Compressed(n, at, false).chunks[k] == n.chunks[k];
  }

  lemma {:induction false} AfterItems(fwd: bool, steps: seq<Step>)
    requires InOrder(steps)
    ensures HoldsItems(After(fwd, false, steps), Writes(steps)) && After(fwd, false, steps).fwd == fwd
  {
    if steps != [] {
      hide Added, Compressed, HoldsItems;
      var g, e := steps[..|steps|-1], steps[|steps|-1];
      var n := After(fwd, false, g);
      AfterItems(fwd, g);
      match e
      case Write(x) =>
        WritesOrdered(g);
        FlagsStay(n, x.cycle, x.value, 0);
        ItemsWrite(n, Writes(g), x);
      case Round(at) =>
        FlagsStay(n, 0, 0, at);
        ItemsRound(n, Writes(g), at);
    } else {
      NothingWritten(fwd);
    }
  }

  lemma NothingWritten(fwd: bool)
    ensures HoldsItems(After(fwd, false, []), Writes([]))
  {
  }

  /** Chunks before that of the cycle have nothing of it. */
  lemma {:induction false} WalkItems(n: NodeState, ws: seq<Stamp>, k: int, lo: int, c: nat)
    requires HoldsItems(n, ws) && 0 <= lo && WalkOk(n, k, lo, c)
    ensures Walk(n, k, lo, c) == if lo <= ChunkOf(c) <= k then Cut(WrittenAt(ws, c)) else None
    decreases k - lo
  {
    if lo <= k {
      assert SlotsHold(n.chunks[k], ws, k);
      assert ChunkLatest(n.chunks[k], c) == ChunkAt(n.chunks[k], c);
      if ChunkLatest(n.chunks[k], c) == None {
        WalkItems(n, ws, k - 1, lo, c);
      }
    }
  }

  lemma {:induction false} WrittenInside(ws: seq<Stamp>, c: int)
    requires Chronological(ws)
    ensures WrittenAt(ws, c).Some? ==> ws != [] && ws[0].cycle <= c <= ws[|ws|-1].cycle
  {
    if ws != [] {
      WrittenInside(ws[..|ws|-1], c);
    }
  }

  /** A vector of item indices only knows the cycles that were written, by the last value written in
      each; a forward one gives what it has of its last cycle for the cycles behind it. */
  lemma ItemAnswers(fwd: bool, steps: seq<Step>, c: nat)
    requires InOrder(steps) && Readable(After(fwd, false, steps), c)
    ensures var ws := Writes(steps);
            var d := if fwd && ws != [] && ws[|ws|-1].cycle < c then ws[|ws|-1].cycle else c;
            ValueAt(After(fwd, false, steps), c) == Cut(WrittenAt(ws, d))
  {
    hide After, Writes, InOrder, WalkOk, Walk;
    var n, ws := After(fwd, false, steps), Writes(steps);
    AfterItems(fwd, steps);
    WritesOrdered(steps);
    var d := if fwd && ws != [] && ws[|ws|-1].cycle < c then ws[|ws|-1].cycle else c;
    WrittenInside(ws, d);
    if ws != [] && n.first <= c && (fwd || c <= n.last) {
      assert Held(n, c) == d;
      if fwd {
        ChunksOrdered(ws[0].cycle, d);
        WalkItems(n, ws, ChunkOf(d), ChunkOf(n.first), d);
      } else {
        assert SlotsHold(n.chunks[ChunkOf(d)], ws, ChunkOf(d));
      }
    }
  }
}
