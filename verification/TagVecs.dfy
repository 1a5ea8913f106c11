/** The chunks of a cycle-indexed vector: 4096 consecutive cycles of one tag of one track.
    A chunk stands for the values it holds, stamped with their cycles; packing a chunk into
    a dense form must not change what it stands for. */
module TagVecs {
  import opened TagHistory

  const CYCLE_CHUNK_SIZE := 4096

  /** A slot of the direct form, one per cycle. */
  datatype TagVecItemIdxNode = TagVecItemIdxNode(value: nat, used: bool)

  /** An entry of a packed form or of a dictionary form: a value and its offset. */
  datatype DenseNode = DenseNode(value: nat, offset: nat)

  // ---------------------------------------------------------------- the two kinds of lookup

  /** The first value stamped with cycle c. */
  function Find(h: seq<Stamp>, c: int): Option<nat> {
    if h == [] then None else if h[0].cycle == c then Some(h[0].value) else Find(h[1..], c)
  }

  ghost predicate Increasing(h: seq<Stamp>) {
    forall i, j :: 0 <= i < j < |h| ==> h[i].cycle < h[j].cycle
  }

  lemma {:induction false} FindAt(h: seq<Stamp>, i: nat)
    requires Increasing(h) && i < |h|
    ensures Find(h, h[i].cycle) == Some(h[i].value)
  {
    if i > 0 {
      FindAt(h[1..], i - 1);
    }
  }

  lemma {:induction false} FindNone(h: seq<Stamp>, c: int)
    ensures Find(h, c) == None <==> forall i :: 0 <= i < |h| ==> h[i].cycle != c
  {
    if h != [] && h[0].cycle != c {
      FindNone(h[1..], c);
    }
  }

  // ---------------------------------------------------------------- the direct form

  /** The values of the used slots, in slot order. */
  function Used(s: seq<TagVecItemIdxNode>, base: nat): seq<Stamp> {
    if s == [] then []
    else
      var x := s[|s|-1];
      Used(s[..|s|-1], base) + (if x.used then [Stamp(base + |s| - 1, x.value)] else [])
  }

  lemma {:induction false} UsedIncreasing(s: seq<TagVecItemIdxNode>, base: nat)
    ensures Increasing(Used(s, base))
    ensures forall i :: 0 <= i < |Used(s, base)| ==> base <= Used(s, base)[i].cycle < base + |s|
  {
    if s != [] {
      UsedIncreasing(s[..|s|-1], base);
    }
  }

  /** Looking a cycle up in the direct form is looking into its slot. */
  lemma {:induction false} FindUsed(s: seq<TagVecItemIdxNode>, base: nat, o: nat)
    requires o < |s|
    ensures Find(Used(s, base), base + o) == if s[o].used then Some(s[o].value) else None
  {
    var g, x, h := s[..|s|-1], s[|s|-1], Used(s, base);
    UsedIncreasing(g, base);
    UsedIncreasing(s, base);
    if o == |s| - 1 {
      FindNone(h, base + o);
      if x.used {
        FindAt(h, |h| - 1);
      }
    } else {
      FindUsed(g, base, o);
      FindPrefix(Used(g, base), h, base + o);
    }
  }

  /** A larger stamp at the end does not hide the others. */
  lemma FindPrefix(g: seq<Stamp>, h: seq<Stamp>, c: int)
    requires Increasing(h) && g <= h && forall i :: |g| <= i < |h| ==> h[i].cycle > c
    ensures Find(h, c) == Find(g, c)
  {
    FindNone(g, c);
    FindNone(h, c);
    if i :| 0 <= i < |g| && g[i].cycle == c {
      FindAt(g, i);
      FindAt(h, i);
    }
  }

  // ---------------------------------------------------------------- packing

  /** The used slots, packed; values are cut to the width of the packed form. */
  function Packed(s: seq<TagVecItemIdxNode>, width: nat): seq<DenseNode>
    requires width > 0
  {
    if s == [] then []
    else
      var x := s[|s|-1];
      Packed(s[..|s|-1], width) + (if x.used then [DenseNode(x.value % width, |s| - 1)] else [])
  }

  /** What packed entries stand for. */
  function EntryStamps(d: seq<DenseNode>, base: nat): (h: seq<Stamp>)
    ensures |h| == |d|
    ensures forall i :: 0 <= i < |d| ==> h[i] == Stamp(base + d[i].offset, d[i].value)
  {
    seq(|d|, i requires 0 <= i < |d| => Stamp(base + d[i].offset, d[i].value))
  }

  /** The width of a packed form is enough for the values in use. */
  ghost predicate Fits(s: seq<TagVecItemIdxNode>, width: nat) {
    forall i :: 0 <= i < |s| && s[i].used ==> s[i].value < width
  }

  lemma SameEnds<T>(a: seq<T>, x: T, b: seq<T>, y: T)
    requires |a| == |b|
    ensures a + [x] == b + [y] <==> a == b && x == y
  {
    assert (a + [x])[..|a|] == a && (a + [x])[|a|] == x;
    assert (b + [y])[..|b|] == b && (b + [y])[|b|] == y;
  }

  lemma FitsMore(g: seq<TagVecItemIdxNode>, x: TagVecItemIdxNode, width: nat)
    requires width > 0
    ensures Fits(g + [x], width) <==> Fits(g, width) && (x.used ==> x.value % width == x.value)
  {
    var s := g + [x];
    assert s[|g|] == x && forall i :: 0 <= i < |g| ==> g[i] == s[i];
  }

  /** Packing keeps what the chunk stands for exactly when every used value fits. */
  lemma {:induction false} PackedSame(s: seq<TagVecItemIdxNode>, base: nat, width: nat)
    requires width > 0
    ensures EntryStamps(Packed(s, width), base) == Used(s, base) <==> Fits(s, width)
  {
    if s != [] {
      hide Fits, EntryStamps;
      var g, x := s[..|s|-1], s[|s|-1];
      var d, h, v := Packed(g, width), Used(g, base), x.value % width;
      PackedSame(g, base, width);
      PackedLength(g, base, width);
      assert s == g + [x];
      FitsMore(g, x, width);
      if x.used {
        SameEnds(EntryStamps(d, base), Stamp(base + |g|, v), h, Stamp(base + |g|, x.value));
      } else {
        assert Packed(s, width) == d && Used(s, base) == h;
      }
    }
  }

  lemma {:induction false} PackedLength(s: seq<TagVecItemIdxNode>, base: nat, width: nat)
    requires width > 0
    ensures |Packed(s, width)| == |Used(s, base)|
  {
    if s != [] {
      PackedLength(s[..|s|-1], base, width);
    }
  }

  /** The larger of the used values, 0 when there is none. */
  function MaxUsed(s: seq<TagVecItemIdxNode>): (m: nat)
    ensures forall i :: 0 <= i < |s| && s[i].used ==> s[i].value <= m
    ensures m > 0 ==> exists i :: 0 <= i < |s| && s[i].used && s[i].value == m
  {
    if s == [] then 0
    else
      var x, m := s[|s|-1], MaxUsed(s[..|s|-1]);
      assert forall i :: 0 <= i < |s| - 1 ==> s[..|s|-1][i] == s[i];
      if x.used && x.value > m then x.value else m
  }

  // ---------------------------------------------------------------- values of a chunk

  /** The values of a chunk by cycle; the first stamp of a cycle counts. */
  function ValuesOf(h: seq<Stamp>): map<int, nat> {
    if h == [] then map[] else ValuesOf(h[1..])[h[0].cycle := h[0].value]
  }

  function Lookup(m: map<int, nat>, c: int): Option<nat> {
    if c in m then Some(m[c]) else None
  }

  lemma {:induction false} ValuesFind(h: seq<Stamp>, c: int)
    ensures Lookup(ValuesOf(h), c) == Find(h, c)
  {
    if h != [] {
      ValuesFind(h[1..], c);
    }
  }

  lemma {:induction false} ValuesCount(h: seq<Stamp>)
    requires Increasing(h)
    ensures |ValuesOf(h)| == |h|
  {
    if h != [] {
      ValuesCount(h[1..]);
      ValuesFind(h[1..], h[0].cycle);
      FindNone(h[1..], h[0].cycle);
      var m := ValuesOf(h[1..]);
      assert m[h[0].cycle := h[0].value].Keys == m.Keys + {h[0].cycle};
    }
  }

  /** Writing a slot of the direct form is writing its cycle. */
  lemma ValuesWritten(s: seq<TagVecItemIdxNode>, base: nat, o: nat, v: nat)
    requires o < |s|
    ensures ValuesOf(Used(s[o := TagVecItemIdxNode(v, true)], base)) == ValuesOf(Used(s, base))[base + o := v]
  {
    hide ValuesOf, Used, Find;
    var r := s[o := TagVecItemIdxNode(v, true)];
    var a, b := ValuesOf(Used(r, base)), ValuesOf(Used(s, base))[base + o := v];
    forall c: int
      ensures Lookup(a, c) == Lookup(b, c)
    {
      ValuesFind(Used(r, base), c);
      ValuesFind(Used(s, base), c);
      SlotLookup(s, base, c);
      SlotLookup(r, base, c);
    }
    SameLookups(a, b);
  }

  lemma SameLookups(a: map<int, nat>, b: map<int, nat>)
    requires forall c :: Lookup(a, c) == Lookup(b, c)
    ensures a == b
  {
    forall c: int
      ensures c in a <==> c in b
      ensures c in a && c in b ==> a[c] == b[c]
    {
      assert Lookup(a, c) == Lookup(b, c);
    }
  }

  lemma SlotLookup(s: seq<TagVecItemIdxNode>, base: nat, c: int)
    ensures Find(Used(s, base), c)
         == if base <= c < base + |s| && s[c - base].used then Some(s[c - base].value) else None
  {
    if base <= c < base + |s| {
      FindUsed(s, base, c - base);
    } else {
      UsedIncreasing(s, base);
      FindNone(Used(s, base), c);
    }
  }

  // ---------------------------------------------------------------- what a chunk stands for

  /** A chunk of item indices: packed or not, write enabled or not, the pending moves of its
      cycles, and its values; or a chunk of words in the order they were added. */
  datatype ChunkState =
    | Items(dense: bool, we: bool, pending: int, values: map<int, nat>)
    | Words(frozen: bool, words: seq<Stamp>)

  const BLANK_ITEMS := Items(false, true, 0, map[])
  const BLANK_WORDS := Words(false, [])

  /** A chunk is cold when the simulation is more than a chunk further and no move of its
      cycles is pending, or when the simulation is over. */
  predicate Cold(we: bool, base: nat, cycle: int, last: bool) {
    last || (!we && cycle > base + CYCLE_CHUNK_SIZE)
  }

  /** Packing is worth it for less than half of the slots. */
  predicate Sparse(n: nat) { n < (CYCLE_CHUNK_SIZE - 1) / 2 }

  /** Adding a value: packed chunks take none. */
  function ChunkAdded(ch: ChunkState, cycle: nat, v: nat): (ChunkState, bool) {
    match ch
    case Items(dense, _, _, values) =>
      if dense then (ch, false) else (ch.(values := values[cycle := v % 0x8000_0000]), true)
    case Words(frozen, words) =>
      if frozen then (ch, false) else (ch.(words := Extended(words, Stamp(cycle, v), true)), true)
  }

  /** Counting a pending move; only item chunks count. */
  function ChunkInc(ch: ChunkState): ChunkState {
    match ch
    case Items(_, _, pending, _) => ch.(pending := pending + 1, we := true)
    case Words(_, _) => ch
  }

  function ChunkDec(ch: ChunkState): ChunkState {
    match ch
    case Items(_, we, pending, _) => ch.(pending := pending - 1, we := we && pending != 1)
    case Words(_, _) => ch
  }

  /** Compression: a packed chunk counts its pending moves from zero again. */
  function ChunkCompressed(ch: ChunkState, base: nat, cycle: int, last: bool): ChunkState {
    match ch
    case Items(dense, we, pending, values) =>
      if !dense && Cold(we, base, cycle, last) && Sparse(|values|) then Items(true, true, 0, values) else ch
    case Words(frozen, words) =>
      if !frozen && (last || cycle >= base + CYCLE_CHUNK_SIZE) && 4 * |words| < 3 * CYCLE_CHUNK_SIZE
      then Words(true, words) else ch
  }

  /** The value at exactly this cycle. */
  function ChunkAt(ch: ChunkState, cycle: nat): Option<nat> {
    match ch
    case Items(_, _, _, values) => Lookup(values, cycle)
    case Words(_, words) => Find(words, cycle)
  }

  /** The latest value at or before this cycle; chunks of item indices only know their cycles. */
  function ChunkLatest(ch: ChunkState, cycle: nat): Option<nat> {
    match ch
    case Items(_, _, _, values) => Lookup(values, cycle)
    case Words(_, words) => ValueOf(Latest(words, cycle))
  }

  /** An item chunk that takes values gives back what it was given exactly when that has 31 bits. */
  lemma ValueKept(ch: ChunkState, c: nat, v: nat)
    requires ch.Items? && !ch.dense
    ensures ChunkAt(ChunkAdded(ch, c, v).0, c) == Some(v) <==> v < 0x8000_0000
  {
  }

  // ---------------------------------------------------------------- scanning entries

  ghost predicate Rising(d: seq<DenseNode>) {
    forall i, j :: 0 <= i < j < |d| ==> d[i].offset <= d[j].offset
  }

  /** Scans entries in offset order for the exact cycle. */
  method ScanExact(a: array<DenseNode>, n: nat, base: nat, cycle: nat) returns (r: Option<nat>)
    requires n <= a.Length && Rising(a[..n])
    ensures r == Find(EntryStamps(a[..n], base), cycle)
  {
    ghost var h := EntryStamps(a[..n], base);
    var i := 0;
    while i < n && a[i].offset + base <= cycle
      invariant 0 <= i <= n && forall k :: 0 <= k < i ==> h[k].cycle != cycle
    {
      if a[i].offset + base == cycle {
        FindFirst(h, i);
        return Some(a[i].value);
      }
      i := i + 1;
    }
    FindNone(h, cycle);
    return None;
  }

  lemma {:induction false} FindFirst(h: seq<Stamp>, i: nat)
    requires i < |h| && forall k :: 0 <= k < i ==> h[k].cycle != h[i].cycle
    ensures Find(h, h[i].cycle) == Some(h[i].value)
  {
    if i > 0 {
      FindFirst(h[1..], i - 1);
    }
  }

  /** Scans entries in offset order for the last one at or before the cycle. */
  method ScanLatest(a: array<DenseNode>, n: nat, base: nat, cycle: nat) returns (r: Option<Stamp>)
    requires n <= a.Length && Rising(a[..n])
    ensures r == Latest(EntryStamps(a[..n], base), cycle)
  {
    ghost var h := EntryStamps(a[..n], base);
    var i := 0;
    r := None;
    while i < n && a[i].offset + base <= cycle
      invariant 0 <= i <= n && (i == 0 ==> r == None)
      invariant i > 0 ==> r == Some(h[i-1]) && h[i-1].cycle <= cycle
    {
      r := Some(Stamp(a[i].offset + base, a[i].value));
      i := i + 1;
    }
    assert i < n ==> forall k :: i <= k < n ==> cycle < h[k].cycle;
    if i > 0 {
      assert IsLatest(h, cycle, i - 1);
    }
    LatestIs(h, cycle);
  }

  // ---------------------------------------------------------------- the chunks

  /** The direct form: a slot for every cycle. */
  class TagVecItemIdx {
    const valvec: array<TagVecItemIdxNode>
    const baseCycle: nat
    var we: bool
    var pendingCnt: int

    ghost predicate Valid()
      reads valvec
    {
      valvec.Length == CYCLE_CHUNK_SIZE && Fits(valvec[..], 0x8000_0000)
    }

    ghost function View(): seq<Stamp>
      reads valvec
    {
      Used(valvec[..], baseCycle)
    }

    ghost function State(): ChunkState
      reads this, valvec
    {
      Items(false, we, pendingCnt, ValuesOf(View()))
    }

    constructor (bcycle: nat)
      ensures Valid() && fresh(valvec) && baseCycle == bcycle && State() == BLANK_ITEMS
    {
      baseCycle := bcycle;
      valvec := new TagVecItemIdxNode[CYCLE_CHUNK_SIZE](_ => TagVecItemIdxNode(0, false));
      we, pendingCnt := true, 0;
      new;
      NoneUsed(valvec[..], baseCycle);
    }

    method AddTagValue(cycle: int, value: nat) returns (r: bool)
      requires Valid() && baseCycle <= cycle < baseCycle + CYCLE_CHUNK_SIZE
      modifies valvec
      ensures Valid() && (State(), r) == ChunkAdded(old(State()), cycle, value)
    {
      ValuesWritten(valvec[..], baseCycle, cycle - baseCycle, value % 0x8000_0000);
      ghost var s := valvec[..];
      valvec[cycle - baseCycle] := TagVecItemIdxNode(value % 0x8000_0000, true);
      assert valvec[..] == s[cycle - baseCycle := TagVecItemIdxNode(value % 0x8000_0000, true)];
      r := true;
    }

    method GetTagValue(cycle: int) returns (r: Option<nat>)
      requires Valid() && baseCycle <= cycle < baseCycle + CYCLE_CHUNK_SIZE
      ensures r == ChunkAt(State(), cycle)
    {
      ValuesFind(View(), cycle);
      FindUsed(valvec[..], baseCycle, cycle - baseCycle);
      var node := valvec[cycle - baseCycle];
      r := if node.used then Some(node.value) else None;
    }

    method IncPendingCnt()
      modifies this
      ensures State() == ChunkInc(old(State()))
    {
      pendingCnt := pendingCnt + 1;
      we := true;
    }

    method DecPendingCnt()
      modifies this
      ensures State() == ChunkDec(old(State()))
    {
      pendingCnt := pendingCnt - 1;
      if pendingCnt == 0 {
        we := false;
      }
    }

    /** Packs the chunk once it is cold and sparse, with 20-bit values when they suffice. */
    method CompressYourSelf(cycle: int, last: bool) returns (r: TagVec)
      requires Valid()
      ensures r.Dense? <==> (last || (!we && cycle > baseCycle + 4096)) && |View()| < 2047
      ensures r.Dense? ==> r.dense.width == if Fits(valvec[..], 0x10_0000) then 0x10_0000 else 0x8000_0000
      ensures match r
              case Direct(x) => x == this && ChunkCompressed(State(), baseCycle, cycle, last) == State()
              case Dense(x) => fresh(x) && x.Valid() && x.baseCycle == baseCycle && x.View() == View()
                               && ChunkCompressed(State(), baseCycle, cycle, last) == x.ItemState()
              case Dictionary(_) => false
    {
      UsedIncreasing(valvec[..], baseCycle);
      ValuesCount(View());
      if last || (!we && cycle > baseCycle + CYCLE_CHUNK_SIZE) {
        var cnt, maxValue := 0, 0;
        for i := 0 to CYCLE_CHUNK_SIZE
          invariant cnt == |Used(valvec[..i], baseCycle)| && maxValue == MaxUsed(valvec[..i])
        {
          assert valvec[..i+1][..i] == valvec[..i];
          if valvec[i].used {
            cnt := cnt + 1;
            maxValue := if maxValue < valvec[i].value then valvec[i].value else maxValue;
          }
        }
        assert valvec[..CYCLE_CHUNK_SIZE] == valvec[..];
        if cnt < (CYCLE_CHUNK_SIZE - 1) / 2 {
          var dense := new TagVecDense.FromItems(this, if maxValue >= 1048576 then 0x8000_0000 else 0x10_0000);
          return Dense(dense);
        }
      }
      return Direct(this);
    }
  }

  lemma {:induction false} NoneUsed(s: seq<TagVecItemIdxNode>, base: nat)
    requires forall i :: 0 <= i < |s| ==> !s[i].used
    ensures Used(s, base) == []
  {
    if s != [] {
      NoneUsed(s[..|s|-1], base);
    }
  }

  /** A dense form: just the entries. Nothing can be added. */
  class TagVecDense {
    const valvec: array<DenseNode>
    const baseCycle: nat
    // values are below this
    const width: nat
    var we: bool
    var pendingCnt: int

    ghost predicate Valid()
      reads valvec
    {
      Rising(valvec[..]) && forall i :: 0 <= i < valvec.Length ==> valvec[i].offset < CYCLE_CHUNK_SIZE
    }

    ghost function View(): seq<Stamp>
      reads valvec
    {
      EntryStamps(valvec[..], baseCycle)
    }

    ghost function ItemState(): ChunkState
      reads this, valvec
    {
      Items(true, we, pendingCnt, ValuesOf(View()))
    }

    ghost function WordState(): ChunkState
      reads valvec
    {
      Words(true, View())
    }

    /** Packs the used slots of a direct chunk into values of the given width. */
    constructor FromItems(ovec: TagVecItemIdx, width: nat)
      requires ovec.Valid() && width > 0
      ensures Valid() && fresh(valvec) && baseCycle == ovec.baseCycle && this.width == width
      ensures valvec[..] == Packed(ovec.valvec[..], width)
      ensures View() == ovec.View() <==> Fits(ovec.valvec[..], width)
      ensures we && pendingCnt == 0
    {
      var n := 0;
      for i := 0 to CYCLE_CHUNK_SIZE
        invariant n == |Packed(ovec.valvec[..i], width)|
      {
        assert ovec.valvec[..i+1][..i] == ovec.valvec[..i];
        if ovec.valvec[i].used {
          n := n + 1;
        }
      }
      assert ovec.valvec[..CYCLE_CHUNK_SIZE] == ovec.valvec[..];
      var a := new DenseNode[n];
      var pos := 0;
      for i := 0 to CYCLE_CHUNK_SIZE
        invariant pos == |Packed(ovec.valvec[..i], width)| <= n
        invariant a[..pos] == Packed(ovec.valvec[..i], width)
      {
        assert ovec.valvec[..i+1][..i] == ovec.valvec[..i];
        PackedGrows(ovec.valvec[..], width, i + 1);
        if ovec.valvec[i].used {
          a[pos] := DenseNode(ovec.valvec[i].value % width, i % CYCLE_CHUNK_SIZE);
          pos := pos + 1;
        }
      }
      valvec := a;
      baseCycle := ovec.baseCycle;
      this.width := width;
      we, pendingCnt := true, 0;
      PackedRising(ovec.valvec[..], width);
      PackedSame(ovec.valvec[..], ovec.baseCycle, width);
    }

    /** Copies the entries of a dictionary chunk. */
    constructor FromDictionary(ovec: TagVecDictionary)
      requires ovec.Valid()
      ensures Valid() && fresh(valvec) && baseCycle == ovec.baseCycle && View() == ovec.View()
    {
      var a := new DenseNode[ovec.nextEntry];
      for i := 0 to ovec.nextEntry
        invariant a[..i] == ovec.valvec[..i]
      {
        a[i] := ovec.valvec[i];
      }
      valvec := a;
      baseCycle := ovec.baseCycle;
      width := 0x10_0000;
      we, pendingCnt := true, 0;
      assert a[..] == a[..ovec.nextEntry];
    }

    /** A packed chunk takes no value. */
    method AddTagValue(cycle: int, value: nat) returns (r: bool)
      requires 0 <= cycle
      ensures !r && (ItemState(), r) == ChunkAdded(ItemState(), cycle, value)
      ensures (WordState(), r) == ChunkAdded(WordState(), cycle, value)
    {
      r := false;
    }

    method GetTagValue(cycle: nat) returns (r: Option<nat>)
      requires Valid()
      ensures r == Find(View(), cycle) == ChunkAt(ItemState(), cycle) == ChunkAt(WordState(), cycle)
    {
      ValuesFind(View(), cycle);
      assert valvec[..valvec.Length] == valvec[..];
      r := ScanExact(valvec, valvec.Length, baseCycle, cycle);
    }

    method IncPendingCnt()
      modifies this
      ensures ItemState() == ChunkInc(old(ItemState()))
    {
      pendingCnt := pendingCnt + 1;
      we := true;
    }

    method DecPendingCnt()
      modifies this
      ensures ItemState() == ChunkDec(old(ItemState()))
    {
      pendingCnt := pendingCnt - 1;
      if pendingCnt == 0 {
        we := false;
      }
    }

    /** A chunk without entries must not be asked. */
    method GetTagValueFwd(cycle: nat) returns (r: Option<Stamp>)
      requires Valid() && valvec.Length > 0
      ensures r == Latest(View(), cycle)
    {
      assert valvec[..valvec.Length] == valvec[..];
      r := ScanLatest(valvec, valvec.Length, baseCycle, cycle);
    }
  }

  lemma {:induction false} PackedRising(s: seq<TagVecItemIdxNode>, width: nat)
    requires width > 0
    ensures Rising(Packed(s, width))
    ensures forall i :: 0 <= i < |Packed(s, width)| ==> Packed(s, width)[i].offset < |s|
  {
    if s != [] {
      PackedRising(s[..|s|-1], width);
    }
  }

  lemma {:induction false} PackedGrows(s: seq<TagVecItemIdxNode>, width: nat, k: nat)
    requires width > 0 && k <= |s|
    ensures |Packed(s[..k], width)| <= |Packed(s, width)|
    decreases |s|
  {
    if k < |s| {
      PackedGrows(s[..|s|-1], width, k);
      assert s[..|s|-1][..k] == s[..k];
    } else {
      assert s[..k] == s;
    }
  }

  /** The dictionary form: the values in the order they were added; a value that repeats
      the one before it is not stored. Keys of the dictionary are the values themselves. */
  class TagVecDictionary {
    const valvec: array<DenseNode>
    const baseCycle: nat
    var nextEntry: nat

    ghost predicate Valid()
      reads this, valvec
    {
      && valvec.Length == CYCLE_CHUNK_SIZE && nextEntry <= valvec.Length
      && Rising(valvec[..nextEntry]) && forall i :: 0 <= i < nextEntry ==> valvec[i].offset < CYCLE_CHUNK_SIZE
    }

    ghost function View(): seq<Stamp>
      reads this, valvec
      requires Valid()
    {
      EntryStamps(valvec[..nextEntry], baseCycle)
    }

    ghost function State(): ChunkState
      reads this, valvec
      requires Valid()
    {
      Words(false, View())
    }

    constructor (bcycle: nat)
      ensures Valid() && fresh(valvec) && State() == BLANK_WORDS && baseCycle == bcycle
    {
      baseCycle := bcycle;
      valvec := new DenseNode[CYCLE_CHUNK_SIZE](_ => DenseNode(0, 0));
      nextEntry := 0;
    }

    method AddTagValue(cycle: int, value: nat) returns (r: bool)
      requires Valid() && baseCycle <= cycle < baseCycle + CYCLE_CHUNK_SIZE && nextEntry < CYCLE_CHUNK_SIZE
      requires View() != [] ==> View()[|View()|-1].cycle <= cycle
      modifies this, valvec
      ensures Valid() && (State(), r) == ChunkAdded(old(State()), cycle, value)
    {
      hide EntryStamps, Rising;
      ghost var d := valvec[..nextEntry];
      if nextEntry > 0 && valvec[nextEntry-1].value == value {
        return true;
      }
      EntryMore(d, DenseNode(value, cycle - baseCycle), baseCycle);
      valvec[nextEntry] := DenseNode(value, cycle - baseCycle);
      nextEntry := nextEntry + 1;
      assert valvec[..nextEntry] == d + [DenseNode(value, cycle - baseCycle)];
      return true;
    }

    method GetTagValue(cycle: nat) returns (r: Option<nat>)
      requires Valid()
      ensures r == Find(View(), cycle)
    {
      r := ScanExact(valvec, nextEntry, baseCycle, cycle);
    }

    /** A chunk without entries must not be asked. */
    method GetTagValueFwd(cycle: nat) returns (r: Option<Stamp>)
      requires Valid() && nextEntry > 0
      ensures r == Latest(View(), cycle)
    {
      r := ScanLatest(valvec, nextEntry, baseCycle, cycle);
    }

    /** Copies the chunk into a dense one when the simulation has left it and less than
        three quarters of its entries are in use. */
    method CompressYourSelf(cycle: int, last: bool) returns (r: TagVec)
      requires Valid()
      ensures r.Dense? <==> (last || cycle >= baseCycle + 4096) && nextEntry < 3072
      ensures match r
              case Direct(_) => false
              case Dense(x) => fresh(x) && x.Valid() && x.baseCycle == baseCycle
                               && ChunkCompressed(State(), baseCycle, cycle, last) == x.WordState()
              case Dictionary(x) => x == this && ChunkCompressed(State(), baseCycle, cycle, last) == State()
    {
      if (last || cycle >= baseCycle + CYCLE_CHUNK_SIZE) && 4 * nextEntry < 3 * CYCLE_CHUNK_SIZE {
        var dense := new TagVecDense.FromDictionary(this);
        return Dense(dense);
      }
      return Dictionary(this);
    }
  }

  lemma EntryMore(d: seq<DenseNode>, x: DenseNode, base: nat)
    requires Rising(d) && (d != [] ==> d[|d|-1].offset <= x.offset)
    ensures Rising(d + [x]) && EntryStamps(d + [x], base) == EntryStamps(d, base) + [Stamp(base + x.offset, x.value)]
  {
  }

  /** A chunk in one of its forms. */
  datatype TagVec = Direct(items: TagVecItemIdx) | Dense(dense: TagVecDense) | Dictionary(words: TagVecDictionary)

  // ---------------------------------------------------------------- exact lookups in dictionary chunks

  ghost predicate Repeats(xs: seq<Stamp>) {
    exists i, j :: 0 <= i < j < |xs| && j == i + 1 && xs[i].value == xs[j].value
  }

  lemma {:induction false} NothingDropped(h: seq<Stamp>, xs: seq<Stamp>)
    requires !Repeats(xs) && (h != [] && xs != [] ==> h[|h|-1].value != xs[0].value)
    ensures Folded(h, xs, true) == h + xs
    decreases |xs|
  {
    if xs != [] {
      forall i, j | 0 <= i < j < |xs| - 1 && j == i + 1
        ensures xs[1..][i].value != xs[1..][j].value
      {
        assert xs[i+1].value != xs[j+1].value;
      }
      NothingDropped(h + [xs[0]], xs[1..]);
      assert (h + [xs[0]]) + xs[1..] == h + xs;
    } else {
      assert h + xs == h;
    }
  }

  /** What is added later does not bring back a cycle that was dropped. */
  lemma {:induction false} StaysDropped(h: seq<Stamp>, xs: seq<Stamp>, c: int)
    requires (forall i :: 0 <= i < |h| ==> h[i].cycle != c) && (forall i :: 0 <= i < |xs| ==> xs[i].cycle != c)
    ensures forall i :: 0 <= i < |Folded(h, xs, true)| ==> Folded(h, xs, true)[i].cycle != c
    decreases |xs|
  {
    if xs != [] {
      StaysDropped(Extended(h, xs[0], true), xs[1..], c);
    }
  }

  lemma WithoutOne(a: seq<Stamp>, x: Stamp, b: seq<Stamp>)
    requires Increasing(a + [x] + b)
    ensures Increasing(a + b)
  {
    var h := a + [x] + b;
    assert forall i :: 0 <= i < |a + b| ==> (a + b)[i] == h[if i < |a| then i else i + 1];
  }

  /** The second of two equal values in a row is dropped for good. */
  lemma SecondDropped(h: seq<Stamp>, xs: seq<Stamp>)
    requires Increasing(h + xs) && |xs| >= 2 && xs[0].value == xs[1].value
    ensures Find(Folded(h, xs, true), xs[1].cycle) == None
  {
    var g, c := Extended(h, xs[0], true), xs[1].cycle;
    var all := h + xs;
    assert all[|h|] == xs[0] && all[|h|+1] == xs[1];
    forall k | 0 <= k < |g| ensures g[k].cycle != c { assert g[k] == all[k]; }
    forall k | 0 <= k < |xs[2..]| ensures xs[2..][k].cycle != c { assert xs[2..][k] == all[|h|+2+k]; }
    StaysDropped(g, xs[2..], c);
    FindNone(Folded(g, xs[2..], true), c);
    assert xs[1..][1..] == xs[2..] && Extended(g, xs[1], true) == g;
  }

  lemma {:induction false} RepeatDropped(h: seq<Stamp>, xs: seq<Stamp>, i: nat)
    requires Increasing(h + xs) && i < |xs| - 1 && xs[i].value == xs[i+1].value
    ensures Find(Folded(h, xs, true), xs[i+1].cycle) == None
    decreases |xs|
  {
    hide Find, Increasing;
    if i == 0 {
      SecondDropped(h, xs);
    } else {
      assert h + xs == h + [xs[0]] + xs[1..];
      WithoutOne(h, xs[0], xs[1..]);
      RepeatDropped(Extended(h, xs[0], true), xs[1..], i - 1);
    }
  }

  /** Every write of xs is found in h. */
  ghost predicate AllFound(h: seq<Stamp>, xs: seq<Stamp>) {
    forall i :: 0 <= i < |xs| ==> Find(h, xs[i].cycle) == Some(xs[i].value)
  }

  lemma FindsItself(xs: seq<Stamp>)
    requires Increasing(xs)
    ensures AllFound(xs, xs)
  {
    forall i | 0 <= i < |xs|
      ensures Find(xs, xs[i].cycle) == Some(xs[i].value)
    {
      FindAt(xs, i);
    }
  }

  /** A dictionary chunk answers every exact lookup of a cycle it was given if and only if
      no value was given twice in a row: the repeated one is dropped and then not found. */
  lemma ExactLookups(xs: seq<Stamp>)
    requires Increasing(xs)
    ensures AllFound(Folded([], xs, true), xs) <==> !Repeats(xs)
  {
    hide Folded, Find, Increasing;
    assert [] + xs == xs;
    if Repeats(xs) {
      var i, j :| 0 <= i < j < |xs| && j == i + 1 && xs[i].value == xs[j].value;
      RepeatDropped([], xs, i);
    } else {
      NothingDropped([], xs);
      FindsItself(xs);
    }
  }

  /** A value that comes twice in a row is kept once, and not found at its second cycle. */
  lemma RepeatLost(c: nat, v: nat)
    ensures var xs := [Stamp(c, v), Stamp(c + 1, v)];
            Increasing(xs) && Folded([], xs, true) == [Stamp(c, v)] && Find(Folded([], xs, true), c + 1) == None
  {
    var xs := [Stamp(c, v), Stamp(c + 1, v)];
    assert xs[1..] == [Stamp(c + 1, v)];
    assert Extended([], xs[0], true) == [Stamp(c, v)];
    assert Extended([Stamp(c, v)], xs[1], true) == [Stamp(c, v)];
    assert Folded([Stamp(c, v)], [], true) == [Stamp(c, v)];
    assert Folded([Stamp(c, v)], xs[1..], true) == [Stamp(c, v)];
    FindNone([Stamp(c, v)], c + 1);
  }
}
