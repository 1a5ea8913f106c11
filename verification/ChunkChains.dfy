/** How the entries of the items are laid out in chunks: every item owns a chain of
    four-slot chunks of one shared vector. */
module ChunkChains {
  import opened TagHistory

  const TAGS_PER_CHUNK := 4

  /** Chunk 0 is the null link; firstFreeSlot is the occupancy of the chunk. */
  datatype TagHeapChunk = TagHeapChunk(content: seq<TagHeapNode>, firstFreeSlot: nat, nextChunk: nat)

  /** An item and the first chunk of its chain, 0 when it has none. */
  datatype ItemHeapNode = ItemHeapNode(itemId: int, firstChunk: nat)

  const BLANK_NODE := TagHeapNode(0, 0, false, false, 0)
  const BLANK_CHUNK := TagHeapChunk([BLANK_NODE, BLANK_NODE, BLANK_NODE, BLANK_NODE], 0, 0)

  // ---------------------------------------------------------------- chains of chunks

  ghost predicate ChainOk(chunks: seq<TagHeapChunk>, chain: seq<nat>, first: nat) {
    && (forall k :: 0 <= k < |chain| ==> 1 <= chain[k] < |chunks|)
    && (forall k, l :: 0 <= k < l < |chain| ==> chain[k] < chain[l])
    && (forall k :: 0 <= k < |chain| ==> |chunks[chain[k]].content| == TAGS_PER_CHUNK)
    && (forall k :: 0 <= k < |chain| - 1 ==>
          chunks[chain[k]].nextChunk == chain[k+1] && chunks[chain[k]].firstFreeSlot == TAGS_PER_CHUNK)
    && (if chain == [] then first == 0
        else first == chain[0]
             && chunks[chain[|chain|-1]].nextChunk == 0
             && 1 <= chunks[chain[|chain|-1]].firstFreeSlot <= TAGS_PER_CHUNK)
  }

  /** The number of entries of a chain. */
  ghost function ChainLen(chunks: seq<TagHeapChunk>, chain: seq<nat>): nat
    requires chain != [] ==> chain[|chain|-1] < |chunks|
  {
    if chain == [] then 0 else TAGS_PER_CHUNK * (|chain| - 1) + chunks[chain[|chain|-1]].firstFreeSlot
  }

  /** The entries of a chain, in order. */
  ghost function Entries(chunks: seq<TagHeapChunk>, chain: seq<nat>, first: nat): (s: seq<TagHeapNode>)
    requires ChainOk(chunks, chain, first)
    ensures |s| == ChainLen(chunks, chain)
    ensures forall j :: 0 <= j < |s| ==> s[j] == chunks[chain[j / TAGS_PER_CHUNK]].content[j % TAGS_PER_CHUNK]
  {
    seq(ChainLen(chunks, chain), j requires 0 <= j < ChainLen(chunks, chain) =>
      chunks[chain[j / TAGS_PER_CHUNK]].content[j % TAGS_PER_CHUNK])
  }

  /** The entry at position j of a chain that holds slot k of chunk c. */
  lemma EntryAt(chunks: seq<TagHeapChunk>, chain: seq<nat>, first: nat, l: nat, k: nat)
    requires ChainOk(chunks, chain, first) && l < |chain| && k < chunks[chain[l]].firstFreeSlot
    ensures var j := TAGS_PER_CHUNK * l + k;
            j < ChainLen(chunks, chain) && Entries(chunks, chain, first)[j] == chunks[chain[l]].content[k]
  {
    var j := TAGS_PER_CHUNK * l + k;
    assert j / TAGS_PER_CHUNK == l && j % TAGS_PER_CHUNK == k;
  }

  /** Chunks and places: every chunk in [1, n) lies in one chain, at one place. */
  ghost predicate Owned(chains: seq<seq<nat>>, owner: seq<nat>, rank: seq<nat>, n: nat) {
    && 1 <= n == |owner| == |rank|
    && (forall i, k :: 0 <= i < |chains| && 0 <= k < |chains[i]| ==>
          1 <= chains[i][k] < n && owner[chains[i][k]] == i && rank[chains[i][k]] == k)
    && (forall c :: 1 <= c < n ==>
          owner[c] < |chains| && rank[c] < |chains[owner[c]]| && chains[owner[c]][rank[c]] == c)
  }

  ghost predicate ChainsOk(items: seq<ItemHeapNode>, chunks: seq<TagHeapChunk>, chains: seq<seq<nat>>)
    requires |chains| <= |items|
  {
    && (forall c :: 0 <= c < |chunks| ==> |chunks[c].content| == TAGS_PER_CHUNK)
    && (forall i :: 0 <= i < |chains| ==> ChainOk(chunks, chains[i], items[i].firstChunk))
  }

  lemma OwnedChunks(chains: seq<seq<nat>>, owner: seq<nat>, rank: seq<nat>, n: nat, i: nat)
    requires Owned(chains, owner, rank, n) && i < |chains|
    ensures forall k :: 0 <= k < |chains[i]| ==>
              1 <= chains[i][k] < n && owner[chains[i][k]] == i && rank[chains[i][k]] == k
  {
  }

  lemma LastChunk(chunks: seq<TagHeapChunk>, chain: seq<nat>, first: nat)
    requires ChainOk(chunks, chain, first) && chain != []
    ensures chain[|chain|-1] < |chunks|
    ensures var n := chunks[chain[|chain|-1]].firstFreeSlot;
            1 <= n <= TAGS_PER_CHUNK && |Entries(chunks, chain, first)| == TAGS_PER_CHUNK * (|chain| - 1) + n
  {
  }

  /** A chain whose last chunk gives away one more slot. */
  lemma ChainTakesSlot(a: seq<TagHeapChunk>, b: seq<TagHeapChunk>, chain: seq<nat>, first: nat)
    requires ChainOk(a, chain, first) && |a| == |b| && chain != []
    requires forall k :: 0 <= k < |chain| - 1 ==> b[chain[k]] == a[chain[k]]
    requires var l := chain[|chain|-1];
             && a[l].firstFreeSlot < TAGS_PER_CHUNK
             && b[l] == a[l].(firstFreeSlot := a[l].firstFreeSlot + 1)
    ensures ChainOk(b, chain, first)
    ensures |Entries(b, chain, first)| == |Entries(a, chain, first)| + 1
    ensures Entries(b, chain, first)[..|Entries(a, chain, first)|] == Entries(a, chain, first)
  {
  }

  /** A chain in which one used slot is overwritten. */
  lemma ChainWrites(a: seq<TagHeapChunk>, b: seq<TagHeapChunk>, chain: seq<nat>, first: nat,
                    l: nat, slot: nat, x: TagHeapNode)
    requires ChainOk(a, chain, first) && |a| == |b| && l < |chain| && slot < a[chain[l]].firstFreeSlot
    requires forall k :: 0 <= k < |chain| && k != l ==> b[chain[k]] == a[chain[k]]
    requires b[chain[l]] == a[chain[l]].(content := a[chain[l]].content[slot := x])
    ensures ChainOk(b, chain, first)
    ensures var j := TAGS_PER_CHUNK * l + slot;
            j < |Entries(a, chain, first)| && Entries(b, chain, first) == Entries(a, chain, first)[j := x]
  {
    var s, o := Entries(a, chain, first), Entries(b, chain, first);
    EntryAt(a, chain, first, l, slot);
    forall i | 0 <= i < |s|
      ensures o[i] == s[TAGS_PER_CHUNK * l + slot := x][i]
    {
      if i / TAGS_PER_CHUNK == l && i % TAGS_PER_CHUNK == slot {
        assert i == TAGS_PER_CHUNK * l + slot;
      }
    }
  }

  /** Chunk n joins the chain of item i. */
  lemma OwnedGrows(chains: seq<seq<nat>>, owner: seq<nat>, rank: seq<nat>, n: nat, i: nat)
    requires Owned(chains, owner, rank, n) && i < |chains|
    ensures Owned(chains[i := chains[i] + [n]], owner + [i], rank + [|chains[i]|], n + 1)
  {
  }

  /** The chains of the items other than i when only chunks of item i change. */
  lemma OtherChains(items: seq<ItemHeapNode>, a: seq<TagHeapChunk>, b: seq<TagHeapChunk>,
                    chains: seq<seq<nat>>, owner: seq<nat>, rank: seq<nat>, n: nat, i: nat)
    requires |chains| <= |items| && ChainsOk(items, a, chains) && Owned(chains, owner, rank, n)
    requires 1 <= n <= |a| <= |b|
    requires forall c :: 0 <= c < n && owner[c] != i ==> b[c] == a[c]
    ensures forall k :: 0 <= k < |chains| && k != i ==>
              && ChainOk(a, chains[k], items[k].firstChunk) && ChainOk(b, chains[k], items[k].firstChunk)
              && Entries(b, chains[k], items[k].firstChunk) == Entries(a, chains[k], items[k].firstChunk)
  {
    forall k | 0 <= k < |chains| && k != i
      ensures ChainOk(b, chains[k], items[k].firstChunk)
      ensures Entries(b, chains[k], items[k].firstChunk) == Entries(a, chains[k], items[k].firstChunk)
    {
    }
  }

  lemma ChainExtends(a: seq<TagHeapChunk>, b: seq<TagHeapChunk>, chain: seq<nat>, first: nat, c: nat)
    requires ChainOk(a, chain, first) && |a| <= |b| && 1 <= c < |b|
    requires forall k :: 0 <= k < |chain| ==> chain[k] < c
    requires chain != [] ==> a[chain[|chain|-1]].firstFreeSlot == TAGS_PER_CHUNK
    requires forall k :: 0 <= k < |chain| - 1 ==> b[chain[k]] == a[chain[k]]
    requires chain != [] ==> b[chain[|chain|-1]] == a[chain[|chain|-1]].(nextChunk := c)
    requires |b[c].content| == TAGS_PER_CHUNK && b[c].firstFreeSlot == 1 && b[c].nextChunk == 0
    ensures ChainOk(b, chain + [c], if chain == [] then c else first)
  {
  }

  /** A chain that starts with, or continues into, the fresh chunk c. */
  lemma ChainGrows(a: seq<TagHeapChunk>, b: seq<TagHeapChunk>, chain: seq<nat>, first: nat, c: nat)
    requires ChainOk(a, chain, first) && |a| <= |b| && 1 <= c < |b|
    requires forall k :: 0 <= k < |chain| ==> chain[k] < c
    requires chain != [] ==> a[chain[|chain|-1]].firstFreeSlot == TAGS_PER_CHUNK
    requires forall k :: 0 <= k < |chain| - 1 ==> b[chain[k]] == a[chain[k]]
    requires chain != [] ==> b[chain[|chain|-1]] == a[chain[|chain|-1]].(nextChunk := c)
    requires |b[c].content| == TAGS_PER_CHUNK && b[c].firstFreeSlot == 1 && b[c].nextChunk == 0
    ensures var f := if chain == [] then c else first;
            && ChainOk(b, chain + [c], f)
            && |Entries(b, chain + [c], f)| == |Entries(a, chain, first)| + 1
            && Entries(b, chain + [c], f)[..|Entries(a, chain, first)|] == Entries(a, chain, first)
            && |Entries(a, chain, first)| == TAGS_PER_CHUNK * |chain|
  {
    var f := if chain == [] then c else first;
    var s := Entries(a, chain, first);
    ChainExtends(a, b, chain, first, c);
    var o := Entries(b, chain + [c], f);
    forall j | 0 <= j < |s|
      ensures o[j] == s[j]
    {
      var l := j / TAGS_PER_CHUNK;
      assert l < |chain| && (chain + [c])[l] == chain[l];
      assert b[chain[l]].content == a[chain[l]].content;
    }
  }

  // ---------------------------------------------------------------- whole layouts

  /** The vectors of the heap: chunks below `used` are allocated; chains, owner and rank
      give the chunks of every item, and for every chunk its item and its place. */
  datatype Layout = Layout(items: seq<ItemHeapNode>, chunks: seq<TagHeapChunk>, used: nat,
                                 chains: seq<seq<nat>>, owner: seq<nat>, rank: seq<nat>)

  /** Every allocated chunk lies in exactly one chain; chains go upwards, so they end;
      only the last chunk of a chain may have free slots. */
  ghost predicate Good(L: Layout) {
    && |L.chains| <= |L.items| && 1 <= L.used <= |L.chunks| && |L.owner| == |L.rank| == L.used
    && ChainsOk(L.items, L.chunks, L.chains)
    && Owned(L.chains, L.owner, L.rank, L.used)
  }

  /** The entries of item i. */
  ghost function EntriesIn(L: Layout, i: nat): seq<TagHeapNode>
    requires Good(L) && i < |L.chains|
  {
    Entries(L.chunks, L.chains[i], L.items[i].firstChunk)
  }

  /** Nothing moves: items keep their ids and used slots their item and place. */
  ghost predicate Settled(L: Layout, M: Layout) {
    && |M.items| == |L.items| && |M.chains| == |L.chains|
    && (forall k :: 0 <= k < |L.items| ==> M.items[k].itemId == L.items[k].itemId)
    && |L.owner| <= |M.owner| && |L.rank| <= |M.rank| && |L.chunks| <= |M.chunks| && L.used <= M.used
    && (forall c :: 0 <= c < |L.owner| ==> M.owner[c] == L.owner[c])
    && (forall c :: 0 <= c < |L.rank| ==> M.rank[c] == L.rank[c])
    && (forall c :: 0 <= c < |L.chunks| && c < L.used ==> L.chunks[c].firstFreeSlot <= M.chunks[c].firstFreeSlot)
  }

  /** Every item but i has the entries it had. */
  ghost predicate OthersKept(L: Layout, M: Layout, i: nat)
    requires Good(L) && Good(M) && |M.chains| == |L.chains|
  {
    forall k :: 0 <= k < |L.chains| && k != i ==> EntriesIn(M, k) == EntriesIn(L, k)
  }

  /** Item i has one more entry, in slot `slot` of chunk c. */
  ghost predicate Appended(L: Layout, M: Layout, i: nat, c: nat, slot: nat)
    requires Good(L) && Good(M) && |M.chains| == |L.chains| && i < |L.chains|
  {
    && |EntriesIn(M, i)| == |EntriesIn(L, i)| + 1 && EntriesIn(M, i)[..|EntriesIn(L, i)|] == EntriesIn(L, i)
    && 1 <= c < M.used && M.owner[c] == i && slot < M.chunks[c].firstFreeSlot <= TAGS_PER_CHUNK
    && TAGS_PER_CHUNK * M.rank[c] + slot == |EntriesIn(L, i)|
  }

  // ---------------------------------------------------------------- cursors

  /** The place of a cursor: the item id (chunk -1) or a used slot of the item. */
  ghost predicate CursorIn(L: Layout, i: int, c: int, slot: int) {
    && Good(L) && 0 <= i < |L.chains|
    && if c == -1 then slot == -1
       else 1 <= c < L.used && L.owner[c] == i && 0 <= slot < L.chunks[c].firstFreeSlot <= TAGS_PER_CHUNK
  }

  /** The position of a cursor among the entries of its item; -1 is the item id. */
  ghost function PosIn(L: Layout, i: int, c: int, slot: int): (p: int)
    requires CursorIn(L, i, c, slot)
    ensures -1 <= p
    ensures p == -1 <==> c == -1
  {
    if c == -1 then -1 else TAGS_PER_CHUNK * L.rank[c] + slot
  }

  lemma PosInRange(L: Layout, i: int, c: int, slot: int)
    requires CursorIn(L, i, c, slot)
    ensures PosIn(L, i, c, slot) < |EntriesIn(L, i)|
    ensures c != -1 ==> 1 <= c < |L.chunks| && 0 <= slot < |L.chunks[c].content|
                        && EntriesIn(L, i)[PosIn(L, i, c, slot)] == L.chunks[c].content[slot]
  {
    if c != -1 {
      EntryAt(L.chunks, L.chains[i], L.items[i].firstChunk, L.rank[c], slot);
    }
  }

  /** A used slot keeps its position when nothing moves. */
  lemma CursorSettled(L: Layout, M: Layout, i: int, c: int, slot: int)
    requires CursorIn(L, i, c, slot) && Good(M) && Settled(L, M)
    ensures CursorIn(M, i, c, slot) && PosIn(M, i, c, slot) == PosIn(L, i, c, slot)
  {
    if c != -1 {
      var chain := M.chains[i];
      assert chain[M.rank[c]] == c;
    }
  }

  /** The first chunk of an item with entries. */
  lemma FirstUnder(L: Layout, i: nat)
    requires Good(L) && i < |L.chains|
    ensures i < |L.items|
    ensures var c := L.items[i].firstChunk;
            && (c == 0 <==> EntriesIn(L, i) == [])
            && (c != 0 ==> CursorIn(L, i, c, 0) && PosIn(L, i, c, 0) == 0)
  {
    if L.items[i].firstChunk != 0 {
      assert L.chains[i][0] == L.items[i].firstChunk;
      assert 0 < |L.chains[i]| - 1 ==> L.chunks[L.chains[i][0]].firstFreeSlot == TAGS_PER_CHUNK;
    }
  }

  /** What the links say about the chunk under a cursor. */
  lemma ChunkUnder(L: Layout, i: int, c: int, slot: int)
    requires CursorIn(L, i, c, slot) && c != -1
    ensures c < |L.chunks|
    ensures var chunk, p, n := L.chunks[c], PosIn(L, i, c, slot), |EntriesIn(L, i)|;
            && (p == n - 1 <==> chunk.nextChunk == 0 && chunk.firstFreeSlot == slot + 1)
            && (p < n - 1 && slot + 1 < TAGS_PER_CHUNK ==> CursorIn(L, i, c, slot + 1))
            && (p < n - 1 && slot + 1 == TAGS_PER_CHUNK ==>
                  && chunk.nextChunk != 0 && CursorIn(L, i, chunk.nextChunk, 0)
                  && PosIn(L, i, chunk.nextChunk, 0) == p + 1)
  {
    var chain := L.chains[i];
    var l := L.rank[c];
    assert chain[l] == c;
    if l < |chain| - 1 {
      assert L.chunks[chain[l]].nextChunk == chain[l+1];
      assert l + 1 < |chain| - 1 ==> L.chunks[chain[l+1]].firstFreeSlot == TAGS_PER_CHUNK;
    }
  }

  /** The next link from place k of a chain. */
  lemma LinkAt(L: Layout, i: nat, k: nat)
    requires Good(L) && i < |L.chains| && k < |L.chains[i]|
    ensures var c := L.chains[i][k];
            && 1 <= c < |L.chunks|
            && L.chunks[c].nextChunk == (if k == |L.chains[i]| - 1 then 0 else L.chains[i][k+1])
            && (L.chunks[c].nextChunk == 0 <==> k == |L.chains[i]| - 1)
  {
    assert k < |L.chains[i]| - 1 ==> 1 <= L.chains[i][k+1];
  }

  // ---------------------------------------------------------------- allocation

  /** What an allocation for item i does. */
  ghost predicate Allocated(L: Layout, M: Layout, i: nat, c: nat, slot: nat) {
    && Good(L) && Good(M) && i < |L.chains|
    && Settled(L, M) && OthersKept(L, M, i) && Appended(L, M, i, c, slot)
  }

  /** The chunks after a fresh chunk is linked behind the given chain. */
  ghost function Linked(chunks: seq<TagHeapChunk>, used: nat, chain: seq<nat>): seq<TagHeapChunk>
    requires used <= |chunks| && forall k :: 0 <= k < |chain| ==> chain[k] < used
  {
    var grown := if used == |chunks| then chunks + [BLANK_CHUNK] else chunks;
    var b := grown[used := grown[used].(firstFreeSlot := 1, nextChunk := 0)];
    if chain == [] then b
    else b[chain[|chain|-1] := b[chain[|chain|-1]].(nextChunk := used)]
  }

  /** The layout after item i gets a fresh chunk. */
  ghost function WithChunk(L: Layout, i: nat): Layout
    requires Good(L) && i < |L.chains|
  {
    OwnedChunks(L.chains, L.owner, L.rank, L.used, i);
    Layout(if L.chains[i] == [] then L.items[i := L.items[i].(firstChunk := L.used)] else L.items,
           Linked(L.chunks, L.used, L.chains[i]), L.used + 1,
           L.chains[i := L.chains[i] + [L.used]], L.owner + [i], L.rank + [|L.chains[i]|])
  }

  lemma LinkedChunks(chunks: seq<TagHeapChunk>, used: nat, chain: seq<nat>)
    requires used <= |chunks| && forall k :: 0 <= k < |chain| ==> chain[k] < used
    requires forall c :: 0 <= c < |chunks| ==> |chunks[c].content| == TAGS_PER_CHUNK
    ensures var b := Linked(chunks, used, chain);
            && |chunks| <= |b| && used < |b| && b[used].firstFreeSlot == 1 && b[used].nextChunk == 0
            && (forall c :: 0 <= c < |b| ==> |b[c].content| == TAGS_PER_CHUNK)
            && (forall c :: 0 <= c < used ==> b[c] == chunks[c] || (chain != [] && c == chain[|chain|-1]))
            && (chain != [] ==> var l := chain[|chain|-1]; b[l] == chunks[l].(nextChunk := used))
  {
  }

  /** The chain of item i is full. */
  ghost predicate FullChain(L: Layout, i: nat) {
    && Good(L) && i < |L.chains|
    && (forall k :: 0 <= k < |L.chains[i]| ==> L.chains[i][k] < |L.chunks|)
    && (L.chains[i] != [] ==> L.chunks[L.chains[i][|L.chains[i]|-1]].firstFreeSlot == TAGS_PER_CHUNK)
  }

  /** The chains with a fresh chunk behind that of item i. */
  lemma ChunkChained(L: Layout, i: nat)
    requires FullChain(L, i)
    ensures var M, chain, f := WithChunk(L, i), L.chains[i], L.items[i].firstChunk;
            && |M.chains| <= |M.items| && ChainsOk(M.items, M.chunks, M.chains)
            && (forall k :: 0 <= k < |L.chains| && k != i ==>
                  Entries(M.chunks, M.chains[k], M.items[k].firstChunk)
                  == Entries(L.chunks, L.chains[k], L.items[k].firstChunk))
            && var s, o := Entries(L.chunks, chain, f), Entries(M.chunks, M.chains[i], M.items[i].firstChunk);
               |o| == |s| + 1 && o[..|s|] == s && |s| == TAGS_PER_CHUNK * |chain|
  {
    hide ChainOk, Entries, Owned, Linked;
    var M, chain := WithChunk(L, i), L.chains[i];
    OwnedChunks(L.chains, L.owner, L.rank, L.used, i);
    LinkedChunks(L.chunks, L.used, chain);
    OtherChains(L.items, L.chunks, M.chunks, L.chains, L.owner, L.rank, L.used, i);
    ChainGrows(L.chunks, M.chunks, chain, L.items[i].firstChunk, L.used);
  }

  lemma ChunkGood(L: Layout, i: nat)
    requires FullChain(L, i)
    ensures Good(WithChunk(L, i))
  {
    hide ChainsOk, Owned, Linked;
    ChunkChained(L, i);
    OwnedGrows(L.chains, L.owner, L.rank, L.used, i);
    OwnedChunks(L.chains, L.owner, L.rank, L.used, i);
    LinkedUsed(L.chunks, L.used, L.chains[i]);
  }

  lemma LinkedUsed(chunks: seq<TagHeapChunk>, used: nat, chain: seq<nat>)
    requires used <= |chunks| && forall k :: 0 <= k < |chain| ==> chain[k] < used
    ensures used + 1 <= |Linked(chunks, used, chain)|
  {
  }

  lemma ChunkSettled(L: Layout, i: nat)
    requires FullChain(L, i)
    ensures Settled(L, WithChunk(L, i))
  {
    hide ChainOk, Owned, Linked;
    OwnedChunks(L.chains, L.owner, L.rank, L.used, i);
    LinkedChunks(L.chunks, L.used, L.chains[i]);
  }

  /** A fresh chunk behind a full chain is an allocation of its first slot. */
  lemma ChunkAllocated(L: Layout, i: nat)
    requires FullChain(L, i)
    ensures Allocated(L, WithChunk(L, i), i, L.used, 0)
  {
    hide ChainsOk, Entries, Owned, Linked, Settled;
    var M := WithChunk(L, i);
    ChunkGood(L, i);
    ChunkChained(L, i);
    ChunkSettled(L, i);
    OwnedChunks(L.chains, L.owner, L.rank, L.used, i);
    ChunksFull(L);
    LinkedChunks(L.chunks, L.used, L.chains[i]);
  }

  lemma ItemChain(L: Layout, i: nat)
    requires Good(L) && i < |L.chains|
    ensures i < |L.items| && (L.items[i].firstChunk == 0 <==> L.chains[i] == [])
    ensures forall k :: 0 <= k < |L.chains[i]| ==> 1 <= L.chains[i][k] < L.used <= |L.chunks|
  {
  }

  lemma ChunksFull(L: Layout)
    requires Good(L)
    ensures forall c :: 0 <= c < |L.chunks| ==> |L.chunks[c].content| == TAGS_PER_CHUNK
  {
    hide ChainOk, Owned;
  }

  /** The layout after one more slot of chunk c is in use. */
  ghost function WithSlot(L: Layout, c: nat): Layout
    requires c < |L.chunks|
  {
    L.(chunks := L.chunks[c := L.chunks[c].(firstFreeSlot := L.chunks[c].firstFreeSlot + 1)])
  }

  /** Taking a free slot of the last chunk is an allocation. */
  lemma SlotAllocated(L: Layout, i: nat, c: nat)
    requires Good(L) && i < |L.chains| && L.chains[i] != [] && c == L.chains[i][|L.chains[i]|-1]
    requires c < |L.chunks| && L.chunks[c].firstFreeSlot != TAGS_PER_CHUNK
    ensures Allocated(L, WithSlot(L, c), i, c, L.chunks[c].firstFreeSlot)
  {
    hide ChainOk, Entries, Owned;
    var M, chain, first := WithSlot(L, c), L.chains[i], L.items[i].firstChunk;
    OwnedChunks(L.chains, L.owner, L.rank, L.used, i);
    LastChunk(L.chunks, chain, first);
    ChainTakesSlot(L.chunks, M.chunks, chain, first);
    OtherChains(L.items, L.chunks, M.chunks, L.chains, L.owner, L.rank, L.used, i);
  }

  /** The layout after a slot is overwritten. */
  ghost function WithWrite(L: Layout, c: nat, slot: nat, x: TagHeapNode): Layout
    requires c < |L.chunks| && slot < |L.chunks[c].content|
  {
    L.(chunks := L.chunks[c := L.chunks[c].(content := L.chunks[c].content[slot := x])])
  }

  lemma PlaceOf(L: Layout, c: nat)
    requires Good(L) && 1 <= c < L.used
    ensures L.owner[c] < |L.chains| && L.rank[c] < |L.chains[L.owner[c]]| && L.chains[L.owner[c]][L.rank[c]] == c
    ensures c < |L.chunks| && |L.chunks[c].content| == TAGS_PER_CHUNK
  {
  }

  /** Overwriting a used slot replaces one entry of one item. */
  lemma SlotWritten(L: Layout, c: nat, slot: nat, x: TagHeapNode)
    requires Good(L) && 1 <= c < L.used && slot < L.chunks[c].firstFreeSlot <= TAGS_PER_CHUNK
    ensures L.owner[c] < |L.chains| && slot < |L.chunks[c].content|
    ensures var M, i, j := WithWrite(L, c, slot, x), L.owner[c], TAGS_PER_CHUNK * L.rank[c] + slot;
            && Good(M) && Settled(L, M) && OthersKept(L, M, i)
            && j < |EntriesIn(L, i)| && EntriesIn(M, i) == EntriesIn(L, i)[j := x]
  {
    PlaceOf(L, c);
    hide ChainOk, Entries, Owned;
    var M, i := WithWrite(L, c, slot, x), L.owner[c];
    OwnedChunks(L.chains, L.owner, L.rank, L.used, i);
    ChainWrites(L.chunks, M.chunks, L.chains[i], L.items[i].firstChunk, L.rank[c], slot, x);
    OtherChains(L.items, L.chunks, M.chunks, L.chains, L.owner, L.rank, L.used, i);
  }

  lemma OwnedItem(chains: seq<seq<nat>>, owner: seq<nat>, rank: seq<nat>, n: nat)
    requires Owned(chains, owner, rank, n)
    ensures Owned(chains + [[]], owner, rank, n)
  {
    forall c | 1 <= c < n
      ensures owner[c] < |chains| + 1 && rank[c] < |(chains + [[]])[owner[c]]|
      ensures (chains + [[]])[owner[c]][rank[c]] == c
    {
      assert (chains + [[]])[owner[c]] == chains[owner[c]];
    }
  }

  /** A new item without chunks leaves the other items' entries alone. */
  lemma ItemAdded(L: Layout, M: Layout, id: int)
    requires Good(L) && |L.chains| < |M.items|
    requires M == L.(items := M.items, chains := L.chains + [[]])
    requires forall k :: 0 <= k < |L.chains| ==> M.items[k] == L.items[k]
    requires M.items[|L.chains|] == ItemHeapNode(id, 0)
    ensures Good(M) && EntriesIn(M, |L.chains|) == []
    ensures forall k :: 0 <= k < |L.chains| ==> EntriesIn(M, k) == EntriesIn(L, k)
  {
    hide ChainOk, Owned, Entries;
    OwnedItem(L.chains, L.owner, L.rank, L.used);
    NoChain(L.chunks);
  }

  lemma NoChain(chunks: seq<TagHeapChunk>)
    ensures ChainOk(chunks, [], 0) && Entries(chunks, [], 0) == []
  {
  }

  // ---------------------------------------------------------------- changes to one item

  /** M differs from L in the entries of item i alone, which become s. */
  ghost predicate Changed(L: Layout, M: Layout, i: nat, s: seq<TagHeapNode>) {
    && Good(L) && Good(M) && i < |L.chains|
    && Settled(L, M) && OthersKept(L, M, i) && EntriesIn(M, i) == s
  }

  lemma ChangedEntries(L: Layout, M: Layout, i: nat, s: seq<TagHeapNode>)
    requires Changed(L, M, i, s)
    ensures Good(M) && |M.chains| == |L.chains| && i < |L.chains| && EntriesIn(M, i) == s
  {
  }

  lemma ChangedTwice(L: Layout, M: Layout, N: Layout, i: nat, s: seq<TagHeapNode>, t: seq<TagHeapNode>)
    requires Changed(L, M, i, s) && Changed(M, N, i, t)
    ensures Changed(L, N, i, t)
  {
    hide Good, EntriesIn;
  }

  lemma NotChanged(L: Layout, i: nat)
    requires Good(L) && i < |L.chains|
    ensures Changed(L, L, i, EntriesIn(L, i))
  {
  }

  /** Allocating a slot and filling it appends an entry. */
  lemma AllocatedAndWritten(L: Layout, M: Layout, N: Layout, i: nat, c: nat, slot: nat, x: TagHeapNode)
    requires Allocated(L, M, i, c, slot) && c < |M.owner| && c < |M.rank|
    requires M.owner[c] < |M.chains| && TAGS_PER_CHUNK * M.rank[c] + slot < |EntriesIn(M, M.owner[c])|
    requires Changed(M, N, M.owner[c], EntriesIn(M, M.owner[c])[TAGS_PER_CHUNK * M.rank[c] + slot := x])
    ensures Changed(L, N, i, EntriesIn(L, i) + [x])
  {
    hide Good, EntriesIn;
    var s, o := EntriesIn(L, i), EntriesIn(M, i);
    assert o[|s| := x] == s + [x];
  }

  lemma CursorChanged(L: Layout, M: Layout, i: int, c: int, slot: int, s: seq<TagHeapNode>)
    requires CursorIn(L, i, c, slot) && Changed(L, M, i, s)
    ensures CursorIn(M, i, c, slot) && PosIn(M, i, c, slot) == PosIn(L, i, c, slot)
  {
    CursorSettled(L, M, i, c, slot);
  }

  /** Opening a gap before the last or a simple entry appends a copy of it. */
  lemma OpenedHere(s: seq<TagHeapNode>, p: nat)
    requires p < |s| && (p == |s| - 1 || Simple(s[p]))
    ensures Opened(s, p) == s + [s[p]]
  {
  }

  /** Otherwise the gap is opened one further on and the entry moves into it. */
  lemma OpenedBehind(s: seq<TagHeapNode>, p: nat)
    requires p + 1 < |s| && !Simple(s[p])
    ensures Opened(s, p) == Opened(s, p + 1)[p + 1 := s[p]]
  {
  }
}
