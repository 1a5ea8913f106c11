/** The item/tag heap. Its vectors are laid out as ChunkChains describes; the abstract
    value of an item is the sequence of its entries. */
module ItemTagHeaps {
  import opened TagHistory
  import opened ChunkChains

  const MAX_ITEM_ENTRIES := 32768 * 8192

  /** The linear search for an item: the oldest item with that id, or |items|. */
  function FirstItem(items: seq<ItemHeapNode>, id: int): (i: nat)
    ensures i <= |items|
    ensures i < |items| ==> items[i].itemId == id
    ensures forall k :: 0 <= k < i ==> items[k].itemId != id
  {
    if items == [] || items[0].itemId == id then 0 else 1 + FirstItem(items[1..], id)
  }

  /** Where the run after position p starts. */
  ghost function NextRun(s: seq<TagHeapNode>, p: int): nat
    requires -1 <= p < |s|
  {
    if p == -1 then 0 else RunEnd(s, s[p].tagId, p)
  }

  /** The tags of the runs from position p on. */
  ghost function RunTags(s: seq<TagHeapNode>, p: nat): seq<nat>
    requires p <= |s|
    decreases |s| - p
  {
    if p == |s| then [] else [s[p].tagId] + RunTags(s, NextRun(s, p))
  }

  /** From position p on, all entries of tag t come before those of tag u. */
  ghost predicate Precedes(s: seq<TagHeapNode>, p: nat, t: nat, u: nat) {
    forall a, b :: p <= a < |s| && p <= b < |s| && s[a].tagId == t && s[b].tagId == u ==> a < b
  }

  /** In well-formed entries the runs are the tags: every tag that occurs from the start of a
      run on comes exactly once, in the order of the entries. */
  lemma {:induction false} RunTagsOnce(s: seq<TagHeapNode>, p: nat)
    requires (forall t :: Grouped(s, t)) && p <= |s| && (0 < p < |s| ==> s[p-1].tagId != s[p].tagId)
    ensures forall t :: t in RunTags(s, p) <==> exists i :: p <= i < |s| && s[i].tagId == t
    ensures forall i, j :: 0 <= i < j < |RunTags(s, p)| ==> RunTags(s, p)[i] != RunTags(s, p)[j]
    ensures forall i, j :: 0 <= i < j < |RunTags(s, p)| ==> Precedes(s, p, RunTags(s, p)[i], RunTags(s, p)[j])
    decreases |s| - p
  {
    if p < |s| {
      var e := NextRun(s, p);
      RunTagsOnce(s, e);
      var r := RunTags(s, e);
      assert Grouped(s, s[p].tagId);
      assert forall i :: e <= i < |s| ==> s[i].tagId != s[p].tagId;
      assert s[p].tagId !in r;
      forall t
        ensures t in RunTags(s, p) <==> exists i :: p <= i < |s| && s[i].tagId == t
      {
        assert RunTags(s, p) == [s[p].tagId] + r;
        assert (exists i :: p <= i < |s| && s[i].tagId == t)
          <==> t == s[p].tagId || exists i :: e <= i < |s| && s[i].tagId == t;
      }
      forall i | 0 <= i < |r|
        ensures r[i] != s[p].tagId
      {
        assert r[i] in r;
      }
      forall i, j | 0 <= i < j < |RunTags(s, p)|
        ensures Precedes(s, p, RunTags(s, p)[i], RunTags(s, p)[j])
      {
        assert RunTags(s, p)[j] == r[j-1] && r[j-1] in r;
        if i > 0 {
          assert RunTags(s, p)[i] == r[i-1] && r[i-1] in r;
          assert Precedes(s, e, r[i-1], r[j-1]);
        }
      }
    }
  }

  class ItemHandler {
    var itemIdx: int
    var chunkIdx: int
    var tagIdx: int
    var validItem: bool
    var validTag: bool

    constructor ()
      ensures !validItem && !validTag && itemIdx == -1 && chunkIdx == -1 && tagIdx == -1
    {
      validItem, validTag, itemIdx, chunkIdx, tagIdx := false, false, -1, -1, -1;
    }

    constructor Copy(h: ItemHandler)
      ensures itemIdx == h.itemIdx && chunkIdx == h.chunkIdx && tagIdx == h.tagIdx
      ensures validItem == h.validItem && validTag == h.validTag
    {
      itemIdx, chunkIdx, tagIdx := h.itemIdx, h.chunkIdx, h.tagIdx;
      validItem, validTag := h.validItem, h.validTag;
    }

    method Invalid()
      modifies this
      ensures !validItem && !validTag && itemIdx == -1 && chunkIdx == -1 && tagIdx == -1
    {
      validItem, validTag, itemIdx, chunkIdx, tagIdx := false, false, -1, -1, -1;
    }
  }

  class ItemTagHeap {
    var firstEffectiveCycle: int
    var nextItemVectorEntry: nat
    var nextTagVectorEntry: nat
    var dralVersion: nat
    var itemVector: seq<ItemHeapNode>
    var tagVector: seq<TagHeapChunk>
    var lookUpCache: map<int, nat>
    // configuration
    var compressMutable: bool
    var tagBackPropagate: bool
    const canonicalItemId: nat

    // the chunks of every item, and for every chunk its item and its place in the chain
    ghost var chains: seq<seq<nat>>
    ghost var owner: seq<nat>
    ghost var rank: seq<nat>

    // -------------------------------------------------------------- invariant and abstraction

    ghost function Lay(): Layout
      reads this
    {
      Layout(itemVector, tagVector, nextTagVectorEntry, chains, owner, rank)
    }

    ghost predicate Shape()
      reads this
    {
      nextItemVectorEntry == |chains| && Good(Lay())
    }

    ghost function Items(): seq<ItemHeapNode>
      reads this
      requires nextItemVectorEntry <= |itemVector|
    {
      itemVector[..nextItemVectorEntry]
    }

    /** The abstract value of item i. */
    ghost function EntriesOf(i: nat): seq<TagHeapNode>
      reads this
      requires Shape() && i < |chains|
    {
      EntriesIn(Lay(), i)
    }

    /** Cached positions are the ones the linear search would find. */
    ghost predicate CacheOk()
      reads this
    {
      nextItemVectorEntry <= |itemVector| && CacheAgrees(lookUpCache, Items())
    }

    ghost predicate Cursor(h: ItemHandler)
      reads this, h
    {
      Shape() && CursorIn(Lay(), h.itemIdx, h.chunkIdx, h.tagIdx)
    }

    ghost function Pos(h: ItemHandler): (p: int)
      reads this, h
      requires Cursor(h)
      ensures -1 <= p && (p == -1 <==> h.chunkIdx == -1)
      ensures p < |EntriesOf(h.itemIdx)|
    {
      PosInRange(Lay(), h.itemIdx, h.chunkIdx, h.tagIdx);
      PosIn(Lay(), h.itemIdx, h.chunkIdx, h.tagIdx)
    }

    /** The slot under a cursor. */
    function NodeAt(h: ItemHandler): (n: TagHeapNode)
      reads this, h
      requires Cursor(h) && h.chunkIdx != -1
      ensures 0 <= Pos(h) < |EntriesOf(h.itemIdx)| && n == EntriesOf(h.itemIdx)[Pos(h)]
    {
      PosInRange(Lay(), h.itemIdx, h.chunkIdx, h.tagIdx);
      tagVector[h.chunkIdx].content[h.tagIdx]
    }

    constructor (canonical: nat)
      ensures Shape() && CacheOk() && |chains| == 0 && lookUpCache == map[] && canonicalItemId == canonical
      ensures dralVersion == 999 && compressMutable && !tagBackPropagate
    {
      canonicalItemId := canonical;
      itemVector, tagVector, lookUpCache := [], [BLANK_CHUNK], map[];
      dralVersion := 999;
      compressMutable, tagBackPropagate := true, false;
      firstEffectiveCycle, nextItemVectorEntry, nextTagVectorEntry := -99999, 0, 1;
      chains, owner, rank := [], [0], [0];
    }

    /** Empties the heap; the lookup cache keeps what it has. */
    method Reset()
      requires Shape()
      modifies `firstEffectiveCycle, `nextItemVectorEntry, `nextTagVectorEntry, `chains, `owner, `rank
      ensures Shape() && |chains| == 0 && nextTagVectorEntry == 1 && firstEffectiveCycle == -99999
    {
      firstEffectiveCycle := -99999;
      nextItemVectorEntry := 0;
      nextTagVectorEntry := 1;
      chains, owner, rank := [], [0], [0];
    }

    // -------------------------------------------------------------- cursors

    method ResetTagState(h: ItemHandler)
      requires Shape() && 0 <= h.itemIdx < |chains|
      modifies h
      ensures Cursor(h) && Pos(h) == -1 && h.validTag
      ensures h.itemIdx == old(h.itemIdx) && h.validItem == old(h.validItem)
    {
      h.chunkIdx := -1;
      h.tagIdx := -1;
      h.validTag := true;
    }

    method IsLast(h: ItemHandler) returns (r: bool)
      requires Cursor(h)
      ensures r <==> Pos(h) == |EntriesOf(h.itemIdx)| - 1
    {
      hide Good, EntriesIn;
      if h.chunkIdx == -1 {
        FirstUnder(Lay(), h.itemIdx);
        return itemVector[h.itemIdx].firstChunk == 0;
      }
      ChunkUnder(Lay(), h.itemIdx, h.chunkIdx, h.tagIdx);
      r := tagVector[h.chunkIdx].nextChunk == 0 && tagVector[h.chunkIdx].firstFreeSlot == h.tagIdx + 1;
    }

    /** One step of a cursor; at the last entry it is invalidated and stays. */
    method SkipToNextEntry(h: ItemHandler) returns (r: bool)
      requires Cursor(h)
      modifies h
      ensures Cursor(h) && h.itemIdx == old(h.itemIdx) && h.validItem == old(h.validItem)
      ensures r <==> old(Pos(h)) + 1 < |EntriesOf(h.itemIdx)|
      ensures Pos(h) == if r then old(Pos(h)) + 1 else old(Pos(h))
      ensures h.validTag == (r && old(h.validTag))
    {
      hide Good, EntriesIn;
      var last := IsLast(h);
      if last {
        h.validTag := false;
        return false;
      }
      FirstUnder(Lay(), h.itemIdx);
      if h.chunkIdx == -1 {
        h.chunkIdx := itemVector[h.itemIdx].firstChunk;
        h.tagIdx := 0;
        return true;
      }
      ChunkUnder(Lay(), h.itemIdx, h.chunkIdx, h.tagIdx);
      h.tagIdx := h.tagIdx + 1;
      if h.tagIdx == TAGS_PER_CHUNK {
        h.chunkIdx := tagVector[h.chunkIdx].nextChunk;
        h.tagIdx := 0;
      }
      return true;
    }

    /** Moves a cursor behind the run it points into. */
    method SkipToNextTag(h: ItemHandler) returns (r: bool)
      requires Cursor(h) && h.validTag
      modifies h
      ensures Cursor(h) && h.itemIdx == old(h.itemIdx) && h.validItem == old(h.validItem)
      ensures var s, e := EntriesOf(h.itemIdx), NextRun(old(EntriesOf(h.itemIdx)), old(Pos(h)));
              r == h.validTag == (e < |s|) && Pos(h) == if r then e else |s| - 1
    {
      hide Good, EntriesIn;
      ghost var p, s := Pos(h), EntriesOf(h.itemIdx);
      if h.chunkIdx == -1 {
        r := SkipToNextEntry(h);
        return;
      }
      var base := NodeAt(h).tagId;
      var more := SkipToNextEntry(h);
      while more && NodeAt(h).tagId == base
        invariant Cursor(h) && h.itemIdx == old(h.itemIdx) && h.validItem == old(h.validItem)
        invariant more ==> p < Pos(h) < |s|
        invariant !more ==> Pos(h) == |s| - 1
        invariant h.validTag == more
        invariant RunEnd(s, base, p) == RunEnd(s, base, if more then Pos(h) else |s|)
        decreases |s| - Pos(h), more
      {
        more := SkipToNextEntry(h);
      }
      r := h.validTag;
    }

    /** Walks from a cursor to the last entry; every entry behind the cursor is seen once, in order. */
    method DumpItem(h: ItemHandler) returns (seen: seq<TagHeapNode>)
      requires Cursor(h)
      modifies h
      ensures Cursor(h) && h.itemIdx == old(h.itemIdx)
      ensures seen == EntriesOf(h.itemIdx)[old(Pos(h))+1..] && Pos(h) == |EntriesOf(h.itemIdx)| - 1
    {
      hide Good, EntriesIn, PosIn;
      ghost var p, s := Pos(h), EntriesOf(h.itemIdx);
      seen := [];
      var eol := IsLast(h);
      while !eol
        invariant Cursor(h) && h.itemIdx == old(h.itemIdx)
        invariant p <= Pos(h) && eol == (Pos(h) == |s| - 1) && seen == s[p+1..Pos(h)+1]
        decreases |s| - Pos(h)
      {
        var _ := SkipToNextEntry(h);
        eol := IsLast(h);
        seen := seen + [NodeAt(h)];
      }
    }

    /** Walks over the tags of an item from its id on; every run is seen once. */
    method TagList(h: ItemHandler) returns (tags: seq<nat>)
      requires Cursor(h) && Pos(h) == -1 && h.validTag
      modifies h
      ensures Cursor(h) && h.itemIdx == old(h.itemIdx) && !h.validTag
      ensures tags == RunTags(EntriesOf(h.itemIdx), 0)
    {
      hide Good, EntriesIn, PosIn;
      ghost var s := EntriesOf(h.itemIdx);
      tags := [];
      var goon := SkipToNextTag(h);
      while goon
        invariant Cursor(h) && h.itemIdx == old(h.itemIdx) && h.validTag == goon
        invariant goon ==> h.chunkIdx != -1
        invariant tags + RunTags(s, if goon then Pos(h) else |s|) == RunTags(s, 0)
        decreases |s| - Pos(h), goon
      {
        tags := tags + [NodeAt(h).tagId];
        goon := SkipToNextTag(h);
      }
    }

    /** Takes a cursor back to the first value of the tag it points to. */
    method RewindToFirstTagValue(h: ItemHandler)
      requires Cursor(h) && (h.chunkIdx != -1 ==> WellFormed(EntriesOf(h.itemIdx), NodeAt(h).tagId))
      modifies h
      ensures Cursor(h) && h.itemIdx == old(h.itemIdx)
      ensures var s, p := EntriesOf(h.itemIdx), old(Pos(h));
              Pos(h) == if p == -1 then -1 else FirstOf(s, s[p].tagId)
      ensures h.validItem == old(h.validItem) && (old(h.validTag) ==> h.validTag)
    {
      hide Good, EntriesIn;
      ghost var p, s := Pos(h), EntriesOf(h.itemIdx);
      if h.chunkIdx == -1 {
        return;
      }
      var node := NodeAt(h);
      if node.isSOV || node.isMutable {
        FirstUnder(Lay(), h.itemIdx);
        h.chunkIdx := itemVector[h.itemIdx].firstChunk;
        h.tagIdx := 0;
        while NodeAt(h).tagId != node.tagId
          invariant Cursor(h) && h.itemIdx == old(h.itemIdx) && 0 <= Pos(h) <= FirstOf(s, node.tagId)
          invariant h.validItem == old(h.validItem) && h.validTag == old(h.validTag)
          decreases |s| - Pos(h)
        {
          var _ := SkipToNextEntry(h);
        }
      }
    }

    // -------------------------------------------------------------- finding items

    /** Adds a cache line; the cache may drop any others. */
    method CacheInsert(id: int, i: nat)
      modifies `lookUpCache
      ensures CacheStep(old(lookUpCache), lookUpCache, id, i)
    {
      var kept: set<int> :| kept <= lookUpCache.Keys + {id};
      var filled := lookUpCache[id := i];
      lookUpCache := map k | k in kept :: filled[k];
    }

    method LinearSearch(id: int) returns (i: nat)
      requires nextItemVectorEntry <= |itemVector|
      ensures i == FirstItem(Items(), id)
    {
      i := 0;
      while i < nextItemVectorEntry && itemVector[i].itemId != id
        invariant i <= nextItemVectorEntry
        invariant forall k :: 0 <= k < i ==> Items()[k].itemId != id
      {
        i := i + 1;
      }
      assert i < nextItemVectorEntry ==> Items()[i].itemId == id;
    }

    /** Points h to the item id; a cached position is taken without looking at the item. */
    method LookForItemId(h: ItemHandler, id: int) returns (r: bool)
      requires Shape()
      requires id in lookUpCache ==> lookUpCache[id] < nextItemVectorEntry
      modifies h, `lookUpCache
      ensures r == h.validItem == h.validTag == (id in old(lookUpCache) || FirstItem(Items(), id) < |Items()|)
      ensures r ==> Cursor(h) && Pos(h) == -1
                    && h.itemIdx == if id in old(lookUpCache) then old(lookUpCache)[id] else FirstItem(Items(), id)
      ensures old(CacheOk()) ==> CacheOk()
    {
      hide EntriesIn, ChainsOk, Owned, FirstItem;
      if id in lookUpCache {
        h.itemIdx := lookUpCache[id];
      } else {
        var i := LinearSearch(id);
        if i == nextItemVectorEntry {
          h.Invalid();
          return false;
        }
        CacheInsert(id, i);
        h.itemIdx := i;
      }
      h.validItem := true;
      ResetTagState(h);
      return true;
    }

    method GetFirstItem(h: ItemHandler) returns (r: bool)
      requires Shape() && CacheOk()
      modifies h, `lookUpCache
      ensures CacheOk() && r == h.validItem == (|Items()| > 0)
      ensures r ==> Cursor(h) && Pos(h) == -1 && h.itemIdx == 0
    {
      if nextItemVectorEntry == 0 {
        h.Invalid();
        return false;
      }
      assert Items()[0] == itemVector[0];
      var _ := LookForItemId(h, itemVector[0].itemId);
      return true;
    }

    /** The newest item, when ids are not reused. */
    method GetLastItem(h: ItemHandler) returns (r: bool)
      requires Shape() && CacheOk() && DistinctIds(Items())
      modifies h, `lookUpCache
      ensures CacheOk() && r == h.validItem == (|Items()| > 0)
      ensures r ==> Cursor(h) && Pos(h) == -1 && h.itemIdx == |Items()| - 1
    {
      hide ChainsOk, Owned, EntriesIn, CacheAgrees;
      if nextItemVectorEntry == 0 {
        h.Invalid();
        return false;
      }
      CachedPosition(lookUpCache, Items(), itemVector[nextItemVectorEntry-1].itemId);
      assert Items()[nextItemVectorEntry-1] == itemVector[nextItemVectorEntry-1];
      var _ := LookForItemId(h, itemVector[nextItemVectorEntry-1].itemId);
      return true;
    }

    /** Adds an item without entries, unless the item vector is full. */
    method NewItemBlock(id: int) returns (i: int)
      requires Shape()
      modifies `itemVector, `nextItemVectorEntry, `lookUpCache, `chains
      ensures Shape()
      ensures if old(nextItemVectorEntry) == 0x1000_0000
              then i == -1 && Lay() == old(Lay()) && lookUpCache == old(lookUpCache)
              else && i == old(nextItemVectorEntry) == |chains| - 1 && nextItemVectorEntry == i + 1
                   && EntriesOf(i) == [] && |Items()| == i + 1 && Items()[i].itemId == id
                   && Items()[..i] == old(Items())
                   && (forall k :: 0 <= k < i ==> EntriesOf(k) == old(EntriesOf(k)))
      ensures old(CacheOk()) && FirstItem(old(Items()), id) == |old(Items())| ==> CacheOk()
    {
      hide EntriesIn, FirstItem, CacheAgrees, ChainsOk, Owned;
      if nextItemVectorEntry == MAX_ITEM_ENTRIES {
        return -1;
      }
      i := nextItemVectorEntry;
      if i == |itemVector| {
        itemVector := itemVector + [ItemHeapNode(0, 0)];
      }
      itemVector := itemVector[i := ItemHeapNode(id, 0)];
      chains := chains + [[]];
      CacheInsert(id, i);
      nextItemVectorEntry := nextItemVectorEntry + 1;
      ItemAdded(old(Lay()), Lay(), id);
      assert Items() == old(Items()) + [ItemHeapNode(id, 0)];
      if old(CacheOk()) && FirstItem(old(Items()), id) == |old(Items())| {
        CacheKept(old(lookUpCache), lookUpCache, old(Items()), ItemHeapNode(id, 0));
      }
    }

    // -------------------------------------------------------------- slots

    /** Follows the links of item i to its last chunk. */
    method LastChunkOf(i: nat) returns (c: nat)
      requires Shape() && i < |chains| && itemVector[i].firstChunk != 0
      ensures chains[i] != [] && c == chains[i][|chains[i]|-1] && c < |tagVector|
    {
      ghost var k := 0;
      c := itemVector[i].firstChunk;
      LinkAt(Lay(), i, 0);
      while tagVector[c].nextChunk != 0
        invariant k < |chains[i]| && c == chains[i][k] < |tagVector|
        invariant tagVector[c].nextChunk == if k == |chains[i]| - 1 then 0 else chains[i][k+1]
        invariant tagVector[c].nextChunk == 0 <==> k == |chains[i]| - 1
        decreases |chains[i]| - k
      {
        c := tagVector[c].nextChunk;
        k := k + 1;
        LinkAt(Lay(), i, k);
      }
    }

    /** Bumps the allocation pointer; the chunk keeps whatever its slots held before. */
    method FreshChunk() returns (c: nat)
      requires 1 <= nextTagVectorEntry <= |tagVector|
      modifies `tagVector, `nextTagVectorEntry
      ensures c == old(nextTagVectorEntry) && nextTagVectorEntry == c + 1
      ensures tagVector == Linked(old(tagVector), c, [])
    {
      c := nextTagVectorEntry;
      nextTagVectorEntry := nextTagVectorEntry + 1;
      if c == |tagVector| {
        tagVector := tagVector + [BLANK_CHUNK];
      }
      tagVector := tagVector[c := tagVector[c].(firstFreeSlot := 1, nextChunk := 0)];
    }

    /** Appends a slot to the entries of the item of h. */
    method AllocateNewSlot(h: ItemHandler) returns (c: nat, slot: nat)
      requires Shape() && 0 <= h.itemIdx < |chains|
      modifies `itemVector, `tagVector, `nextTagVectorEntry, `chains, `owner, `rank
      ensures Shape() && Allocated(old(Lay()), Lay(), h.itemIdx, c, slot)
    {
      hide Settled, OthersKept, Appended, EntriesIn, ChainsOk, Owned;
      var i: nat := h.itemIdx;
      ItemChain(Lay(), i);
      if itemVector[i].firstChunk == 0 {
        ChunkAllocated(Lay(), i);
        c := FreshChunk();
        slot := 0;
        itemVector := itemVector[i := itemVector[i].(firstChunk := c)];
      } else {
        var last := LastChunkOf(i);
        if tagVector[last].firstFreeSlot == TAGS_PER_CHUNK {
          ChunkAllocated(Lay(), i);
          c := FreshChunk();
          slot := 0;
          tagVector := tagVector[last := tagVector[last].(nextChunk := c)];
        } else {
          SlotAllocated(Lay(), i, last);
          c, slot := last, tagVector[last].firstFreeSlot;
          tagVector := tagVector[c := tagVector[c].(firstFreeSlot := slot + 1)];
          return;
        }
      }
      owner, rank := owner + [i], rank + [|chains[i]|];
      chains := chains[i := chains[i] + [c]];
    }

    /** Overwrites a used slot. */
    method WriteSlot(c: nat, slot: nat, x: TagHeapNode)
      requires Shape() && 1 <= c < nextTagVectorEntry && slot < tagVector[c].firstFreeSlot <= TAGS_PER_CHUNK
      modifies `tagVector
      ensures Shape()
      ensures var j := TAGS_PER_CHUNK * rank[c] + slot;
              && owner[c] < |chains| && j < |old(EntriesOf(owner[c]))|
              && Changed(old(Lay()), Lay(), owner[c], old(EntriesOf(owner[c]))[j := x])
    {
      hide Settled, OthersKept, EntriesIn, ChainOk, Owned;
      SlotWritten(Lay(), c, slot, x);
      tagVector := tagVector[c := tagVector[c].(content := tagVector[c].content[slot := x])];
    }

    /** Allocates a slot and fills it. */
    method AppendNode(h: ItemHandler, x: TagHeapNode)
      requires Shape() && 0 <= h.itemIdx < |chains|
      modifies `itemVector, `tagVector, `nextTagVectorEntry, `chains, `owner, `rank
      ensures Shape() && Changed(old(Lay()), Lay(), h.itemIdx, old(EntriesOf(h.itemIdx)) + [x])
    {
      hide Settled, OthersKept, EntriesIn, ChainsOk, Owned;
      var c, slot := AllocateNewSlot(h);
      label Allocated:
      WriteSlot(c, slot, x);
      AllocatedAndWritten(old(Lay()), old@Allocated(Lay()), Lay(), h.itemIdx, c, slot, x);
    }

    /** Opens a gap at h: the entries from h on move up by one, except that the first
        simple entry goes to the end. The slot of h keeps its entry until it is overwritten. */
    method ShiftSlot(h: ItemHandler)
      requires Cursor(h) && h.chunkIdx != -1
      modifies `itemVector, `tagVector, `nextTagVectorEntry, `chains, `owner, `rank
      ensures Cursor(h) && Pos(h) == old(Pos(h))
      ensures Changed(old(Lay()), Lay(), h.itemIdx, Opened(old(EntriesOf(h.itemIdx)), old(Pos(h))))
      decreases |EntriesOf(h.itemIdx)| - Pos(h)
    {
      hide Good, Changed, EntriesIn, Opened, PosIn;
      ghost var s, p := EntriesOf(h.itemIdx), Pos(h);
      var node := NodeAt(h);
      var last := IsLast(h);
      if last || Simple(node) {
        var temp := new ItemHandler();
        temp.itemIdx := h.itemIdx;
        OpenedHere(s, p);
        AppendNode(temp, node);
      } else {
        var temp := new ItemHandler.Copy(h);
        var _ := SkipToNextEntry(temp);
        OpenedBehind(s, p);
        ShiftSlot(temp);
        ChangedEntries(old(Lay()), Lay(), h.itemIdx, Opened(s, p + 1));
        label Shifted:
        WriteHere(temp, node);
        ChangedTwice(old(Lay()), old@Shifted(Lay()), Lay(), h.itemIdx, Opened(s, p + 1), Opened(s, p));
      }
      CursorChanged(old(Lay()), Lay(), h.itemIdx, h.chunkIdx, h.tagIdx, Opened(s, p));
    }

    /** Overwrites the slot under a cursor. */
    method WriteHere(h: ItemHandler, x: TagHeapNode)
      requires Cursor(h) && h.chunkIdx != -1
      modifies `tagVector
      ensures Cursor(h) && Pos(h) == old(Pos(h))
      ensures Changed(old(Lay()), Lay(), h.itemIdx, old(EntriesOf(h.itemIdx))[Pos(h) := x])
    {
      hide Changed, EntriesIn, ChainsOk, Owned;
      WriteSlot(h.chunkIdx, h.tagIdx, x);
      CursorChanged(old(Lay()), Lay(), h.itemIdx, h.chunkIdx, h.tagIdx, old(EntriesOf(h.itemIdx))[old(Pos(h)) := x]);
    }

    // -------------------------------------------------------------- adding tags

    /** Takes h from the item id to the first entry of tag t, if there is one. */
    method FindTag(h: ItemHandler, t: nat) returns (found: bool)
      requires Cursor(h) && Pos(h) == -1 && h.validTag
      modifies h
      ensures Cursor(h) && h.itemIdx == old(h.itemIdx) && h.validItem == old(h.validItem)
      ensures var s := EntriesOf(h.itemIdx);
              && (found <==> FirstOf(s, t) < |s|) && (found <==> h.validTag)
              && (found ==> h.chunkIdx != -1 && Pos(h) == FirstOf(s, t))
    {
      hide Good, EntriesIn, PosIn;
      ghost var s := EntriesOf(h.itemIdx);
      found := false;
      var more := SkipToNextTag(h);
      while more
        invariant Cursor(h) && h.itemIdx == old(h.itemIdx) && h.validItem == old(h.validItem)
        invariant h.validTag == more
        invariant more ==> h.chunkIdx != -1 && Pos(h) <= FirstOf(s, t)
        invariant !more ==> FirstOf(s, t) == |s|
        decreases |s| - Pos(h), more
      {
        if NodeAt(h).tagId == t {
          return true;
        }
        assert NextRun(s, Pos(h)) <= FirstOf(s, t);
        more := SkipToNextTag(h);
      }
    }

    /** Takes h from the first entry of tag t behind its last; returns the last entry. */
    method PassRun(h: ItemHandler, t: nat) returns (last: TagHeapNode)
      requires Cursor(h) && h.chunkIdx != -1 && NodeAt(h).tagId == t && h.validTag
      modifies h
      ensures Cursor(h) && h.itemIdx == old(h.itemIdx) && h.chunkIdx != -1
      ensures var s, e := EntriesOf(h.itemIdx), RunEnd(old(EntriesOf(h.itemIdx)), t, old(Pos(h)));
              && 0 < e && last == s[e-1]
              && h.validTag == (e < |s|) && (h.validTag ==> Pos(h) == e)
    {
      hide Good, EntriesIn, PosIn;
      ghost var s, p := EntriesOf(h.itemIdx), Pos(h);
      last := NodeAt(h);
      var more := SkipToNextEntry(h);
      while more && NodeAt(h).tagId == t
        invariant Cursor(h) && h.itemIdx == old(h.itemIdx) && h.chunkIdx != -1 && h.validTag == more
        invariant p <= Pos(h) && (more ==> p < Pos(h))
        invariant last == s[if more then Pos(h) - 1 else |s| - 1]
        invariant RunEnd(s, t, p) == RunEnd(s, t, if more then Pos(h) else |s|)
        decreases |s| - Pos(h), more
      {
        last := NodeAt(h);
        more := SkipToNextEntry(h);
      }
    }

    /** Adds value v of tag t to the item with the given id: its entries become what
        WithTag says, and no other item changes. */
    method NewTag(id: int, t: nat, v: nat, cycle: int)
      requires Shape() && CacheOk() && FirstItem(Items(), id) < |Items()| && t != canonicalItemId
      modifies `lookUpCache, `itemVector, `tagVector, `nextTagVectorEntry, `chains, `owner, `rank
      ensures Shape() && CacheOk()
      ensures var i := FirstItem(old(Items()), id);
              Changed(old(Lay()), Lay(), i,
                      WithTag(old(EntriesOf(i)), t, v, Stored(cycle, firstEffectiveCycle), compressMutable))
    {
      hide Good, Changed, EntriesIn, PosIn, FirstItem, CacheAgrees, FirstOf, TagBits;
      CachedPosition(lookUpCache, Items(), id);
      var h := new ItemHandler();
      var found := LookForItemId(h, id);
      ghost var i, s, L := h.itemIdx as nat, EntriesOf(h.itemIdx), Lay();
      var c := Stored(cycle, firstEffectiveCycle);
      var mutableTag := FindTag(h, t);
      if mutableTag {
        AddToRun(h, t, v, c);
      } else {
        AppendNode(h, TagHeapNode(TagBits(t), v, false, false, c));
      }
      ItemsKept(L, Lay(), i, WithTag(s, t, v, c, compressMutable), lookUpCache);
    }

    /** Adds a value to the tag whose first entry is at h. */
    method AddToRun(h: ItemHandler, t: nat, v: nat, c: nat)
      requires Cursor(h) && h.validTag && h.chunkIdx != -1 && NodeAt(h).tagId == t
      requires Pos(h) == FirstOf(EntriesOf(h.itemIdx), t)
      modifies h, `itemVector, `tagVector, `nextTagVectorEntry, `chains, `owner, `rank
      ensures Shape() && h.itemIdx == old(h.itemIdx) && 0 <= h.itemIdx < |old(chains)|
      ensures Changed(old(Lay()), Lay(), h.itemIdx, WithTag(old(EntriesOf(h.itemIdx)), t, v, c, compressMutable))
    {
      hide Good, Changed, EntriesIn, Opened, PosIn, FirstOf, RunEnd, TagBits;
      ghost var i, s, L := h.itemIdx as nat, EntriesOf(h.itemIdx), Lay();
      ghost var m := s[Pos(h) := s[Pos(h)].(isMutable := true)];
      WriteHere(h, NodeAt(h).(isMutable := true));
      ChangedEntries(L, Lay(), i, m);
      var last := PassRun(h, t);
      if !(compressMutable && last.value == v) {
        AddBehindRun(h, TagHeapNode(TagBits(t), v, true, false, c), L, m);
      }
    }

    /** Adds an entry behind the run that h has just passed. */
    method AddBehindRun(h: ItemHandler, node: TagHeapNode, ghost L: Layout, ghost m: seq<TagHeapNode>)
      requires Cursor(h) && h.chunkIdx != -1 && m == EntriesOf(h.itemIdx) && Changed(L, Lay(), h.itemIdx, m)
      modifies `itemVector, `tagVector, `nextTagVectorEntry, `chains, `owner, `rank
      ensures Shape()
      ensures Changed(L, Lay(), h.itemIdx,
                if h.validTag then Opened(m, old(Pos(h)))[old(Pos(h)) := node] else m + [node])
    {
      hide Good, Changed, EntriesIn, Opened, PosIn;
      ghost var i, p := h.itemIdx as nat, Pos(h);
      if !h.validTag {
        AppendNode(h, node);
        ChangedTwice(L, old(Lay()), Lay(), i, m, m + [node]);
      } else {
        ShiftSlot(h);
        ghost var M, o := Lay(), Opened(m, p);
        ChangedTwice(L, old(Lay()), M, i, m, o);
        ChangedEntries(L, M, i, o);
        WriteHere(h, node);
        ChangedTwice(L, M, Lay(), i, o, o[p := node]);
      }
    }

    /** Adds a set of values of tag t, one entry each. */
    method NewTagSet(id: int, t: nat, list: seq<nat>, cycle: int)
      requires Shape() && CacheOk() && FirstItem(Items(), id) < |Items()|
      modifies `lookUpCache, `itemVector, `tagVector, `nextTagVectorEntry, `chains, `owner, `rank
      ensures Shape() && CacheOk()
      ensures var i := FirstItem(old(Items()), id);
              Changed(old(Lay()), Lay(), i,
                      WithSet(old(EntriesOf(i)), t, list, Stored(cycle, firstEffectiveCycle)))
    {
      hide Good, Changed, EntriesIn, PosIn, FirstItem, CacheAgrees;
      CachedPosition(lookUpCache, Items(), id);
      var h := new ItemHandler();
      var found := LookForItemId(h, id);
      ghost var i, s, L := h.itemIdx as nat, EntriesOf(h.itemIdx), Lay();
      var c := Stored(cycle, firstEffectiveCycle);
      var k := 0;
      NotChanged(L, i);
      while k < |list|
        invariant 0 <= k <= |list| && Shape() && h.itemIdx == i < |chains|
        invariant Changed(L, Lay(), i, EntriesOf(i)) && CacheAgrees(lookUpCache, old(Items()))
        invariant WithSet(EntriesOf(i), t, list[k..], c) == WithSet(s, t, list, c)
      {
        ghost var M, o := Lay(), EntriesOf(i);
        var node := TagHeapNode(TagBits(t), list[k], false, true, c);
        AppendNode(h, node);
        ChangedTwice(L, M, Lay(), i, o, o + [node]);
        ChangedEntries(M, Lay(), i, o + [node]);
        assert list[k..][1..] == list[k+1..];
        k := k + 1;
      }
      ItemsKept(L, Lay(), i, EntriesOf(i), lookUpCache);
    }

    // -------------------------------------------------------------- looking values up

    /** Whether values are known before the cycle at which they are first set. */
    predicate Backwards()
      reads this
    {
      tagBackPropagate || dralVersion < 2
    }

    /** The value of the mutable tag that starts at h. */
    method GetMutableTagValue(h: ItemHandler, cycle: nat) returns (r: bool, value: nat, when: int)
      requires Cursor(h) && h.chunkIdx != -1 && h.validTag
      requires Pos(h) == FirstOf(EntriesOf(h.itemIdx), NodeAt(h).tagId) && NodeAt(h).isMutable
      ensures Returned(r, value, when,
                       Answer(EntriesOf(h.itemIdx), NodeAt(h).tagId, cycle, tagBackPropagate || dralVersion < 2))
      ensures cycle < NodeAt(h).cycle ==>
                && (r <==> tagBackPropagate || dralVersion < 2)
                && value == NodeAt(h).value && when == NodeAt(h).cycle + firstEffectiveCycle
    {
      hide Good, EntriesIn, PosIn;
      ghost var s, p := EntriesOf(h.itemIdx), Pos(h);
      var node := NodeAt(h);
      value, when := node.value, node.cycle + firstEffectiveCycle;
      if node.cycle > cycle {
        r := Backwards();
        return;
      }
      var actual := new ItemHandler.Copy(h);
      var last := node;
      while actual.validTag && NodeAt(actual).tagId == node.tagId && NodeAt(actual).cycle <= cycle
        invariant Cursor(actual) && actual.itemIdx == h.itemIdx && actual.chunkIdx != -1
        invariant last.tagId == node.tagId && last.cycle <= cycle
        invariant p <= Pos(actual)
        invariant actual.validTag ==> last == s[if Pos(actual) == p then p else Pos(actual) - 1]
        invariant actual.validTag && Pos(actual) > p ==>
                    LastReached(s, node.tagId, cycle, p) == LastReached(s, node.tagId, cycle, Pos(actual) - 1)
        invariant !actual.validTag ==> last == s[LastReached(s, node.tagId, cycle, p)]
        decreases |s| - Pos(actual), actual.validTag
      {
        last := NodeAt(actual);
        var _ := SkipToNextEntry(actual);
      }
      return true, last.value, last.cycle + firstEffectiveCycle;
    }

    /** How an answer is handed to the caller. */
    ghost predicate Returned(r: bool, value: nat, when: int, a: Option<Stamp>)
      reads this
    {
      match a
      case None => !r
      case Some(x) => r && value == x.value && when == x.cycle + firstEffectiveCycle
    }

    /** The value of tag t of the item of h at a cycle; h ends at the first entry of t. */
    method GetTagById(h: ItemHandler, t: nat, cycle: int) returns (r: bool, value: int, when: int)
      requires Shape() && 0 <= h.itemIdx < |chains|
      modifies h
      ensures h.itemIdx == old(h.itemIdx)
      ensures t == canonicalItemId ==> r && value == itemVector[h.itemIdx].itemId && when == 0
      ensures t != canonicalItemId ==>
                var a := Answer(EntriesOf(h.itemIdx), t, Relative(cycle, firstEffectiveCycle),
                                tagBackPropagate || dralVersion < 2);
                r == a.Some? && (r ==> value == a.value.value && when == a.value.cycle + firstEffectiveCycle)
      ensures t != canonicalItemId && FirstOf(EntriesOf(h.itemIdx), t) < |EntriesOf(h.itemIdx)| ==>
                var x := EntriesOf(h.itemIdx)[FirstOf(EntriesOf(h.itemIdx), t)];
                Relative(cycle, firstEffectiveCycle) < x.cycle ==>
                  && (r <==> tagBackPropagate || dralVersion < 2)
                  && (r ==> value == x.value && when == x.cycle + firstEffectiveCycle)
    {
      hide ChainsOk, Owned, EntriesIn, PosIn;
      ResetTagState(h);
      if t == canonicalItemId {
        return true, itemVector[h.itemIdx].itemId, 0;
      }
      var found := GetTagPosition(h, t);
      if !found {
        return false, 0, 0;
      }
      r, value, when := GetTag(h, cycle);
    }

    /** Points h to the first entry of tag t; the item id is a tag of its own. */
    method GetTagPosition(h: ItemHandler, t: nat) returns (found: bool)
      requires Shape() && 0 <= h.itemIdx < |chains|
      modifies h
      ensures Cursor(h) && h.itemIdx == old(h.itemIdx) && found == h.validTag
      ensures t == canonicalItemId ==> found && Pos(h) == -1
      ensures t != canonicalItemId ==>
                var s := EntriesOf(h.itemIdx);
                && (found <==> FirstOf(s, t) < |s|)
                && (found ==> h.chunkIdx != -1 && Pos(h) == FirstOf(s, t))
    {
      hide Good, EntriesIn, PosIn;
      ResetTagState(h);
      if t == canonicalItemId {
        return true;
      }
      ghost var s := EntriesOf(h.itemIdx);
      var more := SkipToNextEntry(h);
      while h.validTag && NodeAt(h).tagId != t
        invariant Cursor(h) && h.itemIdx == old(h.itemIdx)
        invariant h.validTag ==> h.chunkIdx != -1 && Pos(h) <= FirstOf(s, t)
        invariant !h.validTag ==> FirstOf(s, t) == |s|
        decreases |s| - Pos(h), h.validTag
      {
        more := SkipToNextEntry(h);
      }
      return h.validTag;
    }

    /** The value at a cycle of the tag whose first entry is at h. */
    method GetTag(h: ItemHandler, cycle: int) returns (r: bool, value: int, when: int)
      requires Cursor(h) && h.validTag
      requires h.chunkIdx != -1 ==> Pos(h) == FirstOf(EntriesOf(h.itemIdx), NodeAt(h).tagId)
      ensures h.chunkIdx == -1 ==> r && value == itemVector[h.itemIdx].itemId && when == 0
      ensures h.chunkIdx != -1 ==>
                var a := Answer(EntriesOf(h.itemIdx), NodeAt(h).tagId, Relative(cycle, firstEffectiveCycle),
                                tagBackPropagate || dralVersion < 2);
                r == a.Some? && (r ==> value == a.value.value && when == a.value.cycle + firstEffectiveCycle)
      ensures h.chunkIdx != -1 && Relative(cycle, firstEffectiveCycle) < NodeAt(h).cycle ==>
                && (r <==> tagBackPropagate || dralVersion < 2)
                && (r ==> value == NodeAt(h).value && when == NodeAt(h).cycle + firstEffectiveCycle)
    {
      hide ChainsOk, Owned, EntriesIn, PosIn;
      if h.chunkIdx == -1 {
        return true, itemVector[h.itemIdx].itemId, 0;
      }
      var node := NodeAt(h);
      if !node.isMutable {
        r := Relative(cycle, firstEffectiveCycle) >= node.cycle || Backwards();
        return r, node.value, node.cycle + firstEffectiveCycle;
      }
      r, value, when := GetMutableTagValue(h, Relative(cycle, firstEffectiveCycle));
    }
  }

  /** Every cached position is the one the linear search finds. */
  ghost predicate CacheAgrees(cache: map<int, nat>, items: seq<ItemHeapNode>) {
    forall id :: id in cache ==> cache[id] == FirstItem(items, id) < |items|
  }

  /** cache' is cache with the line (id, i), less whatever lines were evicted. */
  ghost predicate CacheStep(cache: map<int, nat>, cache': map<int, nat>, id: int, i: nat) {
    forall k :: k in cache' ==> if k == id then cache'[k] == i else k in cache && cache'[k] == cache[k]
  }

  /** Emptying the heap leaves the cache in agreement only if the cache was empty. */
  lemma ResetCache(cache: map<int, nat>)
    ensures CacheAgrees(cache, []) <==> cache == map[]
  {
    if CacheAgrees(cache, []) {
      assert forall id :: id !in cache;
      assert cache == map[];
    }
  }

  /** A new item keeps the cache in agreement when its id is new. */
  lemma CacheKept(cache: map<int, nat>, cache': map<int, nat>, items: seq<ItemHeapNode>, x: ItemHeapNode)
    requires CacheAgrees(cache, items) && CacheStep(cache, cache', x.itemId, |items|)
    requires FirstItem(items, x.itemId) == |items|
    ensures CacheAgrees(cache', items + [x])
  {
    forall k | k in cache'
      ensures cache'[k] == FirstItem(items + [x], k) < |items| + 1
    {
      FirstItemAppended(items, x, k);
    }
  }

  lemma CachedPosition(cache: map<int, nat>, items: seq<ItemHeapNode>, id: int)
    requires CacheAgrees(cache, items)
    ensures id in cache ==> cache[id] == FirstItem(items, id) < |items|
  {
  }

  lemma {:induction false} SameFirst(a: seq<ItemHeapNode>, b: seq<ItemHeapNode>, id: int)
    requires |a| == |b| && forall k :: 0 <= k < |a| ==> a[k].itemId == b[k].itemId
    ensures FirstItem(a, id) == FirstItem(b, id)
  {
    if a != [] {
      SameFirst(a[1..], b[1..], id);
    }
  }

  /** Changing the entries of an item changes no item id, so every search ends where it did. */
  lemma ItemsKept(L: Layout, M: Layout, i: nat, s: seq<TagHeapNode>, cache: map<int, nat>)
    requires Changed(L, M, i, s)
    ensures Good(M) && |M.chains| == |L.chains| <= |L.items| == |M.items|
    ensures forall id :: FirstItem(M.items[..|M.chains|], id) == FirstItem(L.items[..|L.chains|], id)
    ensures CacheAgrees(cache, L.items[..|L.chains|]) ==> CacheAgrees(cache, M.items[..|M.chains|])
  {
    forall id
      ensures FirstItem(M.items[..|M.chains|], id) == FirstItem(L.items[..|L.chains|], id)
    {
      SameFirst(L.items[..|L.chains|], M.items[..|M.chains|], id);
    }
  }

  ghost predicate DistinctIds(items: seq<ItemHeapNode>) {
    forall i, j :: 0 <= i < j < |items| ==> items[i].itemId != items[j].itemId
  }

  lemma {:induction false} FirstItemAppended(items: seq<ItemHeapNode>, x: ItemHeapNode, id: int)
    ensures FirstItem(items + [x], id)
         == if FirstItem(items, id) < |items| then FirstItem(items, id)
            else if x.itemId == id then |items| else |items| + 1
  {
    if items == [] {
      assert items + [x] == [x];
    } else {
      FirstItemAppended(items[1..], x, id);
      assert (items + [x])[1..] == items[1..] + [x];
    }
  }
}
