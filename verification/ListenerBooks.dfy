/** The books that the listener of trace events keeps, as values: the live items with their
    logs, the committed items, and the tracks. What every event does to them and keeps of them. */
module ListenerBooks {
  import opened TagHistory
  import opened ChunkChains
  import opened ItemTagHeaps
  import opened TagLogs
  import opened TagVecs
  import opened TagIdVecs
  import opened DBGraphs
  import opened MoveLogs
  import opened MoveLedgers
  import opened TrackHeaps

  /** A live item: when it was created, the tags set on it and the moves it made. */
  datatype LNewItemListNode = LNewItemListNode(cycle: int, itemId: int, tags: TagLog, movs: seq<Move>)

  type NewItemList = seq<LNewItemListNode>

  /** The moves of every item. */
  function Movs(items: NewItemList): (r: seq<seq<Move>>)
    ensures |r| == |items| && forall i :: 0 <= i < |items| ==> r[i] == items[i].movs
  {
    seq(|items|, i requires 0 <= i < |items| => items[i].movs)
  }

  /** The item with this id, or |items|. */
  function FindItem(items: NewItemList, id: int): (a: nat)
    ensures a <= |items|
    ensures a < |items| ==> items[a].itemId == id
    ensures forall k :: 0 <= k < a ==> items[k].itemId != id
  {
    if items == [] || items[0].itemId == id then 0 else 1 + FindItem(items[1..], id)
  }

  // ---------------------------------------------------------------- the invariant

  /** No id is used twice. */
  ghost predicate Distinct(all: NewItemList) {
    forall i, j :: 0 <= i < j < |all| ==> all[i].itemId != all[j].itemId
  }

  /** The log of a live item is in order and up to date. */
  ghost predicate ItemOk(x: LNewItemListNode, now: int, canonical: nat) {
    && x.cycle <= now && LogOk(x.tags) && (x.tags != [] ==> x.tags[|x.tags|-1].cycle <= now)
    && forall k :: 0 <= k < |x.tags| ==> x.tags[k].tagid != canonical
  }

  ghost predicate ItemsOk(items: NewItemList, now: int, canonical: nat) {
    forall i :: 0 <= i < |items| ==> ItemOk(items[i], now, canonical)
  }

  /** The heap holds the deleted items in order, each with its tags as logged. */
  ghost predicate Filed(L: Layout, archive: NewItemList, first: int, compress: bool) {
    && Good(L) && |L.chains| == |archive| <= MAX_ITEM_ENTRIES
    && forall i :: 0 <= i < |archive| ==>
         && L.items[i].itemId == archive[i].itemId && LogOk(archive[i].tags)
         && Committed(EntriesIn(L, i), archive[i].tags, first, compress)
  }

  /** One more item has been committed: it was opened in M and filled in N. */
  lemma FiledMore(L: Layout, M: Layout, N: Layout, archive: NewItemList, x: LNewItemListNode, first: int,
                  compress: bool,
                  s: seq<TagHeapNode>)
    requires Filed(L, archive, first, compress) && LogOk(x.tags) && |archive| < MAX_ITEM_ENTRIES
    requires Good(M) && |M.chains| == |archive| + 1 && M.items[|archive|].itemId == x.itemId
    requires forall k :: 0 <= k < |archive| ==>
               M.items[k].itemId == L.items[k].itemId && EntriesIn(M, k) == EntriesIn(L, k)
    requires Changed(M, N, |archive|, s) && Committed(s, x.tags, first, compress)
    ensures Filed(N, archive + [x], first, compress)
  {
    hide ChainsOk, Owned, EntriesIn, LogOk, Committed;
    var r := archive + [x];
    forall i | 0 <= i < |r|
      ensures N.items[i].itemId == r[i].itemId && LogOk(r[i].tags)
      ensures Committed(EntriesIn(N, i), r[i].tags, first, compress)
    {
      if i < |archive| {
        assert r[i] == archive[i];
      }
    }
  }

  /** An id that no committed item has is not found in the heap. */
  lemma {:induction false} NotFiled(items: seq<ItemHeapNode>, archive: NewItemList, id: int)
    requires |items| == |archive| && forall i :: 0 <= i < |items| ==> items[i].itemId == archive[i].itemId
    requires forall i :: 0 <= i < |archive| ==> archive[i].itemId != id
    ensures FirstItem(items, id) == |items|
  {
    if items != [] {
      assert archive[0].itemId != id;
      assert forall i :: 0 <= i < |items[1..]| ==> items[1..][i].itemId == archive[1..][i].itemId;
      NotFiled(items[1..], archive[1..], id);
    }
  }

  /** Every position counter is there and has eight bits. */
  ghost predicate SlotsOk(slots: map<nat, nat>, used: seq<nat>) {
    && (forall e :: e in slots ==> slots[e] < |used|)
    && (forall i :: 0 <= i < |used| ==> used[i] < 256)
  }

  /** The place of an edge's position counter; edges without one share the first. */
  function SlotOf(slots: map<nat, nat>, e: nat): nat {
    if e in slots then slots[e] else 0
  }

  /** The position counter after a move, in eight bits. */
  function NextPos(p: nat): nat { (p + 1) % 256 }

  /** No track has a value or a pending move. */
  ghost predicate Untouched(T: Tracks) {
    TracksOk(T) && forall t :: 0 <= t < |T.vecs| ==> T.vecs[t] == Blank(false, false)
  }

  /** The books of the items: the committed ones are in the heap, the live ones are in order,
      and no id is used twice. */
  ghost predicate ItemBooks(L: Layout, items: NewItemList, archive: NewItemList,
                            first: int, now: int, canonical: nat, compress: bool)
  {
    Filed(L, archive, first, compress) && ItemsOk(items, now, canonical) && Distinct(archive + items)
  }

  /** The books of the moves. */
  ghost predicate MoveBooks(T: Tracks, items: NewItemList, archive: NewItemList, first: int, now: int) {
    Ledger(T, first, now, Movs(items), Movs(archive))
  }

  /** A value of the tag that is still to be sent comes later in the log. */
  lemma LaterValue(tags: TagLog, n: nat, list: TagLog, k: nat, r: TagLog)
    requires LogOk(tags) && n < |tags| && Marked(tags, n, list) && !list[n].used && list[n].isMutable
    requires k < |tags| && TagMarked(list, n, k, list[n].tagid, r) && !r[k].used && r[k].tagid == list[n].tagid
    ensures k > n && !tags[k].used
  {
    hide LogOk, Sent;
    if k < n {
      BeforeFirstValue(tags, n, list, k);
    }
  }

  /** Nothing is in the books at first. */
  lemma NoItems(L: Layout, canonical: nat, compress: bool)
    requires Good(L) && L.chains == []
    ensures ItemBooks(L, [], [], -1, -1, canonical, compress)
  {
    hide Good;
  }

  lemma NoTracksTouched(T: Tracks)
    requires TracksOk(T) && T.kinds == []
    ensures Untouched(T)
  {
  }

  /** A live item is not in the heap yet. */
  lemma FiledNew(L: Layout, archive: NewItemList, items: NewItemList, a: nat, first: int, compress: bool)
    requires Filed(L, archive, first, compress) && Distinct(archive + items) && a < |items|
    ensures |L.chains| == |archive| <= |L.items| && |archive| <= MAX_ITEM_ENTRIES
    ensures FirstItem(L.items[..|L.chains|], items[a].itemId) == |archive|
  {
    hide EntriesIn, LogOk, Committed, ChainsOk, Owned;
    var all := archive + items;
    assert all[|archive| + a] == items[a];
    assert forall i :: 0 <= i < |archive| ==> archive[i].itemId == all[i].itemId != items[a].itemId;
    NotFiled(L.items[..|L.chains|], archive, items[a].itemId);
  }

  lemma ItemsBefore(L: Layout, M: Layout, n: nat)
    requires n <= |L.items| && n < |M.items| && M.items[..n+1][..n] == L.items[..n]
    ensures forall k :: 0 <= k < n ==> M.items[k].itemId == L.items[k].itemId
  {
    assert forall k :: 0 <= k < n ==> M.items[k] == M.items[..n+1][..n][k] == L.items[..n][k];
  }

  lemma FirstAppended(items: seq<ItemHeapNode>, id: int)
    requires items != [] && items[|items|-1].itemId == id
    ensures FirstItem(items[..|items|-1], id) == |items| - 1 ==> FirstItem(items, id) == |items| - 1
  {
    FirstItemAppended(items[..|items|-1], items[|items|-1], id);
    assert items[..|items|-1] + [items[|items|-1]] == items;
  }

  lemma ItemGood(items: NewItemList, now: int, canonical: nat, a: nat)
    requires ItemsOk(items, now, canonical) && a < |items|
    ensures ItemOk(items[a], now, canonical)
  {
  }

  lemma ItemsOkDrop(items: NewItemList, now: int, canonical: nat, a: nat)
    requires ItemsOk(items, now, canonical) && a < |items|
    ensures ItemsOk(items[..a] + items[a+1..], now, canonical)
  {
    hide ItemOk;
  }

  lemma DistinctMoved(archive: NewItemList, items: NewItemList, a: nat)
    requires Distinct(archive + items) && a < |items|
    ensures Distinct(archive + [items[a]] + (items[..a] + items[a+1..]))
  {
    var p, q := archive + items, archive + [items[a]] + (items[..a] + items[a+1..]);
    var n := |archive|;
    forall k | 0 <= k < |q|
      ensures q[k] == p[if k < n then k else if k == n then n + a else if k <= n + a then k - 1 else k]
    {
    }
  }

  lemma MoveBooksDrop(T: Tracks, items: NewItemList, archive: NewItemList, first: int, now: int, a: nat)
    requires a < |items| && Ledger(T, first, now, Movs(items)[a := []], Movs(archive) + [items[a].movs])
    ensures TracksOk(T) && MoveBooks(T, items[..a] + items[a+1..], archive + [items[a]], first, now)
  {
    hide Ledger;
    var none, done := Movs(items)[a := []], Movs(archive) + [items[a].movs];
    LedgerTracks(T, first, now, none, done);
    LedgerDrop(T, first, now, none, done, a);
    assert none[..a] + none[a+1..] == Movs(items[..a] + items[a+1..]);
    assert done == Movs(archive + [items[a]]);
  }

  // ---------------------------------------------------------------- what item events keep

  /** The live items after tag t of an item is set. */
  function WithTagSet(items: NewItemList, id: int, t: nat, v: nat, cycle: int, tracked: bool): NewItemList {
    var a := FindItem(items, id);
    if !tracked || a == |items| then items
    else items[a := items[a].(tags := Logged(items[a].tags, t, v, cycle))]
  }

  /** The steps of setting a tag make up the logged set. */
  lemma LoggedIs(tags: TagLog, t: nat, v: nat, c: int, list: TagLog)
    requires var m := LastOther(tags, t, c);
             var l := Scanned(tags, t, c, m) + [LSetTagListNode(c, t, v, false, false)];
             list == if m >= 0
                     then l[m := l[m].(isMutable := true)][|tags| := LSetTagListNode(c, t, v, true, false)]
                     else l
    ensures list == Logged(tags, t, v, c)
  {
  }

  lemma ItemBooksNew(L: Layout, items: NewItemList, archive: NewItemList, first: int, now: int,
                     canonical: nat, compress: bool, id: int)
    requires ItemBooks(L, items, archive, first, now, canonical, compress)
    requires forall i :: 0 <= i < |archive + items| ==> (archive + items)[i].itemId != id
    ensures ItemBooks(L, items + [LNewItemListNode(now, id, [], [])], archive, first, now, canonical, compress)
  {
    hide Filed;
    var x := LNewItemListNode(now, id, [], []);
    assert ItemOk(x, now, canonical);
    assert archive + (items + [x]) == (archive + items) + [x];
  }

  lemma MoveBooksNew(T: Tracks, items: NewItemList, archive: NewItemList, first: int, now: int, id: int)
    requires MoveBooks(T, items, archive, first, now)
    ensures MoveBooks(T, items + [LNewItemListNode(now, id, [], [])], archive, first, now)
  {
    hide Ledger;
    assert Movs(items + [LNewItemListNode(now, id, [], [])]) == Movs(items) + [[]];
    LedgerNew(T, first, now, Movs(items), Movs(archive));
  }

  lemma ItemBooksTag(L: Layout, items: NewItemList, archive: NewItemList, first: int, now: int,
                     canonical: nat, compress: bool, a: nat, t: nat, v: nat)
    requires ItemBooks(L, items, archive, first, now, canonical, compress) && a < |items| && t != canonical
    ensures ItemBooks(L, items[a := items[a].(tags := Logged(items[a].tags, t, v, now))], archive, first, now,
                      canonical, compress)
  {
    hide Filed, LogOk, Logged;
    var x := items[a];
    var y := x.(tags := Logged(x.tags, t, v, now));
    LoggedOk(x.tags, t, v, now);
    LogOrdered(x.tags);
    LoggedNodes(x.tags, t, v, now);
    assert ItemOk(y, now, canonical);
    var p, q := archive + items, archive + items[a := y];
    assert forall k :: 0 <= k < |q| ==> q[k].itemId == p[k].itemId;
  }

  lemma MoveBooksTag(T: Tracks, items: NewItemList, archive: NewItemList, first: int, now: int, a: nat, tags: TagLog)
    requires MoveBooks(T, items, archive, first, now) && a < |items|
    ensures MoveBooks(T, items[a := items[a].(tags := tags)], archive, first, now)
  {
    hide Ledger;
    assert Movs(items[a := items[a].(tags := tags)]) == Movs(items);
  }

  // ---------------------------------------------------------------- what move events keep

  function WithMove(items: NewItemList, a: nat, m: Move): NewItemList
    requires a < |items|
  {
    items[a := items[a].(movs := items[a].movs + [m])]
  }

  /** The live items, and the next position, after moves of these items over an edge. */
  function WithMoves(items: NewItemList, ids: seq<int>, edgeId: nat, bw: nat, cycle: int, p: nat)
    : (NewItemList, nat)
  {
    if ids == [] then (items, p)
    else
      var (r, q) := WithMoves(items, ids[..|ids|-1], edgeId, bw, cycle, p);
      var a := FindItem(r, ids[|ids|-1]);
      if a < |r| && q < bw then (WithMove(r, a, Move(cycle, edgeId, q)), NextPos(q)) else (r, q)
  }

  lemma {:induction false} NoneMoved(items: NewItemList, ids: seq<int>, edgeId: nat, cycle: int, p: nat)
    ensures WithMoves(items, ids, edgeId, 0, cycle, p) == (items, p)
  {
    if ids != [] {
      NoneMoved(items, ids[..|ids|-1], edgeId, cycle, p);
    }
  }

  lemma BooksTracks(T: Tracks, items: NewItemList, archive: NewItemList, first: int, now: int)
    requires MoveBooks(T, items, archive, first, now)
    ensures TracksOk(T) && first <= now
  {
    hide TracksOk;
  }

  lemma MoveBooksMove(T: Tracks, items: NewItemList, archive: NewItemList, first: int, now: int, a: nat, m: Move)
    requires MoveBooks(T, items, archive, first, now) && a < |items|
    requires m.cycle == now && TracksOk(T) && Known(T, m, first)
    ensures MoveBooks(MoveLogged(T, m, first), WithMove(items, a, m), archive, first, now)
  {
    hide Ledger, MoveLogged, TracksOk;
    var live := Movs(items);
    assert Movs(WithMove(items, a, m)) == live[a := live[a] + [m]];
    LedgerMove(T, first, now, live, Movs(archive), a, m);
  }

  lemma ItemBooksMove(L: Layout, items: NewItemList, archive: NewItemList, first: int, now: int,
                      canonical: nat, compress: bool, a: nat, m: Move)
    requires ItemBooks(L, items, archive, first, now, canonical, compress) && a < |items|
    ensures ItemBooks(L, WithMove(items, a, m), archive, first, now, canonical, compress)
  {
    hide Filed, LogOk;
    var p, q := archive + items, archive + WithMove(items, a, m);
    assert forall k :: 0 <= k < |q| ==> q[k].itemId == p[k].itemId;
    ItemGood(items, now, canonical, a);
    assert ItemOk(WithMove(items, a, m)[a], now, canonical);
  }

  // ---------------------------------------------------------------- deleting items

  datatype Books = Books(items: NewItemList, archive: NewItemList)

  /** The items after one has been deleted, if it was live and the heap had room. */
  function WithDeleted(b: Books, id: int): Books {
    var a := FindItem(b.items, id);
    if a < |b.items| && |b.archive| < MAX_ITEM_ENTRIES
    then Books(b.items[..a] + b.items[a+1..], b.archive + [b.items[a]]) else b
  }

  /** The items after these have been deleted one by one. */
  function WithAllDeleted(b: Books, gone: seq<AuxItemListNode>): Books {
    if gone == [] then b else WithDeleted(WithAllDeleted(b, gone[..|gone|-1]), gone[|gone|-1].itemId)
  }

  /** The items after one has been tagged and deleted. */
  function WithPurged(b: Books, id: int, tag: nat, cycle: int, tracked: bool): Books {
    WithDeleted(b.(items := WithTagSet(b.items, id, tag, 1, cycle, tracked)), id)
  }

  /** The items after these have been tagged and deleted one by one. */
  function WithAllPurged(b: Books, order: seq<AuxItemListNode>, tag: nat, cycle: int, tracked: bool): Books {
    if order == [] then b
    else WithPurged(WithAllPurged(b, order[..|order|-1], tag, cycle, tracked), order[|order|-1].itemId, tag, cycle,
                    tracked)
  }

  lemma DeletedNone(b: Books, gone: seq<AuxItemListNode>)
    ensures WithAllDeleted(b, gone[..0]) == b
  {
  }

  lemma DeletedStep(b: Books, gone: seq<AuxItemListNode>, d: nat)
    requires d < |gone|
    ensures WithAllDeleted(b, gone[..d+1]) == WithDeleted(WithAllDeleted(b, gone[..d]), gone[d].itemId)
  {
    assert gone[..d+1][..d] == gone[..d];
  }

  lemma PurgedNone(b: Books, order: seq<AuxItemListNode>, tag: nat, cycle: int, tracked: bool)
    ensures WithAllPurged(b, order[..0], tag, cycle, tracked) == b
  {
  }

  lemma PurgedStep(b: Books, order: seq<AuxItemListNode>, k: nat, tag: nat, cycle: int, tracked: bool)
    requires k < |order|
    ensures WithAllPurged(b, order[..k+1], tag, cycle, tracked)
         == WithPurged(WithAllPurged(b, order[..k], tag, cycle, tracked), order[k].itemId, tag, cycle, tracked)
  {
    assert order[..k+1][..k] == order[..k];
  }

  // ---------------------------------------------------------------- purging the oldest items

  datatype AuxItemListNode = AuxItemListNode(cycle: int, itemId: int)

  function Aux(items: NewItemList): (r: seq<AuxItemListNode>)
    ensures |r| == |items| && forall i :: 0 <= i < |items| ==> r[i] == AuxItemListNode(items[i].cycle, items[i].itemId)
  {
    seq(|items|, i requires 0 <= i < |items| => AuxItemListNode(items[i].cycle, items[i].itemId))
  }

  ghost predicate ByCycle(s: seq<AuxItemListNode>) {
    forall i, j :: 0 <= i < j < |s| ==> s[i].cycle <= s[j].cycle
  }

  ghost predicate IdsDiffer(s: seq<AuxItemListNode>) {
    forall i, j :: 0 <= i < j < |s| ==> s[i].itemId != s[j].itemId
  }

  /** The same nodes in another order. */
  ghost predicate Permuted(s: seq<AuxItemListNode>, r: seq<AuxItemListNode>) {
    |r| == |s| && (forall x :: x in r <==> x in s) && (IdsDiffer(s) ==> IdsDiffer(r))
  }

  function Placed(s: seq<AuxItemListNode>, x: AuxItemListNode): (r: seq<AuxItemListNode>)
    ensures |r| == |s| + 1 && forall y :: y in r <==> y in s || y == x
  {
    if s == [] || x.cycle <= s[0].cycle then [x] + s else [s[0]] + Placed(s[1..], x)
  }

  lemma FirstInOrder(y: AuxItemListNode, r: seq<AuxItemListNode>)
    requires ByCycle(r) && forall z :: z in r ==> y.cycle <= z.cycle
    ensures ByCycle([y] + r)
  {
    var s := [y] + r;
    assert forall i :: 0 < i < |s| ==> s[i] == r[i-1] && s[i] in r;
  }

  lemma FirstDiffers(y: AuxItemListNode, r: seq<AuxItemListNode>)
    requires IdsDiffer(r) && forall z :: z in r ==> y.itemId != z.itemId
    ensures IdsDiffer([y] + r)
  {
    var s := [y] + r;
    assert forall i :: 0 < i < |s| ==> s[i] == r[i-1] && s[i] in r;
  }

  lemma {:induction false} PlacedInOrder(s: seq<AuxItemListNode>, x: AuxItemListNode)
    requires ByCycle(s)
    ensures ByCycle(Placed(s, x))
  {
    if s == [] || x.cycle <= s[0].cycle {
      FirstInOrder(x, s);
    } else {
      assert forall i :: 0 < i < |s| ==> s[0].cycle <= s[i].cycle;
      PlacedInOrder(s[1..], x);
      FirstInOrder(s[0], Placed(s[1..], x));
    }
  }

  lemma {:induction false} PlacedDiffer(s: seq<AuxItemListNode>, x: AuxItemListNode)
    requires IdsDiffer(s) && forall y :: y in s ==> y.itemId != x.itemId
    ensures IdsDiffer(Placed(s, x))
  {
    if s == [] || x.cycle <= s[0].cycle {
      FirstDiffers(x, s);
    } else {
      assert forall i :: 0 < i < |s| ==> s[0].itemId != s[i].itemId;
      PlacedDiffer(s[1..], x);
      FirstDiffers(s[0], Placed(s[1..], x));
    }
  }

  lemma NothingSorted(s: seq<AuxItemListNode>)
    requires s == []
    ensures ByCycle([]) && Permuted(s, [])
  {
  }

  lemma PermutedMore(s: seq<AuxItemListNode>, r: seq<AuxItemListNode>, x: AuxItemListNode)
    requires Permuted(s, r)
    ensures Permuted(s + [x], Placed(r, x))
  {
    hide Placed;
    var q := s + [x];
    if IdsDiffer(q) {
      assert forall i :: 0 <= i < |s| ==> q[i] == s[i] && s[i].itemId != q[|s|].itemId;
      PlacedDiffer(r, x);
    }
  }

  /** Sorts by cycle; the order of nodes of the same cycle is left open. */
  method SortByCycle(s: seq<AuxItemListNode>) returns (r: seq<AuxItemListNode>)
    ensures ByCycle(r) && Permuted(s, r) && |r| == |s|
  {
    hide Permuted, ByCycle;
    r := [];
    assert Permuted(s[..0], r) && ByCycle(r) by { NothingSorted(s[..0]); }
    for i := 0 to |s|
      invariant ByCycle(r) && Permuted(s[..i], r) && |r| == i
    {
      PlacedInOrder(r, s[i]);
      PermutedMore(s[..i], r, s[i]);
      assert s[..i+1] == s[..i] + [s[i]];
      r := Placed(r, s[i]);
    }
    assert s[..|s|] == s;
  }

  function Ids(s: seq<AuxItemListNode>): set<int> { set x | x in s :: x.itemId }

  /** The items that are not in a set of ids. */
  function Without(items: NewItemList, gone: set<int>): NewItemList {
    if items == [] then []
    else (if items[0].itemId in gone then [] else [items[0]]) + Without(items[1..], gone)
  }

  /** The items in the set were created no later than the others. */
  ghost predicate OldestFirst(items: NewItemList, gone: set<int>) {
    forall i, j :: 0 <= i < |items| && 0 <= j < |items| && items[i].itemId in gone && items[j].itemId !in gone ==>
      items[i].cycle <= items[j].cycle
  }

  /** Every item is still live or has been committed. */
  ghost predicate Handed(items: NewItemList, items': NewItemList,
                         archive: NewItemList, archive': NewItemList)
  {
    && archive <= archive'
    && (forall x :: x in items ==> x in items' || x in archive'[|archive|..])
    && (forall x :: x in items' || x in archive'[|archive|..] ==> x in items)
  }

  /** How many items a purge commits. */
  function Purged(live: nat, limit: nat, filed: nat): nat
    requires limit < live && filed <= MAX_ITEM_ENTRIES
  {
    var red := live - 9 * limit / 10;
    if filed + red <= MAX_ITEM_ENTRIES then red else MAX_ITEM_ENTRIES - filed
  }

  /** How many items have to go to keep the limit. */
  function Surplus(live: int, limit: Option<nat>): int {
    if limit.Some? && live > limit.value then live - 9 * limit.value / 10 else 0
  }

  /** What keeping the limit does: too many live items are brought down to nine tenths of the
      limit, the oldest ones go, and none is lost. */
  ghost predicate Limited(items: NewItemList, items': NewItemList, archive: NewItemList,
                          archive': NewItemList, gone: set<int>, limit: Option<nat>)
  {
    && items' == Without(items, gone) && OldestFirst(items, gone) && Handed(items, items', archive, archive')
    && |archive| <= MAX_ITEM_ENTRIES
    && var d := if limit.Some? && |items| > limit.value then Purged(|items|, limit.value, |archive|) else 0;
       |items'| == |items| - d && |archive'| == |archive| + d
  }

  /** As long as the heap has room, no more items than the limit stay live. */
  lemma LimitKept(items: NewItemList, items': NewItemList, archive: NewItemList,
                  archive': NewItemList, gone: set<int>, limit: nat)
    requires Limited(items, items', archive, archive', gone, Some(limit)) && |archive| + |items| <= 0x1000_0000
    ensures |items'| == if |items| > limit then 9 * limit / 10 else |items|
    ensures |items'| <= limit
  {
  }

  lemma IdsNone(s: seq<AuxItemListNode>)
    ensures Ids(s[..0]) == {}
  {
  }

  lemma {:induction false} WithoutNone(items: NewItemList)
    ensures Without(items, {}) == items
  {
    if items != [] {
      WithoutNone(items[1..]);
    }
  }

  lemma {:induction false} WithoutAbsent(items: NewItemList, gone: set<int>, id: int)
    requires forall i :: 0 <= i < |items| ==> items[i].itemId != id
    ensures Without(items, gone + {id}) == Without(items, gone)
  {
    if items != [] {
      WithoutAbsent(items[1..], gone, id);
    }
  }

  /** Dropping an item behind the first. */
  lemma DropBehind(x: LNewItemListNode, g: NewItemList, id: int)
    requires x.itemId != id && FindItem(g, id) < |g|
    ensures var r, a, b := [x] + g, FindItem([x] + g, id), FindItem(g, id);
            a == b + 1 && r[..a] + r[a+1..] == [x] + (g[..b] + g[b+1..])
  {
    assert ([x] + g)[1..] == g;
  }

  lemma DropFirst(x: LNewItemListNode, g: NewItemList)
    ensures var r, a := [x] + g, FindItem([x] + g, x.itemId);
            a == 0 && r[..a] + r[a+1..] == g
  {
    assert ([x] + g)[1..] == g;
  }

  lemma {:induction false} DropOne(items: NewItemList, gone: set<int>, id: int, k: nat)
    requires Distinct(items) && k < |items| && items[k].itemId == id && id !in gone
    ensures var r := Without(items, gone);
            var a := FindItem(r, id);
            a < |r| && Without(items, gone + {id}) == r[..a] + r[a+1..]
  {
    hide FindItem, Without;
    var x, rest := items[0], items[1..];
    var g, h := Without(rest, gone), Without(rest, gone + {id});
    WithoutHead(items, gone);
    WithoutHead(items, gone + {id});
    if k == 0 {
      WithoutAbsent(rest, gone, id);
      DropFirst(x, g);
      assert Without(items, gone) == [x] + g && Without(items, gone + {id}) == h;
    } else {
      assert items[k] == rest[k-1];
      DropOne(rest, gone, id, k - 1);
      assert x.itemId != id;
      if x.itemId in gone {
        assert Without(items, gone) == g && Without(items, gone + {id}) == h;
      } else {
        DropBehind(x, g, id);
        assert Without(items, gone) == [x] + g && Without(items, gone + {id}) == [x] + h;
      }
    }
  }

  lemma WithoutHead(items: NewItemList, gone: set<int>)
    requires items != []
    ensures Without(items, gone)
         == if items[0].itemId in gone then Without(items[1..], gone) else [items[0]] + Without(items[1..], gone)
  {
    assert [] + Without(items[1..], gone) == Without(items[1..], gone);
  }

  lemma WithoutStep(items: NewItemList, sorted: seq<AuxItemListNode>, cnt: nat)
    requires Distinct(items) && Permuted(Aux(items), sorted) && cnt < |sorted|
    ensures var r := Without(items, Ids(sorted[..cnt]));
            var a := FindItem(r, sorted[cnt].itemId);
            a < |r| && Without(items, Ids(sorted[..cnt+1])) == r[..a] + r[a+1..]
  {
    hide Without, FindItem;
    var x := sorted[cnt];
    assert x in Aux(items);
    var k :| 0 <= k < |items| && Aux(items)[k] == x;
    assert x.itemId !in Ids(sorted[..cnt]);
    assert sorted[..cnt+1] == sorted[..cnt] + [x];
    assert Ids(sorted[..cnt+1]) == Ids(sorted[..cnt]) + {x.itemId};
    DropOne(items, Ids(sorted[..cnt]), x.itemId, k);
  }

  lemma OldestGone(items: NewItemList, sorted: seq<AuxItemListNode>, d: nat)
    requires Distinct(items) && Permuted(Aux(items), sorted) && ByCycle(sorted) && d <= |sorted|
    ensures OldestFirst(items, Ids(sorted[..d]))
  {
    hide Aux;
    var gone := Ids(sorted[..d]);
    assert IdsDiffer(Aux(items));
    forall p | 0 <= p < |sorted|
      ensures sorted[p].itemId in gone <==> p < d
    {
      if p < d {
        assert sorted[..d][p] == sorted[p];
      }
    }
    forall i, j | 0 <= i < |items| && 0 <= j < |items| && items[i].itemId in gone && items[j].itemId !in gone
      ensures items[i].cycle <= items[j].cycle
    {
      var p := SortedAt(items, sorted, i);
      var q := SortedAt(items, sorted, j);
    }
  }

  /** Where an item is among the sorted nodes. */
  lemma SortedAt(items: NewItemList, sorted: seq<AuxItemListNode>, i: nat) returns (p: nat)
    requires Permuted(Aux(items), sorted) && i < |items|
    ensures p < |sorted| && sorted[p] == AuxItemListNode(items[i].cycle, items[i].itemId)
  {
    assert Aux(items)[i] in sorted;
    p :| 0 <= p < |sorted| && sorted[p] == Aux(items)[i];
  }

  lemma HandedNone(items: NewItemList, archive: NewItemList)
    ensures Handed(items, items, archive, archive)
  {
  }

  lemma HandedStep(items: NewItemList, was: NewItemList, a: nat,
                   archive: NewItemList, filed: NewItemList)
    requires Handed(items, was, archive, filed) && a < |was|
    ensures Handed(items, was[..a] + was[a+1..], archive, filed + [was[a]])
  {
    var n, r := filed[|archive|..], was[..a] + was[a+1..];
    assert (filed + [was[a]])[|archive|..] == n + [was[a]];
    assert forall x :: x in was <==> x in r || x == was[a] by {
      assert was == was[..a] + [was[a]] + was[a+1..];
    }
  }

  // ---------------------------------------------------------------- what cycles keep

  lemma UntouchedLedger(T: Tracks, first: int)
    requires Untouched(T)
    ensures Ledger(T, first, first, [], [])
  {
    assert forall t, k :: 0 <= t < |T.vecs| && 0 <= k ==> Total(T, first, [], t, k) == 0;
  }

  lemma BooksStart(T: Tracks, first: int)
    requires Untouched(T)
    ensures MoveBooks(T, [], [], first, first)
  {
    hide Ledger;
    UntouchedLedger(T, first);
    assert Movs([]) == [];
  }

  lemma ItemBooksStart(L: Layout, first: int, first': int, now: int, canonical: nat, compress: bool)
    requires ItemBooks(L, [], [], first, now, canonical, compress)
    ensures ItemBooks(L, [], [], first', now, canonical, compress)
  {
    hide Good;
  }

  lemma BooksLater(T: Tracks, items: NewItemList, archive: NewItemList, first: int, now: int, now': int)
    requires MoveBooks(T, items, archive, first, now) && now <= now'
    ensures MoveBooks(T, items, archive, first, now')
  {
    hide Ledger;
    LedgerLater(T, first, now, now', Movs(items), Movs(archive));
  }

  lemma BooksRound(T: Tracks, items: NewItemList, archive: NewItemList, first: int, now: int)
    requires MoveBooks(T, items, archive, first, now) && first <= now
    ensures MoveBooks(RoundDone(T, now - first, false), items, archive, first, now)
  {
    hide Ledger, RoundDone;
    LedgerRound(T, first, now, Movs(items), Movs(archive), false);
  }

  lemma ItemBooksLater(L: Layout, items: NewItemList, archive: NewItemList, first: int, now: int, now': int,
                       canonical: nat, compress: bool)
    requires ItemBooks(L, items, archive, first, now, canonical, compress) && now <= now'
    ensures ItemBooks(L, items, archive, first, now', canonical, compress)
  {
    hide Filed, LogOk;
  }

  lemma NoneOldest(items: NewItemList)
    ensures OldestFirst(items, {})
  {
  }

  // ---------------------------------------------------------------- the end of the trace

  /** An item that was still live at the end of the trace, as it is committed. */
  function EofTagged(x: LNewItemListNode, tag: nat, cycle: int, tracked: bool): LNewItemListNode {
    if tracked then x.(tags := Logged(x.tags, tag, 1, cycle)) else x
  }

  /** Every item is still live or has been committed, with or without the tag of the end of the
      trace, and nothing else has been committed. */
  ghost predicate Purging(items: NewItemList, live: NewItemList, filed: NewItemList,
                          tag: nat, cycle: int, tracked: bool)
  {
    && |live| + |filed| == |items|
    && (forall x :: x in items ==> x in live || x in filed || EofTagged(x, tag, cycle, tracked) in filed)
    && (forall x :: x in live ==> x in items)
    && (forall y :: y in filed ==> y in items || exists x :: x in items && y == EofTagged(x, tag, cycle, tracked))
  }

  /** The tracks of a finished trace: what they hold of committed and of dropped items; when
      nothing was dropped, no move is pending. */
  ghost predicate Closed(T: Tracks, first: int, now: int, dropped: NewItemList, archive: NewItemList) {
    && TracksHold(T, first, now, Movs(dropped), Movs(archive))
    && (dropped == [] ==> forall t, k :: 0 <= t < |T.vecs| && 0 <= k ==> PendingAt(T.vecs[t], k) == 0)
  }

  /** Iterates over the live items in an order of its own. */
  method IterationOrder(s: seq<AuxItemListNode>) returns (r: seq<AuxItemListNode>)
    ensures Permuted(s, r)
  {
    r := s;
  }

  /** The item that was tagged is found where it was. */
  lemma FoundTagged(items: NewItemList, id: int, t: nat, v: nat, cycle: int, tracked: bool)
    ensures var r, a := WithTagSet(items, id, t, v, cycle, tracked), FindItem(items, id);
            && FindItem(r, id) == a && |r| == |items|
            && (a < |items| ==>
                  && r[..a] + r[a+1..] == items[..a] + items[a+1..]
                  && r[a] == if tracked then items[a].(tags := Logged(items[a].tags, t, v, cycle)) else items[a])
  {
    hide Logged;
    SameFound(items, WithTagSet(items, id, t, v, cycle, tracked), id);
  }

  lemma {:induction false} SameFound(items: NewItemList, r: NewItemList, id: int)
    requires |r| == |items| && forall i :: 0 <= i < |items| ==> r[i].itemId == items[i].itemId
    ensures FindItem(r, id) == FindItem(items, id)
  {
    if items != [] {
      SameFound(items[1..], r[1..], id);
    }
  }

  lemma PurgingNone(items: NewItemList, tag: nat, cycle: int, tracked: bool)
    ensures Purging(items, items, [], tag, cycle, tracked)
  {
  }

  lemma PurgingStep(items: NewItemList, was: NewItemList, a: nat, filed: NewItemList, n: nat,
                    tag: nat, cycle: int, tracked: bool)
    requires n <= |filed| && Purging(items, was, filed[n..], tag, cycle, tracked) && a < |was|
    ensures Purging(items, was[..a] + was[a+1..], (filed + [EofTagged(was[a], tag, cycle, tracked)])[n..],
                    tag, cycle, tracked)
  {
    hide EofTagged;
    var y := EofTagged(was[a], tag, cycle, tracked);
    var r := was[..a] + was[a+1..];
    assert (filed + [y])[n..] == filed[n..] + [y];
    assert was == was[..a] + [was[a]] + was[a+1..];
    assert forall x :: x in was <==> x in r || x == was[a];
  }

  /** Items that were committed on the way to the last cycle count too. */
  lemma PurgingHanded(items: NewItemList, live: NewItemList, done: NewItemList,
                      filed: NewItemList, archive: NewItemList, tag: nat, cycle: int, tracked: bool)
    requires Handed(items, live, done, filed) && filed <= archive && |live| + |filed| == |items| + |done|
    requires Purging(live, [], archive[|filed|..], tag, cycle, tracked)
    ensures done <= archive && Purging(items, [], archive[|done|..], tag, cycle, tracked)
  {
    hide EofTagged;
    var p, q := filed[|done|..], archive[|filed|..];
    assert archive[|done|..] == p + q;
    assert forall x :: x in p + q <==> x in p || x in q;
  }

  lemma LimitHands(items: NewItemList, live: NewItemList, done: NewItemList,
                   filed: NewItemList, gone: set<int>, limit: Option<nat>)
    requires Limited(items, live, done, filed, gone, limit)
    ensures Handed(items, live, done, filed) && done <= filed && |live| + |filed| == |items| + |done|
    ensures limit == None ==> filed == done
  {
  }

  lemma OwnersSame(T: Tracks)
    ensures SameOwners(T, T)
  {
  }

  lemma OwnersOn(T: Tracks, U: Tracks, V: Tracks, W: Tracks)
    requires SameOwners(T, U) && SameOwners(U, V) && SameOwners(V, W)
    ensures SameOwners(T, W)
  {
  }

  lemma SignedSmall(n: nat)
    requires n < 0x8000_0000
    ensures Signed(n) == n
  {
  }

  lemma ItemBooksClear(L: Layout, items: NewItemList, archive: NewItemList, first: int, now: int,
                       canonical: nat, compress: bool)
    requires ItemBooks(L, items, archive, first, now, canonical, compress)
    ensures ItemBooks(L, [], archive, first, now, canonical, compress)
  {
    hide Filed;
    assert forall i :: 0 <= i < |archive| ==> (archive + items)[i] == archive[i];
    assert archive + [] == archive;
  }

  lemma BooksClosed(T: Tracks, items: NewItemList, archive: NewItemList, first: int, now: int)
    requires MoveBooks(T, items, archive, first, now) && first <= now
    ensures TracksOk(RoundDone(T, now - first, true))
    ensures Closed(RoundDone(T, now - first, true), first, now, items, archive)
  {
    hide Ledger, TracksHold, RoundDone, Conserved;
    var U := RoundDone(T, now - first, true);
    LedgerTracks(T, first, now, Movs(items), Movs(archive));
    RoundHolds(T, first, now, Movs(items), Movs(archive), true);
    HoldsFirst(U, first, now, Movs(items), Movs(archive));
    if items == [] {
      assert Movs(items) == [];
      LedgerRound(T, first, now, [], Movs(archive), true);
      forall t, k | 0 <= t < |U.vecs| && 0 <= k
        ensures PendingAt(U.vecs[t], k) == 0
      {
        NonePending(U, first, t, k);
      }
    }
  }

  // ---------------------------------------------------------------- tracking, and looking things up

  /** Knowing more edges keeps the tracks. */
  lemma EdgeKnown(T: Tracks, U: Tracks)
    requires TracksOk(T) && U.base == T.base && U.kinds == T.kinds && U.vecs == T.vecs
    requires forall e :: e in T.bandwidth ==> e in U.bandwidth && U.bandwidth[e] == T.bandwidth[e]
    ensures Grown(T, U)
    ensures EdgeTracks(T.kinds, T.base, T.bandwidth) ==> EdgeTracks(U.kinds, U.base, U.bandwidth)
    ensures forall e :: e in T.base ==> e in T.bandwidth
  {
  }

  lemma UntouchedGrown(T: Tracks, U: Tracks)
    requires Untouched(T) && Grown(T, U)
    ensures Untouched(U)
  {
  }

  lemma BooksGrown(T: Tracks, U: Tracks, items: NewItemList, archive: NewItemList, first: int, now: int)
    requires MoveBooks(T, items, archive, first, now) && Grown(T, U)
    ensures MoveBooks(U, items, archive, first, now)
  {
    hide Ledger, Grown;
    LedgerGrown(T, U, first, now, Movs(items), Movs(archive));
  }

  /** The heap finds an item where the archive has it. */
  lemma FiledFind(L: Layout, archive: NewItemList, id: int, first: int, compress: bool)
    requires Filed(L, archive, first, compress)
    ensures |L.chains| == |archive| <= |L.items|
    ensures FirstItem(L.items[..|L.chains|], id) == FindItem(archive, id)
  {
    hide EntriesIn, LogOk, Committed, ChainsOk, Owned;
    FoundAlike(L.items[..|L.chains|], archive, id);
  }

  lemma {:induction false} FoundAlike(items: seq<ItemHeapNode>, archive: NewItemList, id: int)
    requires |items| == |archive| && forall i :: 0 <= i < |items| ==> items[i].itemId == archive[i].itemId
    ensures FirstItem(items, id) == FindItem(archive, id)
  {
    if items != [] {
      assert forall i :: 0 <= i < |items[1..]| ==> items[1..][i].itemId == archive[1..][i].itemId;
      FoundAlike(items[1..], archive[1..], id);
    }
  }

  lemma FiledAt(L: Layout, archive: NewItemList, first: int, compress: bool, i: nat)
    requires Filed(L, archive, first, compress) && i < |archive|
    ensures Good(L) && i < |L.chains| && LogOk(archive[i].tags)
    ensures Committed(EntriesIn(L, i), archive[i].tags, first, compress)
  {
  }
}
