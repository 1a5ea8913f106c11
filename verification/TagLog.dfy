/** The tag log of a live item: one node for every tag set on it, in event order. A value
    that is set again in the same cycle supersedes the earlier one; a tag that gets values
    in several cycles is flagged mutable. */
module TagLogs {
  import opened TagHistory

  /** A node of the log; `used` nodes are passed over when the item is committed. */
  datatype LSetTagListNode = LSetTagListNode(cycle: int, tagid: nat, value: nat, isMutable: bool, used: bool)

  type TagLog = seq<LSetTagListNode>

  // ---------------------------------------------------------------- the invariant of a log

  ghost predicate Ordered(list: TagLog) {
    forall i, j :: 0 <= i < j < |list| ==> list[i].cycle <= list[j].cycle
  }

  /** A later node sets the same tag in the same cycle. */
  ghost predicate Superseded(list: TagLog, i: nat)
    requires i < |list|
  {
    exists j :: i < j < |list| && list[j].tagid == list[i].tagid && list[j].cycle == list[i].cycle
  }

  /** The tag has a standing value in another cycle. */
  ghost predicate Revalued(list: TagLog, i: nat)
    requires i < |list|
  {
    exists j :: 0 <= j < |list| && !list[j].used
                && list[j].tagid == list[i].tagid && list[j].cycle != list[i].cycle
  }

  ghost predicate LogOk(list: TagLog) {
    && Ordered(list)
    && (forall i :: 0 <= i < |list| ==> (list[i].used <==> Superseded(list, i)))
    && (forall i :: 0 <= i < |list| && !list[i].used ==> (list[i].isMutable <==> Revalued(list, i)))
  }

  // ---------------------------------------------------------------- scanning backwards

  /** Whether a standing node of tag t from another cycle is there, and where the last one is. */
  function LastOther(list: TagLog, t: nat, c: int): (m: int)
    ensures -1 <= m < |list|
    ensures m >= 0 ==> !list[m].used && list[m].tagid == t && list[m].cycle != c
    ensures forall k :: m < k < |list| && !list[k].used && list[k].tagid == t ==> list[k].cycle == c
  {
    if list == [] then -1
    else
      var x := list[|list|-1];
      if !x.used && x.tagid == t && x.cycle != c then |list| - 1 else LastOther(list[..|list|-1], t, c)
  }

  /** The log after the scan from m on: values of tag t in cycle c are superseded. */
  function Scanned(list: TagLog, t: nat, c: int, m: int): (r: TagLog)
    requires -1 <= m < |list|
    ensures |r| == |list|
    ensures forall k :: 0 <= k < |list| ==>
              r[k] == if k > m && !list[k].used && list[k].tagid == t && list[k].cycle == c
                      then list[k].(used := true) else list[k]
  {
    seq(|list|, k requires 0 <= k < |list| =>
      if k > m && !list[k].used && list[k].tagid == t && list[k].cycle == c
      then list[k].(used := true) else list[k])
  }

  /** The log after tag t is set to v in cycle c. */
  function Logged(list: TagLog, t: nat, v: nat, c: int): TagLog {
    var m := LastOther(list, t, c);
    var l := Scanned(list, t, c, m);
    (if m >= 0 then l[m := l[m].(isMutable := true)] else l) + [LSetTagListNode(c, t, v, m >= 0, false)]
  }

  /** One step of the scan. */
  lemma ScannedStep(list: TagLog, t: nat, c: int, i: nat)
    requires i < |list|
    ensures var r, x := Scanned(list, t, c, i), list[i];
            && r[i] == x
            && Scanned(list, t, c, i - 1)
            == if !x.used && x.tagid == t && x.cycle == c then r[i := x.(used := true)] else r
    ensures LastOther(list[..i+1], t, c)
         == if !list[i].used && list[i].tagid == t && list[i].cycle != c then i else LastOther(list[..i], t, c)
  {
    assert list[..i+1][..i] == list[..i];
  }

  /** hasTag: looks for a standing value of tag t from another cycle, marking the values
      of cycle c that it passes. */
  method HasTag(list: TagLog, t: nat, c: int) returns (r: TagLog, found: bool, matching: nat)
    ensures var m := LastOther(list, t, c);
            && r == Scanned(list, t, c, m)
            && found == (m >= 0) && (found ==> matching == m)
  {
    hide Scanned, LastOther;
    r := list;
    found, matching := false, 0;
    var idx := |list| - 1;
    while idx >= 0 && !found
      invariant -1 <= idx < |list|
      invariant found ==> matching == idx + 1 < |list|
      invariant LastOther(list, t, c) == if found then matching else LastOther(list[..idx+1], t, c)
      invariant r == Scanned(list, t, c, if found then matching else idx)
    {
      var node := r[idx];
      ScannedStep(list, t, c, idx);
      if !node.used && node.tagid == t {
        if node.cycle != c {
          found, matching := true, idx;
        } else {
          r := r[idx := node.(used := true)];
        }
      }
      idx := idx - 1;
    }
  }

  /** What stays and what changes in the nodes of a log when a tag is set. */
  lemma LoggedNodes(list: TagLog, t: nat, v: nat, c: int)
    requires Ordered(list) && (list != [] ==> list[|list|-1].cycle <= c)
    ensures var m, r, n := LastOther(list, t, c), Logged(list, t, v, c), |list|;
            && |r| == n + 1 && r[n] == LSetTagListNode(c, t, v, m >= 0, false)
            && (forall k :: 0 <= k < n ==>
                  && r[k].cycle == list[k].cycle <= c && r[k].tagid == list[k].tagid
                  && (r[k].used <==> list[k].used || (list[k].tagid == t && list[k].cycle == c))
                  && (r[k].isMutable <==> list[k].isMutable || k == m))
  {
    hide LastOther;
    var m := LastOther(list, t, c);
    assert m >= 0 ==> list[m].cycle < c;
    assert forall k :: 0 <= k <= m ==> list[k].cycle < c;
  }

  lemma LoggedUsed(list: TagLog, r: TagLog, t: nat, c: int, i: nat)
    requires |r| == |list| + 1 && i < |r| && r[|list|].tagid == t && r[|list|].cycle == c && !r[|list|].used
    requires forall k :: 0 <= k < |list| ==>
               && r[k].cycle == list[k].cycle && r[k].tagid == list[k].tagid
               && (r[k].used <==> list[k].used || (list[k].tagid == t && list[k].cycle == c))
    requires i < |list| ==> (list[i].used <==> Superseded(list, i))
    ensures r[i].used <==> Superseded(r, i)
  {
    if i < |list| {
      if Superseded(list, i) {
        var j :| i < j < |list| && list[j].tagid == list[i].tagid && list[j].cycle == list[i].cycle;
        assert r[j].tagid == r[i].tagid && r[j].cycle == r[i].cycle;
      }
      if list[i].tagid == t && list[i].cycle == c {
        assert r[|list|].tagid == r[i].tagid && r[|list|].cycle == r[i].cycle;
      }
    }
  }

  lemma LoggedMutable(list: TagLog, t: nat, v: nat, c: int, i: nat)
    requires LogOk(list) && (list != [] ==> list[|list|-1].cycle <= c)
    requires i <= |list| && !Logged(list, t, v, c)[i].used
    ensures Logged(list, t, v, c)[i].isMutable <==> Revalued(Logged(list, t, v, c), i)
  {
    var m, r, n := LastOther(list, t, c), Logged(list, t, v, c), |list|;
    LoggedNodes(list, t, v, c);
    hide Logged, Scanned;
    if i == n {
      if m >= 0 {
        assert !r[m].used && r[m].tagid == t && r[m].cycle != c;
      }
    } else if list[i].tagid == t {
      assert !r[n].used && r[n].tagid == t && r[n].cycle != r[i].cycle;
      OtherIsMutable(list, t, c, i);
    } else if Revalued(list, i) {
      var j :| 0 <= j < n && !list[j].used && list[j].tagid == list[i].tagid && list[j].cycle != list[i].cycle;
      assert !r[j].used && r[j].tagid == r[i].tagid && r[j].cycle != r[i].cycle;
    }
  }

  /** Setting a tag keeps the invariant of the log, when cycles do not go back. */
  lemma LoggedOk(list: TagLog, t: nat, v: nat, c: int)
    requires LogOk(list) && (list != [] ==> list[|list|-1].cycle <= c)
    ensures LogOk(Logged(list, t, v, c))
  {
    hide Logged, Superseded, Revalued;
    var r := Logged(list, t, v, c);
    LoggedNodes(list, t, v, c);
    forall i | 0 <= i < |r|
      ensures r[i].used <==> Superseded(r, i)
      ensures !r[i].used ==> (r[i].isMutable <==> Revalued(r, i))
    {
      LoggedUsed(list, r, t, c, i);
      if !r[i].used {
        LoggedMutable(list, t, v, c, i);
      }
    }
  }

  /** A standing value of t from before cycle c is flagged already, or is the last one. */
  lemma OtherIsMutable(list: TagLog, t: nat, c: int, i: nat)
    requires LogOk(list) && i < |list| && !list[i].used && list[i].tagid == t && list[i].cycle != c
    ensures var m := LastOther(list, t, c); i <= m && (i == m || list[i].isMutable)
  {
    var m := LastOther(list, t, c);
    if i < m {
      assert !Superseded(list, i);
      assert list[m].cycle != list[i].cycle;
      assert Revalued(list, i);
    }
  }

  // ---------------------------------------------------------------- what a log means

  lemma RelativeIs(cycle: int, first: int)
    requires first <= cycle < first + 0x1_0000_0000
    ensures Relative(cycle, first) == cycle - first
  {
  }

  lemma StoredIs(cycle: int, first: int)
    requires first <= cycle < first + 0x40_0000
    ensures Stored(cycle, first) == Relative(cycle, first) == cycle - first
  {
  }

  /** The cycles in which tag t was set can be stored. */
  ghost predicate InWindow(list: TagLog, t: nat, first: int) {
    forall i :: 0 <= i < |list| && list[i].tagid == t ==> first <= list[i].cycle < first + 0x40_0000
  }

  /** The standing values of tag t, as the heap stores them. */
  function Standing(list: TagLog, t: nat, first: int): seq<Stamp> {
    if list == [] then []
    else
      var x := list[|list|-1];
      Standing(list[..|list|-1], t, first)
      + (if !x.used && x.tagid == t then [Stamp(Stored(x.cycle, first), x.value)] else [])
  }

  /** The value of the last event that set t at or before cycle q. */
  function LastSet(list: TagLog, t: nat, q: int): Option<nat> {
    if list == [] then None
    else
      var x := list[|list|-1];
      if x.tagid == t && x.cycle <= q then Some(x.value) else LastSet(list[..|list|-1], t, q)
  }

  lemma {:induction false} SameSets(list: TagLog, r: TagLog, t: nat, q: int)
    requires |r| == |list|
    requires forall k :: 0 <= k < |list| ==>
               r[k].cycle == list[k].cycle && r[k].tagid == list[k].tagid && r[k].value == list[k].value
    ensures LastSet(r, t, q) == LastSet(list, t, q)
  {
    if list != [] {
      SameSets(list[..|list|-1], r[..|list|-1], t, q);
    }
  }

  /** Setting a tag in cycle c is seen from c on, and changes nothing else. */
  lemma LoggedSet(list: TagLog, t: nat, v: nat, c: int, u: nat, q: int)
    ensures LastSet(Logged(list, t, v, c), u, q) == if u == t && c <= q then Some(v) else LastSet(list, u, q)
  {
    hide LastOther, Scanned;
    var r := Logged(list, t, v, c);
    SameSets(list, r[..|list|], u, q);
  }

  /** The value that the first cycle with a value of t ends with. */
  function FirstSet(list: TagLog, t: nat): Option<nat> {
    if list == [] then None
    else
      var x := list[|list|-1];
      match FirstSet(list[..|list|-1], t)
      case None => if x.tagid == t && !x.used then Some(x.value) else None
      case Some(v) => Some(v)
  }

  /** The last node that sets the same tag in the same cycle as node i; it stands. */
  lemma StandingSame(list: TagLog, i: nat) returns (k: nat)
    requires LogOk(list) && i < |list|
    ensures i <= k < |list| && !list[k].used && list[k].tagid == list[i].tagid && list[k].cycle == list[i].cycle
    decreases |list| - i
  {
    if list[i].used {
      assert Superseded(list, i);
      var j :| i < j < |list| && list[j].tagid == list[i].tagid && list[j].cycle == list[i].cycle;
      k := StandingSame(list, j);
    } else {
      k := i;
    }
  }

  /** The first standing node of tag t, or |list|. */
  function FirstStanding(list: TagLog, t: nat): (j: nat)
    ensures j <= |list| && (j < |list| ==> !list[j].used && list[j].tagid == t)
    ensures forall k :: 0 <= k < j && !list[k].used ==> list[k].tagid != t
  {
    if list == [] || (!list[0].used && list[0].tagid == t) then 0 else 1 + FirstStanding(list[1..], t)
  }

  lemma {:induction false} FirstSetAt(list: TagLog, t: nat)
    ensures var j := FirstStanding(list, t);
            FirstSet(list, t) == if j == |list| then None else Some(list[j].value)
  {
    if list != [] {
      var g := list[..|list|-1];
      FirstSetAt(g, t);
      assert FirstStanding(g, t) < |g| ==> FirstStanding(list, t) == FirstStanding(g, t) by {
        assert forall k :: 0 <= k < |g| ==> g[k] == list[k];
      }
    }
  }

  lemma {:induction false} LastSetAt(list: TagLog, t: nat, q: int, j: nat)
    requires j < |list| && list[j].tagid == t && list[j].cycle <= q
    requires forall k :: j < k < |list| && list[k].tagid == t ==> q < list[k].cycle
    ensures LastSet(list, t, q) == Some(list[j].value)
  {
    if j < |list| - 1 {
      LastSetAt(list[..|list|-1], t, q, j);
    }
  }

  /** What backward propagation shows: the value that the last set event of the first cycle of
      the tag has given it. */
  lemma FirstSetIs(list: TagLog, t: nat, i: nat)
    requires LogOk(list) && i < |list| && list[i].tagid == t
    requires forall k :: 0 <= k < i ==> list[k].tagid != t
    ensures FirstSet(list, t) == LastSet(list, t, list[i].cycle)
  {
    hide LogOk, FirstStanding, FirstSet, LastSet;
    var j := FirstStanding(list, t);
    var k := StandingSame(list, i);
    FirstSetAt(list, t);
    assert i <= j <= k;
    LogOrdered(list);
    StandsLast(list, j);
    LastSetAt(list, t, list[i].cycle, j);
  }

  lemma LogOrdered(list: TagLog)
    requires LogOk(list)
    ensures Ordered(list)
  {
  }

  /** After a standing node its tag is set in later cycles only. */
  lemma StandsLast(list: TagLog, j: nat)
    requires LogOk(list) && j < |list| && !list[j].used
    ensures forall k :: j < k < |list| && list[k].tagid == list[j].tagid ==> list[j].cycle < list[k].cycle
  {
    assert !Superseded(list, j);
  }

  /** What a reader should see for tag t at cycle q. */
  function Expected(list: TagLog, t: nat, q: int, back: bool): Option<nat> {
    match LastSet(list, t, q)
    case Some(v) => Some(v)
    case None => if back then FirstSet(list, t) else None
  }

  /** Used nodes of a prefix are superseded, in the prefix or by a later set of t at or
      before q. */
  ghost predicate Covered(list: TagLog, t: nat, q: int) {
    forall i :: 0 <= i < |list| && list[i].used && list[i].tagid == t && list[i].cycle <= q ==> Superseded(list, i)
  }

  lemma {:induction false} StandingLatest(list: TagLog, t: nat, q: int, first: int)
    requires Covered(list, t, q) && InWindow(list, t, first) && first <= q < first + 0x1_0000_0000
    ensures ValueOf(Latest(Standing(list, t, first), Relative(q, first))) == LastSet(list, t, q)
  {
    if list != [] {
      hide Relative, Stored;
      var g, x := list[..|list|-1], list[|list|-1];
      RelativeIs(q, first);
      if x.tagid == t {
        StoredIs(x.cycle, first);
      }
      if x.tagid == t && x.cycle <= q {
        assert !Superseded(list, |list| - 1);
      } else {
        forall i | 0 <= i < |g| && g[i].used && g[i].tagid == t && g[i].cycle <= q
          ensures Superseded(g, i)
        {
          assert Superseded(list, i);
          var j :| i < j < |list| && list[j].tagid == list[i].tagid && list[j].cycle == list[i].cycle;
          assert g[j].tagid == g[i].tagid;
        }
        StandingLatest(g, t, q, first);
        var h := Standing(list, t, first);
        if x.tagid == t && !x.used {
          assert h[..|h|-1] == Standing(g, t, first);
        } else {
          assert h == Standing(g, t, first);
        }
      }
    }
  }

  lemma {:induction false} StandingFirst(list: TagLog, t: nat, first: int)
    ensures var h := Standing(list, t, first);
            FirstSet(list, t) == if h == [] then None else Some(h[0].value)
  {
    if list != [] {
      StandingFirst(list[..|list|-1], t, first);
    }
  }

  lemma {:induction false} StandingCycles(list: TagLog, t: nat, first: int)
    requires Ordered(list) && InWindow(list, t, first)
    ensures Chronological(Standing(list, t, first))
    ensures var h := Standing(list, t, first);
            h != [] ==> h[|h|-1].cycle <= list[|list|-1].cycle - first
  {
    hide Relative, Stored;
    if list != [] {
      var g, x := list[..|list|-1], list[|list|-1];
      StandingCycles(g, t, first);
      if x.tagid == t {
        StoredIs(x.cycle, first);
      }
    }
  }

  /** Whatever is looked up in the standing values of t is what its set events say. */
  lemma StandingMeaning(list: TagLog, t: nat, q: int, first: int, back: bool, r: Option<Stamp>)
    requires LogOk(list) && InWindow(list, t, first) && first <= q < first + 0x1_0000_0000
    requires IsValueAt(Standing(list, t, first), Relative(q, first), back, r)
    ensures ValueOf(r) == Expected(list, t, q, back)
  {
    var h, c := Standing(list, t, first), Relative(q, first);
    StandingLatest(list, t, q, first);
    StandingFirst(list, t, first);
    StandingCycles(list, t, first);
    LatestIs(h, c);
  }

  // ---------------------------------------------------------------- committed items

  /** Tag t fits a slot, and no other tag of the log has its bits. */
  ghost predicate Unshared(list: TagLog, t: nat) {
    t < 0x1000 && forall i :: 0 <= i < |list| ==> NoClash(list[i].tagid, t)
  }

  /** The entries of an item hold the standing values of its log, for every tag whose bits are its own. */
  ghost predicate Committed(s: seq<TagHeapNode>, list: TagLog, first: int, compress: bool) {
    && BitsOnly(s) && (forall i :: 0 <= i < |s| ==> !s[i].isSOV)
    && (forall t :: Unshared(list, t) ==>
          WellFormed(s, t) && History(s, t) == Folded([], Standing(list, t, first), compress))
  }

  lemma CommittedBits(s: seq<TagHeapNode>, list: TagLog, first: int, compress: bool)
    requires Committed(s, list, first, compress)
    ensures BitsOnly(s)
  {
  }

  lemma WideShared(list: TagLog, t: nat)
    requires t >= 0x1000
    ensures !Unshared(list, t)
  {
  }

  /** End to end: the heap's answer for a tag of a committed item is the value of the last event that
      set the tag at or before the cycle; compression cannot be observed. Only the cycles of this
      tag must fit a slot, and only its own bits matter. */
  lemma CommittedAnswers(s: seq<TagHeapNode>, list: TagLog, first: int, compress: bool, t: nat, q: int, back: bool)
    requires Committed(s, list, first, compress) && LogOk(list) && Unshared(list, t) && InWindow(list, t, first)
    requires first <= q < first + 0x1_0000_0000
    ensures ValueOf(Answer(s, t, Relative(q, first), back)) == Expected(list, t, q, back)
  {
    hide Relative, Stored, Standing, IsValueAt, Answer, Expected, Superseded, Revalued, WellFormed, Unshared;
    var xs, c := Standing(list, t, first), Relative(q, first);
    StandingCycles(list, t, first);
    assert [] + xs == xs;
    FoldedSame([], [], xs);
    AnswerIsLatest(s, t, c, back);
    PlainAnswer(xs, c, back);
    StandingMeaning(list, t, q, first, back, Plain(xs, c, back));
    if compress {
      CompressionInvisible(xs, c, back, Plain(xs, c, back), Answer(s, t, c, back));
    } else {
      SameAnswer(xs, c, back, Plain(xs, c, back), Answer(s, t, c, back));
    }
  }

  /** The answer of an uncompressed history. */
  function Plain(h: seq<Stamp>, c: nat, back: bool): Option<Stamp> {
    if h != [] && c < h[0].cycle then (if back then Some(h[0]) else None) else Latest(h, c)
  }

  lemma PlainAnswer(h: seq<Stamp>, c: nat, back: bool)
    requires Chronological(h)
    ensures IsValueAt(h, c, back, Plain(h, c, back))
  {
    LatestIs(h, c);
  }

  lemma SameAnswer(h: seq<Stamp>, c: nat, back: bool, r: Option<Stamp>, r': Option<Stamp>)
    requires IsValueAt(h, c, back, r) && IsValueAt(h, c, back, r')
    ensures r == r'
  {
    LatestIs(h, c);
  }

  // ---------------------------------------------------------------- tag ids in 12 bits

  /** A tag that is set has a value from then on. */
  lemma {:induction false} SetIsSeen(list: TagLog, i: nat, q: int)
    requires i < |list| && list[i].cycle <= q
    ensures LastSet(list, list[i].tagid, q).Some?
  {
    if i < |list| - 1 {
      SetIsSeen(list[..|list|-1], i, q);
    }
  }

  /** A tag that is not set has none. */
  lemma NeverExpected(list: TagLog, t: nat, q: int, back: bool)
    requires forall k :: 0 <= k < |list| ==> list[k].tagid != t
    ensures Expected(list, t, q, back) == None
  {
    NothingSet(list, t, 0);
    NoFirst(list, t);
  }

  lemma {:induction false} NoFirst(list: TagLog, t: nat)
    requires forall k :: 0 <= k < |list| ==> list[k].tagid != t
    ensures FirstSet(list, t) == None
  {
    if list != [] {
      NoFirst(list[..|list|-1], t);
    }
  }

  /** Cycles before the first one wrap around: a lookup there is one beyond the end of the trace. */
  lemma EarlyAnswers(s: seq<TagHeapNode>, list: TagLog, first: int, compress: bool, t: nat, q: int, back: bool)
    requires Committed(s, list, first, compress) && LogOk(list) && Unshared(list, t) && InWindow(list, t, first)
    requires first - 0x1_0000_0000 <= q < first
    ensures ValueOf(Answer(s, t, Relative(q, first), back)) == Expected(list, t, q + 0x1_0000_0000, back)
  {
    assert Relative(q, first) == Relative(q + 0x1_0000_0000, first);
    CommittedAnswers(s, list, first, compress, t, q + 0x1_0000_0000, back);
  }

  /** Both together, and that a tag of more than 12 bits is not found. */
  lemma HeapAnswers(s: seq<TagHeapNode>, list: TagLog, first: int, compress: bool, t: nat, c: int, back: bool)
    requires Committed(s, list, first, compress) && LogOk(list)
    ensures t >= 0x1000 ==> Answer(s, t, Relative(c, first), back) == None && !Unshared(list, t)
    ensures Unshared(list, t) && InWindow(list, t, first)
            && first - 0x1_0000_0000 <= c < first + 0x1_0000_0000 ==>
              var q := if c < first then c + 0x1_0000_0000 else c;
              ValueOf(Answer(s, t, Relative(c, first), back)) == Expected(list, t, q, back)
  {
    hide *;
    if t >= 0x1000 {
      CommittedBits(s, list, first, compress);
      WideTag(s, t, Relative(c, first), back);
      WideShared(list, t);
    } else if Unshared(list, t) && InWindow(list, t, first)
      && first - 0x1_0000_0000 <= c < first + 0x1_0000_0000 {
      if c < first {
        EarlyAnswers(s, list, first, compress, t, c, back);
      } else {
        CommittedAnswers(s, list, first, compress, t, c, back);
      }
    }
  }

  /** The exact condition for stored tag ids, which have 12 bits: every lookup in a committed item is
      answered as its log says if and only if all the tags that were set on it have ids below 2^12. */
  lemma TagIdsFaithful(s: seq<TagHeapNode>, list: TagLog, first: int, compress: bool, back: bool)
    requires Committed(s, list, first, compress) && LogOk(list)
    requires forall i :: 0 <= i < |list| ==> first <= list[i].cycle < first + 0x40_0000
    ensures (forall t, q :: first <= q < first + 0x1_0000_0000 ==>
               ValueOf(Answer(s, t, Relative(q, first), back)) == Expected(list, t, q, back))
       <==> forall i :: 0 <= i < |list| ==> list[i].tagid < 0x1000
  {
    hide LogOk, Answer, Relative, Expected, WellFormed, Standing;
    if forall i :: 0 <= i < |list| ==> list[i].tagid < 0x1000 {
      forall t, q | first <= q < first + 0x1_0000_0000
        ensures ValueOf(Answer(s, t, Relative(q, first), back)) == Expected(list, t, q, back)
      {
        if t < 0x1000 {
          CommittedAnswers(s, list, first, compress, t, q, back);
        } else {
          WideTag(s, t, Relative(q, first), back);
          NeverExpected(list, t, q, back);
        }
      }
    }
    forall i | 0 <= i < |list| && list[i].tagid >= 0x1000
      ensures ValueOf(Answer(s, list[i].tagid, Relative(list[i].cycle, first), back)) == None
      ensures Expected(list, list[i].tagid, list[i].cycle, back).Some?
    {
      WideTag(s, list[i].tagid, Relative(list[i].cycle, first), back);
      SetIsSeen(list, i, list[i].cycle);
      assert Expected(list, list[i].tagid, list[i].cycle, back).Some? by {
        SeenExpected(list, list[i].tagid, list[i].cycle, back);
      }
    }
  }

  lemma SeenExpected(list: TagLog, t: nat, q: int, back: bool)
    requires LastSet(list, t, q).Some?
    ensures Expected(list, t, q, back).Some?
  {
  }

  /** The first value of tag 4100 is stored as one of tag 4: it is found there, and not under 4100. */
  lemma TagIdFails(v: nat, c: nat, compress: bool, back: bool)
    ensures var s := WithTag([], 4100, v, c, compress);
            Answer(s, 4100, c, back) == None && Answer(s, 4, c, back) == Some(Stamp(c, v))
  {
    assert WithTag([], 4100, v, c, compress) == [TagHeapNode(4, v, false, false, c)];
  }

  // ---------------------------------------------------------------- cycles in 22 bits

  /** Node i is the only one that sets tag t. */
  ghost predicate Sole(list: TagLog, t: nat, i: nat) {
    && i < |list| && list[i].tagid == t && !list[i].used
    && forall k :: 0 <= k < |list| && k != i ==> list[k].tagid != t
  }

  lemma {:induction false} SoleStanding(list: TagLog, t: nat, i: nat, first: int)
    requires Sole(list, t, i)
    ensures Standing(list, t, first) == [Stamp(Stored(list[i].cycle, first), list[i].value)]
    ensures forall q :: LastSet(list, t, q) == if list[i].cycle <= q then Some(list[i].value) else None
  {
    hide Stored;
    var g := list[..|list|-1];
    if i == |list| - 1 {
      NothingSet(g, t, first);
    } else {
      assert Sole(g, t, i);
      SoleStanding(g, t, i, first);
    }
  }

  lemma {:induction false} NothingSet(list: TagLog, t: nat, first: int)
    requires forall k :: 0 <= k < |list| ==> list[k].tagid != t
    ensures Standing(list, t, first) == [] && forall q :: LastSet(list, t, q) == None
  {
    if list != [] {
      NothingSet(list[..|list|-1], t, first);
    }
  }

  /** What the heap answers for a tag that was set once: the value, from the stored cycle on. */
  lemma SoleAnswer(s: seq<TagHeapNode>, list: TagLog, first: int, compress: bool, t: nat, i: nat, c: nat)
    requires Committed(s, list, first, compress) && Sole(list, t, i) && Unshared(list, t)
    ensures ValueOf(Answer(s, t, c, false))
         == if Stored(list[i].cycle, first) <= c then Some(list[i].value) else None
  {
    hide Stored, WellFormed, Answer, Standing, History;
    var x := Stamp(Stored(list[i].cycle, first), list[i].value);
    SoleStanding(list, t, i, first);
    assert Folded([], [x], compress) == [x] by { assert [x][1..] == [] && Extended([], x, compress) == [x]; }
    assert History(s, t) == [x];
    AnswerIsLatest(s, t, c, false);
  }

  /** The exact condition for stored cycles, which have 22 bits: a value that was set once on a
      committed item is found at exactly the cycles at which it should be if and only if it was set
      in the first 2^22 cycles of the trace. */
  lemma StoredFaithful(s: seq<TagHeapNode>, list: TagLog, first: int, compress: bool, t: nat, i: nat)
    requires Committed(s, list, first, compress) && Sole(list, t, i) && Unshared(list, t)
    requires first <= list[i].cycle < first + 0x1_0000_0000
    ensures (forall q :: first <= q < first + 0x1_0000_0000 ==>
               ValueOf(Answer(s, t, Relative(q, first), false)) == Expected(list, t, q, false))
       <==> list[i].cycle - first < 0x40_0000
  {
    hide Committed, Answer, LastSet, Stored, Relative;
    var c := list[i].cycle;
    SoleStanding(list, t, i, first);
    StoredBelow(c, first);
    forall q | first <= q < first + 0x1_0000_0000
      ensures ValueOf(Answer(s, t, Relative(q, first), false))
              == (if Stored(c, first) <= q - first then Some(list[i].value) else None)
    {
      RelativeIs(q, first);
      SoleAnswer(s, list, first, compress, t, i, Relative(q, first));
    }
    var q := first + Stored(c, first);
    assert ValueOf(Answer(s, t, Relative(q, first), false)) == Some(list[i].value);
    assert Expected(list, t, q, false) == if c <= q then Some(list[i].value) else None;
  }

  lemma StoredBelow(cycle: int, first: int)
    requires first <= cycle < first + 0x1_0000_0000
    ensures Stored(cycle, first) < 0x40_0000 && Stored(cycle, first) <= cycle - first
    ensures cycle - first < 0x40_0000 ==> Stored(cycle, first) == cycle - first
  {
  }

  /** A value set in cycle 2^22 is found in cycle 0 already. */
  lemma StoredFails(s: seq<TagHeapNode>, list: TagLog, first: int, compress: bool, t: nat, i: nat)
    requires Committed(s, list, first, compress) && Sole(list, t, i) && Unshared(list, t)
    requires list[i].cycle == first + 0x40_0000
    ensures ValueOf(Answer(s, t, Relative(first, first), false)) == Some(list[i].value)
    ensures Expected(list, t, first, false) == None
  {
    hide Committed, Answer, LastSet;
    SoleStanding(list, t, i, first);
    SoleAnswer(s, list, first, compress, t, i, Relative(first, first));
  }

  // ---------------------------------------------------------------- committing an item

  /** Tag t has a standing value among the first n nodes. */
  ghost predicate Sent(list: TagLog, n: nat, t: nat)
    requires n <= |list|
  {
    exists k :: 0 <= k < n && !list[k].used && list[k].tagid == t
  }

  /** The log once the first n nodes have been dealt with: a mutable tag is sent as a whole
      when its first value comes up, and all its values are marked. */
  ghost predicate Marked(list: TagLog, n: nat, r: TagLog)
    requires n <= |list|
  {
    && |r| == |list|
    && forall k :: 0 <= k < |list| ==>
         r[k] == list[k].(used := list[k].used || (list[k].isMutable && Sent(list, n, list[k].tagid)))
  }

  /** The entries once the first n nodes have been dealt with. */
  ghost predicate Sending(s: seq<TagHeapNode>, list: TagLog, n: nat, first: int, compress: bool)
    requires n <= |list|
  {
    && BitsOnly(s) && (forall i :: 0 <= i < |s| ==> !s[i].isSOV)
    && (forall t :: Unshared(list, t) ==> SentAt(s, list, n, t, first, compress))
  }

  /** What there is of tag t then. */
  ghost predicate SentAt(s: seq<TagHeapNode>, list: TagLog, n: nat, t: nat, first: int, compress: bool)
    requires n <= |list|
  {
    WellFormed(s, t)
    && History(s, t) == if Sent(list, n, t) then Folded([], Standing(list, t, first), compress) else []
  }

  /** While the values of tag t are being sent, from node n on: those before node k are there. */
  ghost predicate SendingTag(s: seq<TagHeapNode>, list: TagLog, n: nat, k: nat, t: nat, first: int, compress: bool)
    requires n < k <= |list|
  {
    && BitsOnly(s) && (forall i :: 0 <= i < |s| ==> !s[i].isSOV)
    && (forall u :: Unshared(list, u) && u != t ==> SentAt(s, list, n, u, first, compress))
    && (Unshared(list, t) ==>
          WellFormed(s, t) && History(s, t) == Folded([], Standing(list[..k], t, first), compress))
  }

  lemma {:induction false} StandingNone(list: TagLog, t: nat, first: int)
    ensures Standing(list, t, first) == [] <==> !Sent(list, |list|, t)
  {
    if list != [] {
      var g, x := list[..|list|-1], list[|list|-1];
      StandingNone(g, t, first);
      assert Sent(list, |list|, t) <==> Sent(g, |g|, t) || (!x.used && x.tagid == t);
    }
  }

  lemma StandingStep(list: TagLog, k: nat, t: nat, first: int)
    requires k < |list|
    ensures Standing(list[..k+1], t, first) == Standing(list[..k], t, first)
         + (if !list[k].used && list[k].tagid == t then [Stamp(Stored(list[k].cycle, first), list[k].value)] else [])
  {
    assert list[..k+1][..k] == list[..k];
  }

  lemma SentStep(list: TagLog, n: nat, t: nat)
    requires n < |list|
    ensures Sent(list, n + 1, t) <==> Sent(list, n, t) || (!list[n].used && list[n].tagid == t)
  {
    if Sent(list, n, t) {
      var k :| 0 <= k < n && !list[k].used && list[k].tagid == t;
      assert 0 <= k < n + 1 && !list[k].used && list[k].tagid == t;
    }
    if Sent(list, n + 1, t) {
      var k :| 0 <= k < n + 1 && !list[k].used && list[k].tagid == t;
      assert k < n ==> Sent(list, n, t);
    }
  }

  lemma SentPrefix(list: TagLog, n: nat, t: nat, first: int)
    requires n <= |list|
    ensures Standing(list[..n], t, first) == [] <==> !Sent(list, n, t)
  {
    StandingNone(list[..n], t, first);
    assert Sent(list[..n], n, t) <==> Sent(list, n, t);
  }

  /** A tag with a plain standing value has no other. */
  lemma PlainValue(list: TagLog, n: nat, j: nat)
    requires LogOk(list) && n < |list| && j < |list| && !list[n].used && !list[n].isMutable
    requires !list[j].used && list[j].tagid == list[n].tagid
    ensures j == n
  {
    assert !Revalued(list, n);
    assert list[j].cycle == list[n].cycle;
    assert !Superseded(list, n) && !Superseded(list, j);
  }

  /** All standing values of a tag carry the same flag. */
  lemma SameFlag(list: TagLog, n: nat, j: nat)
    requires LogOk(list) && n < |list| && j < |list| && !list[n].used && !list[j].used
    requires list[j].tagid == list[n].tagid
    ensures list[j].isMutable == list[n].isMutable
  {
    if !list[n].isMutable {
      PlainValue(list, n, j);
    } else if !list[j].isMutable {
      PlainValue(list, j, n);
    }
  }

  lemma SendingStart(list: TagLog, first: int, compress: bool)
    ensures Sending([], list, 0, first, compress) && Marked(list, 0, list)
  {
  }

  lemma SendingEnd(s: seq<TagHeapNode>, list: TagLog, first: int, compress: bool)
    requires Sending(s, list, |list|, first, compress)
    ensures Committed(s, list, first, compress)
  {
    hide Unshared, WellFormed;
    forall t | Unshared(list, t)
      ensures WellFormed(s, t) && History(s, t) == Folded([], Standing(list, t, first), compress)
    {
      assert SentAt(s, list, |list|, t, first, compress);
      StandingNone(list, t, first);
    }
  }

  /** A node that is passed over. */
  lemma SendingSkip(s: seq<TagHeapNode>, list: TagLog, n: nat, r: TagLog, first: int, compress: bool)
    requires LogOk(list) && n < |list| && Sending(s, list, n, first, compress) && Marked(list, n, r) && r[n].used
    ensures Sending(s, list, n + 1, first, compress) && Marked(list, n + 1, r)
  {
    hide Standing, LogOk, Unshared, WellFormed;
    forall t
      ensures Sent(list, n + 1, t) <==> Sent(list, n, t) || (!list[n].used && list[n].tagid == t)
    {
      SentStep(list, n, t);
    }
    forall t | Unshared(list, t)
      ensures SentAt(s, list, n + 1, t, first, compress)
    {
      assert SentAt(s, list, n, t, first, compress);
    }
  }

  /** A value that is the only one of its tag. */
  lemma SendingPlain(s: seq<TagHeapNode>, list: TagLog, n: nat, r: TagLog, first: int, compress: bool)
    requires LogOk(list) && n < |list| && Sending(s, list, n, first, compress) && Marked(list, n, r)
    requires !r[n].used && !r[n].isMutable
    ensures var x := list[n];
            Sending(WithTag(s, x.tagid, x.value, Stored(x.cycle, first), compress), list, n + 1, first, compress)
    ensures Marked(list, n + 1, r)
  {
    hide WithTag, Standing, Stored, WellFormed, Unshared;
    var x := list[n];
    var s' := WithTag(s, x.tagid, x.value, Stored(x.cycle, first), compress);
    forall t
      ensures Sent(list, n + 1, t) <==> Sent(list, n, t) || (!list[n].used && list[n].tagid == t)
    {
      SentStep(list, n, t);
    }
    assert !Sent(list, n, x.tagid) by {
      forall k | 0 <= k < |list| && !list[k].used && list[k].tagid == x.tagid
        ensures k == n
      {
        PlainValue(list, n, k);
      }
    }
    forall k | 0 <= k < |list| && list[k].tagid == x.tagid
      ensures list[k].used || !list[k].isMutable
    {
      if !list[k].used {
        SameFlag(list, n, k);
      }
    }
    OnlyStanding(list, n, first);
    WithTagSent(s, x.tagid, x.value, Stored(x.cycle, first), compress);
    var h: seq<Stamp> := [];
    FoldedOne(h, [], Stamp(Stored(x.cycle, first), x.value), compress);
    assert [] + [Stamp(Stored(x.cycle, first), x.value)] == [Stamp(Stored(x.cycle, first), x.value)];
    forall t | Unshared(list, t)
      ensures SentAt(s', list, n + 1, t, first, compress)
    {
      assert SentAt(s, list, n, t, first, compress);
      SendOne(s, list, n, t, Stored(x.cycle, first), compress);
    }
  }

  /** What sending the value of node n does to a tag whose bits are its own. */
  lemma SendOne(s: seq<TagHeapNode>, list: TagLog, n: nat, u: nat, c: nat, compress: bool)
    requires n < |list| && BitsOnly(s) && Unshared(list, u) && WellFormed(s, u)
    ensures var x := list[n];
            var s' := WithTag(s, x.tagid, x.value, c, compress);
            && WellFormed(s', u)
            && History(s', u) == if u == x.tagid then Extended(History(s, u), Stamp(c, x.value), compress)
                                 else History(s, u)
  {
    hide WellFormed, BitsOnly, WithTag, History;
    var x := list[n];
    WithTagWellFormed(s, x.tagid, x.value, c, compress, u);
    WithTagHistory(s, x.tagid, x.value, c, compress, u);
  }

  /** What adding a value keeps of the entries. */
  lemma WithTagSent(s: seq<TagHeapNode>, t: nat, v: nat, c: nat, compress: bool)
    requires BitsOnly(s) && forall i :: 0 <= i < |s| ==> !s[i].isSOV
    ensures BitsOnly(WithTag(s, t, v, c, compress))
    ensures forall i :: 0 <= i < |WithTag(s, t, v, c, compress)| ==> !WithTag(s, t, v, c, compress)[i].isSOV
  {
    WithTagBits(s, t, v, c, compress);
  }

  /** The standing values of a tag with a plain standing value. */
  lemma OnlyStanding(list: TagLog, n: nat, first: int)
    requires LogOk(list) && n < |list| && !list[n].used && !list[n].isMutable
    ensures Standing(list, list[n].tagid, first) == [Stamp(Stored(list[n].cycle, first), list[n].value)]
  {
    hide LogOk, Stored;
    var t := list[n].tagid;
    forall k | 0 <= k < |list| && !list[k].used && list[k].tagid == t
      ensures k == n
    {
      PlainValue(list, n, k);
    }
    StandingStep(list, n, t, first);
    SentPrefix(list, n, t, first);
    StandingRest(list, n + 1, |list|, t, first);
    assert list[..|list|] == list;
  }

  lemma {:induction false} StandingRest(list: TagLog, a: nat, b: nat, t: nat, first: int)
    requires a <= b <= |list| && forall k :: a <= k < b ==> list[k].used || list[k].tagid != t
    ensures Standing(list[..b], t, first) == Standing(list[..a], t, first)
  {
    if a < b {
      StandingRest(list, a, b - 1, t, first);
      StandingStep(list, b - 1, t, first);
    }
  }

  // a mutable tag is sent as a whole

  /** No value of the tag of node n has been sent when node n comes up. */
  lemma NotSentYet(list: TagLog, n: nat, r: TagLog)
    requires LogOk(list) && n < |list| && Marked(list, n, r) && !r[n].used
    ensures !list[n].used && !Sent(list, n, list[n].tagid)
  {
    forall k | 0 <= k < |list| && !list[k].used && list[k].tagid == list[n].tagid
      ensures list[n].isMutable || k == n
    {
      if !list[n].isMutable {
        PlainValue(list, n, k);
      }
    }
  }

  /** The first value of a mutable tag. */
  lemma SendingFirst(s: seq<TagHeapNode>, list: TagLog, n: nat, r: TagLog, first: int, compress: bool)
    requires LogOk(list) && n < |list| && Sending(s, list, n, first, compress) && Marked(list, n, r) && !r[n].used
    ensures var x := list[n];
            SendingTag(WithTag(s, x.tagid, x.value, Stored(x.cycle, first), compress), list, n, n + 1, x.tagid,
                       first, compress)
  {
    hide LogOk, WithTag, Standing, Stored, WellFormed, Unshared, Sent;
    var x := list[n];
    var c := Stored(x.cycle, first);
    NotSentYet(list, n, r);
    WithTagSent(s, x.tagid, x.value, c, compress);
    SentPrefix(list, n, x.tagid, first);
    StandingStep(list, n, x.tagid, first);
    FoldedOne([], [], Stamp(c, x.value), compress);
    forall u | Unshared(list, u)
      ensures WellFormed(WithTag(s, x.tagid, x.value, c, compress), u)
      ensures History(WithTag(s, x.tagid, x.value, c, compress), u)
           == if u == x.tagid then Extended(History(s, u), Stamp(c, x.value), compress) else History(s, u)
    {
      assert SentAt(s, list, n, u, first, compress);
      SendOne(s, list, n, u, c, compress);
    }
    forall u | Unshared(list, u)
      ensures History(s, u) == if Sent(list, n, u) then Folded([], Standing(list, u, first), compress) else []
    {
      assert SentAt(s, list, n, u, first, compress);
    }
  }

  /** One more value of the tag, or a node that is passed over. */
  lemma SendingMore(s: seq<TagHeapNode>, list: TagLog, n: nat, k: nat, t: nat, first: int, compress: bool)
    requires n < k < |list| && SendingTag(s, list, n, k, t, first, compress)
    ensures var x := list[k];
            if !x.used && x.tagid == t
            then SendingTag(WithTag(s, t, x.value, Stored(x.cycle, first), compress), list, n, k + 1, t,
                             first, compress)
            else SendingTag(s, list, n, k + 1, t, first, compress)
  {
    hide WithTag, Standing, Stored, WellFormed, Sent, Unshared;
    var x := list[k];
    var c := Stored(x.cycle, first);
    StandingStep(list, k, t, first);
    if !x.used && x.tagid == t {
      WithTagSent(s, t, x.value, c, compress);
      FoldedOne([], Standing(list[..k], t, first), Stamp(c, x.value), compress);
      forall u | Unshared(list, u) && u != t
        ensures SentAt(WithTag(s, t, x.value, c, compress), list, n, u, first, compress)
      {
        assert SentAt(s, list, n, u, first, compress);
        SendOne(s, list, k, u, c, compress);
      }
      if Unshared(list, t) {
        SendOne(s, list, k, t, c, compress);
      }
    } else {
      assert Standing(list[..k], t, first) + [] == Standing(list[..k], t, first);
    }
  }

  /** The log r once the values of tag t before node k are marked too. */
  ghost predicate TagMarked(r: TagLog, n: nat, k: nat, t: nat, r': TagLog) {
    && |r'| == |r|
    && forall j :: 0 <= j < |r| ==>
         r'[j] == r[j].(used := r[j].used || (r[j].tagid == t && (j < k || j == n)))
  }

  /** All values of a mutable tag have been sent. */
  lemma SendingAll(s: seq<TagHeapNode>, list: TagLog, n: nat, r: TagLog, r': TagLog, first: int, compress: bool)
    requires LogOk(list) && n < |list| && Marked(list, n, r) && !r[n].used && r[n].isMutable
    requires SendingTag(s, list, n, |list|, list[n].tagid, first, compress)
    requires TagMarked(r, n, |list|, list[n].tagid, r')
    ensures Sending(s, list, n + 1, first, compress) && Marked(list, n + 1, r')
  {
    hide Standing, LogOk, Unshared, WellFormed;
    NotSentYet(list, n, r);
    forall t
      ensures Sent(list, n + 1, t) <==> Sent(list, n, t) || (!list[n].used && list[n].tagid == t)
    {
      SentStep(list, n, t);
    }
    assert list[..|list|] == list;
    forall t | Unshared(list, t)
      ensures SentAt(s, list, n + 1, t, first, compress)
    {
      assert t != list[n].tagid ==> SentAt(s, list, n, t, first, compress);
    }
    forall j | 0 <= j < |list| && !list[j].used && list[j].tagid == list[n].tagid
      ensures list[j].isMutable
    {
      SameFlag(list, n, j);
    }
  }

  /** Nothing of the tag comes before its first value. */
  lemma BeforeFirstValue(list: TagLog, n: nat, r: TagLog, k: nat)
    requires LogOk(list) && n < |list| && Marked(list, n, r) && !r[n].used
    requires k < n && list[k].tagid == list[n].tagid
    ensures r[k].used
  {
    NotSentYet(list, n, r);
  }
}
