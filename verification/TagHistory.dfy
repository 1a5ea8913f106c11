/** The tag entries of one item, seen as a sequence: how a value is added, how a
    value is looked up, and the history of every tag that the entries represent.
    The heap of ItemTagHeap.dfy stores these sequences in chunks. */
module TagHistory {

  datatype Option<+T> = None | Some(value: T)

  /** One slot of the heap; the dictionary key is represented by the value it stands for. */
  datatype TagHeapNode = TagHeapNode(tagId: nat, value: nat, isMutable: bool, isSOV: bool, cycle: nat)

  /** A value and the (relative) cycle at which it was set. */
  datatype Stamp = Stamp(cycle: nat, value: nat)

  /** Cycles are counted from the first cycle of the trace, in unsigned 32-bit arithmetic. */
  function Relative(cycle: int, first: int): nat { (cycle - first) % 0x1_0000_0000 }

  /** A slot of the heap keeps the low 22 bits. */
  function Stored(cycle: int, first: int): nat { Relative(cycle, first) % 0x40_0000 }

  /** A slot of the heap keeps the low 12 bits of a tag id. */
  function TagBits(t: nat): nat { t % 0x1000 }

  predicate Simple(n: TagHeapNode) { !n.isMutable && !n.isSOV }

  // ---------------------------------------------------------------- representation invariant

  /** All the entries of tag t are next to each other. */
  ghost predicate Grouped(s: seq<TagHeapNode>, t: nat) {
    forall i, j, k :: 0 <= i < j < k < |s| && s[i].tagId == t && s[k].tagId == t ==> s[j].tagId == t
  }

  /** An entry of tag t that is neither mutable nor part of a set is the only one. */
  ghost predicate SimpleAlone(s: seq<TagHeapNode>, t: nat) {
    forall i, j :: 0 <= i < |s| && 0 <= j < |s| && i != j && s[i].tagId == t && s[j].tagId == t ==> !Simple(s[i])
  }

  /** The entries of tag t are one run. */
  ghost predicate WellFormed(s: seq<TagHeapNode>, t: nat) { Grouped(s, t) && SimpleAlone(s, t) }

  /** The tag ids are as a slot keeps them. */
  ghost predicate BitsOnly(s: seq<TagHeapNode>) {
    forall i :: 0 <= i < |s| ==> s[i].tagId < 0x1000
  }

  // ---------------------------------------------------------------- histories

  /** The values of tag t in the order of the entries. */
  function History(s: seq<TagHeapNode>, t: nat): seq<Stamp> {
    if s == [] then []
    else Own(s[0], t) + History(s[1..], t)
  }

  /** The contribution of one entry to the history of t. */
  function Own(x: TagHeapNode, t: nat): seq<Stamp> {
    if x.tagId == t then [Stamp(x.cycle, x.value)] else []
  }

  ghost predicate Absent(s: seq<TagHeapNode>, t: nat) {
    forall i :: 0 <= i < |s| ==> s[i].tagId != t
  }

  lemma {:induction false} HistoryConcat(a: seq<TagHeapNode>, b: seq<TagHeapNode>, t: nat)
    ensures History(a + b, t) == History(a, t) + History(b, t)
  {
    if a == [] {
      assert a + b == b;
    } else {
      var o, x, y := Own(a[0], t), History(a[1..], t), History(b, t);
      calc {
        History(a + b, t);
        { assert (a + b)[0] == a[0]; assert (a + b)[1..] == a[1..] + b; }
        o + History(a[1..] + b, t);
        { HistoryConcat(a[1..], b, t); }
        o + (x + y);
        (o + x) + y;
      }
    }
  }

  lemma {:induction false} HistoryAbsent(s: seq<TagHeapNode>, t: nat)
    requires Absent(s, t)
    ensures History(s, t) == []
  {
    if s != [] {
      HistoryAbsent(s[1..], t);
    }
  }

  /** Raising the mutable flag of an entry changes no history. */
  lemma {:induction false} HistoryFlag(s: seq<TagHeapNode>, p: nat, t: nat)
    requires p < |s|
    ensures History(s[p := s[p].(isMutable := true)], t) == History(s, t)
  {
    var x := s[p].(isMutable := true);
    assert s[p := x] == s[..p] + ([x] + s[p+1..]);
    assert s == s[..p] + ([s[p]] + s[p+1..]);
    HistoryConcat(s[..p], [x] + s[p+1..], t);
    HistoryConcat(s[..p], [s[p]] + s[p+1..], t);
    assert ([x] + s[p+1..])[1..] == ([s[p]] + s[p+1..])[1..];
  }

  // ---------------------------------------------------------------- positions

  /** The first entry of tag t, or |s|. */
  function FirstOf(s: seq<TagHeapNode>, t: nat): (p: nat)
    ensures p <= |s|
    ensures p < |s| ==> s[p].tagId == t
    ensures forall i :: 0 <= i < p ==> s[i].tagId != t
  {
    if s == [] || s[0].tagId == t then 0 else 1 + FirstOf(s[1..], t)
  }

  /** The first entry at or after p that does not carry tag t, or |s|. */
  function RunEnd(s: seq<TagHeapNode>, t: nat, p: nat): (e: nat)
    requires p <= |s|
    ensures p <= e <= |s|
    ensures e < |s| ==> s[e].tagId != t
    ensures forall i :: p <= i < e ==> s[i].tagId == t
    decreases |s| - p
  {
    if p == |s| || s[p].tagId != t then p else RunEnd(s, t, p + 1)
  }

  /** The entry that leaves its place when a gap is opened at p: the first simple
      entry from p on, or the last entry. */
  function Evicted(s: seq<TagHeapNode>, p: nat): (r: nat)
    requires p < |s|
    ensures p <= r < |s|
    ensures r == |s| - 1 || Simple(s[r])
    ensures forall i :: p <= i < r ==> !Simple(s[i])
    decreases |s| - p
  {
    if p == |s| - 1 || Simple(s[p]) then p else Evicted(s, p + 1)
  }

  /** The entries after a gap is opened at p; the gap still holds the old entry. */
  function Opened(s: seq<TagHeapNode>, p: nat): (o: seq<TagHeapNode>)
    requires p < |s|
    ensures |o| == |s| + 1
  {
    var r := Evicted(s, p);
    s[..p] + [s[p]] + s[p..r] + s[r+1..] + [s[r]]
  }

  // ---------------------------------------------------------------- adding a value

  /** The entries after value v of tag t is added at cycle c. Tag t is looked for by its id, and
      stored by the bits that a slot has for it. */
  function WithTag(s: seq<TagHeapNode>, t: nat, v: nat, c: nat, compress: bool): seq<TagHeapNode> {
    var p := FirstOf(s, t);
    if p == |s| then
      s + [TagHeapNode(TagBits(t), v, false, false, c)]
    else
      var m := s[p := s[p].(isMutable := true)];
      var e := RunEnd(m, t, p);
      if compress && m[e-1].value == v then m
      else if e == |m| then m + [TagHeapNode(TagBits(t), v, true, false, c)]
      else Opened(m, e)[e := TagHeapNode(TagBits(t), v, true, false, c)]
  }

  /** The entries after a set of values of tag t is added at cycle c. */
  function WithSet(s: seq<TagHeapNode>, t: nat, list: seq<nat>, c: nat): seq<TagHeapNode>
    decreases |list|
  {
    if list == [] then s else WithSet(s + [TagHeapNode(TagBits(t), list[0], false, true, c)], t, list[1..], c)
  }

  /** Tag t is not there, or its values are a set at the end. */
  ghost predicate SetOpen(s: seq<TagHeapNode>, t: nat) {
    Absent(s, t) || (s != [] && s[|s|-1].tagId == t && forall i :: 0 <= i < |s| && s[i].tagId == t ==> s[i].isSOV)
  }

  /** The values of a set as stamps. */
  function SetStamps(list: seq<nat>, c: nat): seq<Stamp>
    decreases |list|
  {
    if list == [] then [] else [Stamp(c, list[0])] + SetStamps(list[1..], c)
  }

  lemma SetWellFormed(s: seq<TagHeapNode>, x: TagHeapNode, u: nat)
    requires WellFormed(s, u) && x.isSOV && SetOpen(s, x.tagId)
    ensures WellFormed(s + [x], u) && SetOpen(s + [x], x.tagId)
  {
    if Absent(s, x.tagId) || u != x.tagId {
      FreshWellFormed(s, x, u);
    } else {
      AppendedWellFormed(s, x);
    }
  }

  /** A set that is added to an item that lacks the bits of the tag becomes the run of these bits;
      every other history stays. */
  lemma {:induction false} WithSetHistory(s: seq<TagHeapNode>, t: nat, list: seq<nat>, c: nat, u: nat)
    requires WellFormed(s, u) && SetOpen(s, TagBits(t))
    ensures WellFormed(WithSet(s, t, list, c), u)
    ensures History(WithSet(s, t, list, c), u) == History(s, u) + if u == TagBits(t) then SetStamps(list, c) else []
    decreases |list|
  {
    hide WellFormed, SetOpen, History, TagBits;
    if list != [] {
      var x := TagHeapNode(TagBits(t), list[0], false, true, c);
      HistoryConcat(s, [x], u);
      HistoryOne(x, u);
      SetWellFormed(s, x, u);
      WithSetHistory(s + [x], t, list[1..], c, u);
    }
  }

  /** The history after one more value: with compression a repeated value is dropped. */
  function Extended(h: seq<Stamp>, x: Stamp, compress: bool): seq<Stamp> {
    if compress && h != [] && h[|h|-1].value == x.value then h else h + [x]
  }

  lemma GroupedFlag(s: seq<TagHeapNode>, p: nat, t: nat)
    requires WellFormed(s, t) && p < |s|
    ensures WellFormed(s[p := s[p].(isMutable := true)], t)
  {
    var m := s[p := s[p].(isMutable := true)];
    assert forall i :: 0 <= i < |s| ==> m[i].tagId == s[i].tagId && (Simple(m[i]) ==> Simple(s[i]));
  }

  /** What is left of the run of tag t behind its end: nothing. */
  lemma RunIsAll(s: seq<TagHeapNode>, t: nat)
    requires Grouped(s, t)
    ensures var p := FirstOf(s, t);
            forall i :: 0 <= i < |s| ==> (s[i].tagId == t <==> p <= i < RunEnd(s, t, p))
  {
    var p := FirstOf(s, t);
    var e := RunEnd(s, t, p);
    if p < |s| {
      assert s[p].tagId == t;
    }
  }

  lemma HistoryConcat3(a: seq<TagHeapNode>, b: seq<TagHeapNode>, c: seq<TagHeapNode>, t: nat)
    ensures History(a + b + c, t) == History(a, t) + History(b, t) + History(c, t)
  {
    HistoryConcat(a + b, c, t);
    HistoryConcat(a, b, t);
  }

  lemma HistoryOne(x: TagHeapNode, t: nat)
    ensures History([x], t) == Own(x, t)
  {
    assert [x][1..] == [];
  }

  lemma HistoryConcat5(a: seq<TagHeapNode>, b: seq<TagHeapNode>, c: seq<TagHeapNode>,
                       d: seq<TagHeapNode>, e: seq<TagHeapNode>, t: nat)
    ensures History(a + b + c + d + e, t)
         == History(a, t) + History(b, t) + History(c, t) + History(d, t) + History(e, t)
  {
    HistoryConcat3(a + b + c, d, e, t);
    HistoryConcat3(a, b, c, t);
  }

  lemma UpdatedPart<T>(a: seq<T>, y: T, x: T, b: seq<T>, c: seq<T>, d: seq<T>)
    ensures (a + [y] + b + c + d)[|a| := x] == a + [x] + b + c + d
  {
  }

  lemma Cut<T>(s: seq<T>, e: nat, r: nat)
    requires e <= r < |s|
    ensures s == s[..e] + [] + s[e..r] + [s[r]] + s[r+1..]
  {
  }

  lemma OpenedParts(s: seq<TagHeapNode>, e: nat, x: TagHeapNode, u: nat)
    requires e < |s|
    ensures var r := Evicted(s, e);
            var A, B, C, y := History(s[..e], u), History(s[e..r], u), History(s[r+1..], u), Own(s[r], u);
            && History(Opened(s, e)[e := x], u) == A + Own(x, u) + B + C + y
            && History(s, u) == A + [] + B + y + C
  {
    var r := Evicted(s, e);
    var A, B, C, y := s[..e], s[e..r], s[r+1..], [s[r]];
    assert Opened(s, e) == A + [s[e]] + B + C + y;
    hide Opened, Evicted, History;
    UpdatedPart(A, s[e], x, B, C, y);
    Cut(s, e, r);
    HistoryOne(x, u);
    HistoryOne(s[r], u);
    HistoryConcat5(A, [x], B, C, y, u);
    HistoryConcat5(A, [], B, y, C, u);
  }

  /** Opening a gap loses no entry and keeps every history, tag by tag. */
  lemma OpenedHistory(s: seq<TagHeapNode>, e: nat, x: TagHeapNode, u: nat)
    requires WellFormed(s, u) && e < |s|
    requires x.tagId == u ==> forall i :: e <= i < |s| ==> s[i].tagId != u
    ensures History(Opened(s, e)[e := x], u) == History(s, u) + Own(x, u)
  {
    hide Opened, History;
    var r := Evicted(s, e);
    OpenedParts(s, e, x, u);
    if x.tagId == u {
      HistoryAbsent(s[e..r], u);
      HistoryAbsent(s[r+1..], u);
    } else if s[r].tagId == u {
      HistoryAbsent(s[r+1..], u);
    }
  }

  /** The new entry x goes behind entries of its own tag; its tag does not come again. */
  ghost predicate Behind(s: seq<TagHeapNode>, e: nat, x: TagHeapNode, u: nat) {
    && 0 < e < |s| && s[e-1].tagId == x.tagId
    && (x.tagId == u ==> !Simple(x) && !Simple(s[e-1]) && forall i :: e <= i < |s| ==> s[i].tagId != u)
  }

  /** Opening a gap at the end of the run of x's tag keeps every run. */
  lemma OpenedWellFormed(s: seq<TagHeapNode>, e: nat, x: TagHeapNode, u: nat)
    requires WellFormed(s, u) && Behind(s, e, x, u)
    ensures WellFormed(Opened(s, e)[e := x], u)
  {
    hide Opened, Grouped, SimpleAlone, Comes;
    var o := Opened(s, e)[e := x];
    OpenedComes(s, e, x);
    OpenedAlone(s, e, x, o, u);
    OpenedGrouped(s, e, x, o, u);
  }

  /** Where the entry at position k comes from; the new entry counts as the one before the gap. */
  function Source(s: seq<TagHeapNode>, e: nat, k: nat): nat
    requires 0 < e < |s| && k <= |s|
  {
    var r := Evicted(s, e);
    if k < e then k else if k <= r then k - 1 else if k < |s| then k else r
  }

  /** Every entry but the new one has come from somewhere. */
  ghost predicate Comes(s: seq<TagHeapNode>, e: nat, x: TagHeapNode, o: seq<TagHeapNode>)
    requires 0 < e < |s|
  {
    |o| == |s| + 1 && o[e] == x && forall k :: 0 <= k < |o| && k != e ==> o[k] == s[Source(s, e, k)]
  }

  lemma OpenedComes(s: seq<TagHeapNode>, e: nat, x: TagHeapNode)
    requires 0 < e < |s|
    ensures Comes(s, e, x, Opened(s, e)[e := x])
  {
  }

  /** Different entries come from different places, the new one aside. */
  lemma SourceApart(s: seq<TagHeapNode>, e: nat, i: nat, j: nat)
    requires 0 < e < |s| && i < j <= |s|
    ensures Source(s, e, i) < |s| && Source(s, e, j) < |s|
    ensures i != e && j != e ==> Source(s, e, i) != Source(s, e, j)
    ensures j < |s| ==> Source(s, e, i) <= Source(s, e, j) && Source(s, e, i) != Evicted(s, e)
    ensures j == |s| ==> Source(s, e, j) == Evicted(s, e) && Source(s, e, i) != Evicted(s, e)
    ensures Source(s, e, e) == e - 1 && (i < e ==> Source(s, e, i) < e) && (i > e ==> Source(s, e, i) >= e)
  {
    hide Evicted;
  }

  lemma OpenedAlone(s: seq<TagHeapNode>, e: nat, x: TagHeapNode, o: seq<TagHeapNode>, u: nat)
    requires WellFormed(s, u) && Behind(s, e, x, u) && Comes(s, e, x, o)
    ensures SimpleAlone(o, u)
  {
    hide Behind, Comes;
    forall i, j | 0 <= i < |o| && 0 <= j < |o| && i != j && o[i].tagId == u && o[j].tagId == u
      ensures !Simple(o[i])
    {
      if i < j {
        AlonePair(s, e, x, o, u, i, j);
      } else {
        AlonePair(s, e, x, o, u, j, i);
      }
    }
  }

  lemma AlonePair(s: seq<TagHeapNode>, e: nat, x: TagHeapNode, o: seq<TagHeapNode>, u: nat, i: nat, j: nat)
    requires SimpleAlone(s, u) && Behind(s, e, x, u) && Comes(s, e, x, o)
    requires i < j < |o| && o[i].tagId == u && o[j].tagId == u
    ensures !Simple(o[i]) && !Simple(o[j])
  {
    hide Source, Evicted, Simple;
    SourceApart(s, e, i, j);
    if i != e && j != e {
      assert o[i] == s[Source(s, e, i)] && o[j] == s[Source(s, e, j)];
    } else {
      var k := if i == e then j else i;
      if k < |s| {
        SourceApart(s, e, k, |s|);
      }
      assert o[k] == s[Source(s, e, k)];
    }
  }

  lemma OpenedGrouped(s: seq<TagHeapNode>, e: nat, x: TagHeapNode, o: seq<TagHeapNode>, u: nat)
    requires WellFormed(s, u) && 0 < e < |s| && Comes(s, e, x, o) && s[e-1].tagId == x.tagId
    ensures Grouped(o, u)
  {
    hide SimpleAlone, Comes;
    forall i, j, k | 0 <= i < j < k < |o| && o[i].tagId == u && o[k].tagId == u
      ensures o[j].tagId == u
    {
      GroupedTriple(s, e, x, o, u, i, j, k);
    }
  }

  /** A simple entry that was moved to the end is the only one of its tag; all others keep their order. */
  lemma GroupedTriple(s: seq<TagHeapNode>, e: nat, x: TagHeapNode, o: seq<TagHeapNode>, u: nat, i: nat, j: nat, k: nat)
    requires WellFormed(s, u) && 0 < e < |s| && Comes(s, e, x, o) && s[e-1].tagId == x.tagId
    requires i < j < k < |o| && o[i].tagId == u && o[k].tagId == u
    ensures o[j].tagId == u
  {
    hide Source, Evicted;
    var a, b, c, r := Source(s, e, i), Source(s, e, j), Source(s, e, k), Evicted(s, e);
    SourceApart(s, e, i, j);
    SourceApart(s, e, i, k);
    SourceApart(s, e, j, k);
    assert o[i].tagId == s[a].tagId && o[j].tagId == s[b].tagId && o[k].tagId == s[c].tagId;
    assert k == |s| ==> c == r && a != r && b != r;
    assert r == |s| - 1 || Simple(s[r]) by { EvictedIs(s, e); }
  }

  lemma EvictedIs(s: seq<TagHeapNode>, p: nat)
    requires p < |s|
    ensures p <= Evicted(s, p) < |s| && (Evicted(s, p) == |s| - 1 || Simple(s[Evicted(s, p)]))
  {
  }

  lemma AppendedWellFormed(s: seq<TagHeapNode>, x: TagHeapNode)
    requires WellFormed(s, x.tagId) && s != []
    requires s[|s|-1].tagId == x.tagId && !Simple(x) && !Simple(s[|s|-1])
    ensures WellFormed(s + [x], x.tagId)
  {
    var o, t := s + [x], x.tagId;
    var l := |s| - 1;
    assert forall i :: 0 <= i < l && s[i].tagId == t ==> !Simple(s[i]);
    forall i, j, k | 0 <= i < j < k < |o| && o[i].tagId == t && o[k].tagId == t
      ensures o[j].tagId == t
    {
      if k == |s| && j < l {
        assert s[l].tagId == t && s[i].tagId == t;
      }
    }
  }

  /** An entry at the end changes no run of another tag, and starts one of its own. */
  lemma FreshWellFormed(s: seq<TagHeapNode>, x: TagHeapNode, u: nat)
    requires WellFormed(s, u) && (x.tagId == u ==> Absent(s, u))
    ensures WellFormed(s + [x], u)
  {
  }

  /** The run of t once its first entry is flagged. */
  lemma FlaggedRun(s: seq<TagHeapNode>, t: nat, u: nat)
    requires WellFormed(s, u) && FirstOf(s, t) < |s|
    ensures var p := FirstOf(s, t);
            var m := s[p := s[p].(isMutable := true)];
            var e := RunEnd(m, t, p);
            && WellFormed(m, u) && p < e && m[e-1].tagId == t
            && (u == t ==>
                  && !Simple(m[e-1]) && FirstOf(m, t) == p
                  && forall i :: 0 <= i < |m| ==> (m[i].tagId == t <==> p <= i < e))
  {
    var p := FirstOf(s, t);
    var m := s[p := s[p].(isMutable := true)];
    GroupedFlag(s, p, u);
    if u == t {
      FlagFirst(s, t);
      RunIsAll(m, t);
    }
    assert m[p].tagId == t;
  }

  /** Tag u fits a slot, and the bits of t are not taken for it. */
  predicate NoClash(t: nat, u: nat) {
    u < 0x1000 && (TagBits(t) == u ==> t == u)
  }

  /** Adding a value keeps every run of a tag whose bits it does not share. */
  lemma WithTagWellFormed(s: seq<TagHeapNode>, t: nat, v: nat, c: nat, compress: bool, u: nat)
    requires BitsOnly(s) && WellFormed(s, u) && NoClash(t, u)
    ensures WellFormed(WithTag(s, t, v, c, compress), u)
  {
    hide WellFormed, FirstOf, RunEnd, Opened;
    var p := FirstOf(s, t);
    if p == |s| {
      FreshWellFormed(s, TagHeapNode(TagBits(t), v, false, false, c), u);
    } else {
      FlaggedRun(s, t, u);
      assert s[p].tagId == t == TagBits(t);
      var m := s[p := s[p].(isMutable := true)];
      var e := RunEnd(m, t, p);
      if compress && m[e-1].value == v {
      } else if e == |m| {
        if u == t {
          AppendedWellFormed(m, TagHeapNode(t, v, true, false, c));
        } else {
          FreshWellFormed(m, TagHeapNode(t, v, true, false, c), u);
        }
      } else {
        OpenedWellFormed(m, e, TagHeapNode(t, v, true, false, c), u);
      }
    }
  }

  lemma FlagFirst(s: seq<TagHeapNode>, t: nat)
    requires FirstOf(s, t) < |s|
    ensures var p := FirstOf(s, t);
            FirstOf(s[p := s[p].(isMutable := true)], t) == p
  {
    var p := FirstOf(s, t);
    var m := s[p := s[p].(isMutable := true)];
    assert forall i :: 0 <= i < |s| ==> m[i].tagId == s[i].tagId;
    assert m[p].tagId == t;
  }

  /** Flagging the first entry of a run changes no history, and the last entry of
      the run is the last value of the history. */
  lemma FlaggedHistory(s: seq<TagHeapNode>, t: nat, u: nat)
    requires WellFormed(s, u) && FirstOf(s, t) < |s|
    ensures var p := FirstOf(s, t);
            var m := s[p := s[p].(isMutable := true)];
            var e := RunEnd(m, t, p);
            var h := History(s, t);
            && History(m, u) == History(s, u) && 0 < e
            && (u == t ==> h != [] && h[|h|-1].value == m[e-1].value)
  {
    var p := FirstOf(s, t);
    HistoryFlag(s, p, u);
    FlaggedRun(s, t, u);
    if u == t {
      LastOfRun(s[p := s[p].(isMutable := true)], t);
    }
  }

  lemma GapHistory(s: seq<TagHeapNode>, t: nat, x: TagHeapNode, u: nat)
    requires WellFormed(s, u) && FirstOf(s, t) < |s| && x.tagId == t
    ensures var p := FirstOf(s, t);
            var m := s[p := s[p].(isMutable := true)];
            var e := RunEnd(m, t, p);
            e < |m| ==> History(Opened(m, e)[e := x], u) == History(m, u) + Own(x, u)
  {
    var p := FirstOf(s, t);
    var m := s[p := s[p].(isMutable := true)];
    FlaggedRun(s, t, u);
    var e := RunEnd(m, t, p);
    if e < |m| {
      OpenedHistory(m, e, x, u);
    }
  }

  /** Adding a value extends the history of its tag and leaves every history alone that does not
      share its bits. */
  lemma WithTagHistory(s: seq<TagHeapNode>, t: nat, v: nat, c: nat, compress: bool, u: nat)
    requires BitsOnly(s) && WellFormed(s, u) && NoClash(t, u)
    ensures History(WithTag(s, t, v, c, compress), u)
         == if u == t then Extended(History(s, t), Stamp(c, v), compress) else History(s, u)
  {
    hide WellFormed, FirstOf, RunEnd, Opened, History;
    var p := FirstOf(s, t);
    if p == |s| {
      var simple := TagHeapNode(TagBits(t), v, false, false, c);
      HistoryConcat(s, [simple], u);
      HistoryAbsent(s, t);
      HistoryOne(simple, u);
    } else {
      assert s[p].tagId == t == TagBits(t);
      var node := TagHeapNode(t, v, true, false, c);
      var m := s[p := s[p].(isMutable := true)];
      FlaggedHistory(s, t, u);
      GapHistory(s, t, node, u);
      HistoryConcat(m, [node], u);
      HistoryOne(node, u);
    }
  }

  /** Whatever is added, slots keep 12 bits of tag ids. */
  lemma WithTagBits(s: seq<TagHeapNode>, t: nat, v: nat, c: nat, compress: bool)
    requires BitsOnly(s)
    ensures BitsOnly(WithTag(s, t, v, c, compress))
  {
  }

  /** A tag id that has more bits is never found. */
  lemma WideTag(s: seq<TagHeapNode>, t: nat, c: nat, back: bool)
    requires BitsOnly(s) && t >= 0x1000
    ensures Answer(s, t, c, back) == None
  {
    assert FirstOf(s, t) == |s|;
  }

  /** The last value of the history of t is the last entry of its run. */
  lemma LastOfRun(s: seq<TagHeapNode>, t: nat)
    requires Grouped(s, t) && FirstOf(s, t) < |s|
    ensures var e := RunEnd(s, t, FirstOf(s, t)); var h := History(s, t);
            e > 0 && h != [] && h[|h|-1] == Stamp(s[e-1].cycle, s[e-1].value)
  {
    RunIsAll(s, t);
    var e := RunEnd(s, t, FirstOf(s, t));
    assert s == s[..e-1] + [s[e-1]] + s[e..];
    HistoryConcat3(s[..e-1], [s[e-1]], s[e..], t);
    HistoryOne(s[e-1], t);
    HistoryAbsent(s[e..], t);
  }

  // ---------------------------------------------------------------- looking a value up

  /** Walks from p to the last entry of the run that was set at or before c. */
  function LastReached(s: seq<TagHeapNode>, t: nat, c: nat, p: nat): (q: nat)
    requires p < |s| && s[p].tagId == t && s[p].cycle <= c
    ensures p <= q < |s|
    decreases |s| - p
  {
    if p + 1 < |s| && s[p+1].tagId == t && s[p+1].cycle <= c then LastReached(s, t, c, p + 1) else p
  }

  /** What the heap answers for tag t at (relative) cycle c. */
  function Answer(s: seq<TagHeapNode>, t: nat, c: nat, back: bool): Option<Stamp> {
    var p := FirstOf(s, t);
    if p == |s| then None
    else if !s[p].isMutable || s[p].cycle > c then
      if s[p].cycle <= c || back then Some(Stamp(s[p].cycle, s[p].value)) else None
    else
      var q := LastReached(s, t, c, p);
      Some(Stamp(s[q].cycle, s[q].value))
  }

  ghost predicate Chronological(h: seq<Stamp>) {
    forall i, j :: 0 <= i < j < |h| ==> h[i].cycle <= h[j].cycle
  }

  /** The meaning of a lookup: the latest value set at or before c; when there is none,
      the first value if values propagate backwards and nothing otherwise. */
  ghost predicate IsValueAt(h: seq<Stamp>, c: nat, back: bool, r: Option<Stamp>) {
    if h == [] then r == None
    else if c < h[0].cycle then r == (if back then Some(h[0]) else None)
    else exists i :: 0 <= i < |h| && IsLatest(h, c, i) && r == Some(h[i])
  }

  ghost predicate IsLatest(h: seq<Stamp>, c: nat, i: nat)
    requires i < |h|
  {
    h[i].cycle <= c && forall j :: i < j < |h| ==> c < h[j].cycle
  }

  /** The values carried by consecutive entries. */
  function Stamps(s: seq<TagHeapNode>): (h: seq<Stamp>)
    ensures |h| == |s|
    ensures forall i :: 0 <= i < |s| ==> h[i] == Stamp(s[i].cycle, s[i].value)
  {
    seq(|s|, i requires 0 <= i < |s| => Stamp(s[i].cycle, s[i].value))
  }

  lemma {:induction false} HistoryOfRun(s: seq<TagHeapNode>, t: nat)
    requires forall i :: 0 <= i < |s| ==> s[i].tagId == t
    ensures History(s, t) == Stamps(s)
  {
    if s != [] {
      HistoryOfRun(s[1..], t);
      assert Stamps(s) == [Stamp(s[0].cycle, s[0].value)] + Stamps(s[1..]);
    }
  }

  /** The entries of the run of t are its history. */
  lemma RunHistory(s: seq<TagHeapNode>, t: nat)
    requires Grouped(s, t)
    ensures var p := FirstOf(s, t); History(s, t) == Stamps(s[p..RunEnd(s, t, p)])
  {
    hide *;
    var p := FirstOf(s, t);
    var e := RunEnd(s, t, p);
    RunIsAll(s, t);
    assert s == s[..p] + s[p..e] + s[e..];
    HistoryAbsent(s[..p], t);
    HistoryAbsent(s[e..], t);
    HistoryOfRun(s[p..e], t);
    HistoryConcat3(s[..p], s[p..e], s[e..], t);
  }

  lemma {:induction false} ReachedIsLatest(s: seq<TagHeapNode>, t: nat, c: nat, p: nat)
    requires p < |s| && s[p].tagId == t && s[p].cycle <= c
    ensures var q := LastReached(s, t, c, p);
            s[q].cycle <= c && q < RunEnd(s, t, p) &&
            (q + 1 < RunEnd(s, t, p) ==> s[q+1].cycle > c)
    decreases |s| - p
  {
    if p + 1 < |s| && s[p+1].tagId == t && s[p+1].cycle <= c {
      ReachedIsLatest(s, t, c, p + 1);
    }
  }

  lemma ReachedValue(s: seq<TagHeapNode>, t: nat, c: nat)
    requires Grouped(s, t) && FirstOf(s, t) < |s| && s[FirstOf(s, t)].cycle <= c
    requires Chronological(History(s, t))
    ensures var p := FirstOf(s, t);
            var q := LastReached(s, t, c, p);
            var h := History(s, t);
            q - p < |h| && IsLatest(h, c, q - p) && h[q - p] == Stamp(s[q].cycle, s[q].value)
  {
    hide Grouped, History, Stamps, Chronological, IsLatest, LastReached, RunEnd;
    var p, h := FirstOf(s, t), History(s, t);
    var e := RunEnd(s, t, p);
    RunHistory(s, t);
    ReachedIsLatest(s, t, c, p);
    var q := LastReached(s, t, c, p);
    StampAt(s, p, e, q);
    if q + 1 < e {
      StampAt(s, p, e, q + 1);
    }
    LatestHere(h, c, q - p);
  }

  lemma StampAt(s: seq<TagHeapNode>, p: nat, e: nat, q: nat)
    requires p <= q < e <= |s|
    ensures Stamps(s[p..e])[q - p] == Stamp(s[q].cycle, s[q].value)
  {
    assert s[p..e][q - p] == s[q];
  }

  lemma LatestHere(h: seq<Stamp>, c: nat, i: nat)
    requires Chronological(h) && i < |h| && h[i].cycle <= c && (i + 1 < |h| ==> c < h[i+1].cycle)
    ensures IsLatest(h, c, i)
  {
    assert forall j :: i < j < |h| ==> h[i+1].cycle <= h[j].cycle;
  }

  lemma LoneValue(s: seq<TagHeapNode>, t: nat)
    requires WellFormed(s, t) && FirstOf(s, t) < |s| && Simple(s[FirstOf(s, t)])
    ensures var p := FirstOf(s, t); History(s, t) == [Stamp(s[p].cycle, s[p].value)]
  {
    var p := FirstOf(s, t);
    assert s == s[..p] + [s[p]] + s[p+1..];
    HistoryConcat3(s[..p], [s[p]], s[p+1..], t);
    HistoryAbsent(s[..p], t);
    HistoryAbsent(s[p+1..], t);
    HistoryOne(s[p], t);
  }

  /** The heap's answer is the latest value of the history at or before the cycle. */
  lemma AnswerIsLatest(s: seq<TagHeapNode>, t: nat, c: nat, back: bool)
    requires WellFormed(s, t) && Chronological(History(s, t))
    requires forall i :: 0 <= i < |s| && s[i].tagId == t ==> !s[i].isSOV
    ensures IsValueAt(History(s, t), c, back, Answer(s, t, c, back))
  {
    var p, h := FirstOf(s, t), History(s, t);
    if p == |s| {
      HistoryAbsent(s, t);
    } else if Simple(s[p]) {
      LoneValue(s, t);
      assert s[p].cycle <= c ==> IsLatest(h, c, 0);
    } else {
      assert s[p].isMutable;
      RunHistory(s, t);
      RunIsAll(s, t);
      if s[p].cycle <= c {
        ReachedValue(s, t, c);
      }
    }
  }

  lemma {:induction false} SetKeeps(s: seq<TagHeapNode>, t: nat, list: seq<nat>, c: nat)
    ensures s <= WithSet(s, t, list, c)
    decreases |list|
  {
    if list != [] {
      SetKeeps(s + [TagHeapNode(TagBits(t), list[0], false, true, c)], t, list[1..], c);
    }
  }

  /** A set that was added is found from its cycle on, by its first value; before, only when values
      propagate backwards. */
  lemma SetAnswer(s: seq<TagHeapNode>, t: nat, list: seq<nat>, c: nat, q: nat, back: bool)
    requires Absent(s, t) && t < 0x1000 && list != []
    ensures Answer(WithSet(s, t, list, c), t, q, back) == if c <= q || back then Some(Stamp(c, list[0])) else None
  {
    var x := TagHeapNode(TagBits(t), list[0], false, true, c);
    var r := WithSet(s, t, list, c);
    SetKeeps(s + [x], t, list[1..], c);
    assert forall i :: 0 <= i < |s| ==> r[i] == (s + [x])[i] == s[i];
    assert r[|s|] == (s + [x])[|s|] == x;
    assert FirstOf(r, t) == |s|;
  }

  // ---------------------------------------------------------------- the latest value

  /** The latest stamp at or before c, from the back. */
  function Latest(h: seq<Stamp>, c: nat): Option<Stamp> {
    if h == [] then None else if h[|h|-1].cycle <= c then Some(h[|h|-1]) else Latest(h[..|h|-1], c)
  }

  lemma {:induction false} LatestIs(h: seq<Stamp>, c: nat)
    ensures Latest(h, c) == None <==> forall i :: 0 <= i < |h| ==> c < h[i].cycle
    ensures forall i :: 0 <= i < |h| && IsLatest(h, c, i) ==> Latest(h, c) == Some(h[i])
    ensures Latest(h, c).Some? ==> exists i :: 0 <= i < |h| && IsLatest(h, c, i)
  {
    if h == [] {
    } else if h[|h|-1].cycle <= c {
      assert IsLatest(h, c, |h| - 1);
    } else {
      var g := h[..|h|-1];
      LatestIs(g, c);
      forall i | 0 <= i < |g|
        ensures IsLatest(g, c, i) <==> IsLatest(h, c, i)
      {
        LatestOfPrefix(g, h[|h|-1], c, i);
        assert h == g + [h[|h|-1]];
      }
    }
  }

  lemma LatestOfPrefix(g: seq<Stamp>, x: Stamp, c: nat, i: nat)
    requires i < |g| && c < x.cycle
    ensures IsLatest(g, c, i) <==> IsLatest(g + [x], c, i)
  {
    var h := g + [x];
    assert forall j :: 0 <= j < |g| ==> g[j] == h[j];
    assert forall j :: 0 <= j < |g| ==> h[j] == g[j];
  }

  // ---------------------------------------------------------------- dropping repeated values

  /** The history after the values of xs are added one by one. */
  function Folded(h: seq<Stamp>, xs: seq<Stamp>, compress: bool): seq<Stamp>
    decreases |xs|
  {
    if xs == [] then h else Folded(Extended(h, xs[0], compress), xs[1..], compress)
  }

  lemma {:induction false} FoldedOne(h: seq<Stamp>, xs: seq<Stamp>, x: Stamp, compress: bool)
    ensures Folded(h, xs + [x], compress) == Extended(Folded(h, xs, compress), x, compress)
    decreases |xs|
  {
    if xs == [] {
      assert [] + [x] == [x] && [x][1..] == [];
    } else {
      FoldedOne(Extended(h, xs[0], compress), xs[1..], x, compress);
      assert (xs + [x])[1..] == xs[1..] + [x];
    }
  }

  /** Two histories that cannot be told apart by any lookup of a value. */
  ghost predicate SameValues(g: seq<Stamp>, h: seq<Stamp>) {
    && (g == [] <==> h == [])
    && (g != [] ==> g[0] == h[0] && g[|g|-1].value == h[|h|-1].value && g[|g|-1].cycle <= h[|h|-1].cycle)
    && forall c: nat, i, j :: 0 <= i < |g| && 0 <= j < |h| && IsLatest(g, c, i) && IsLatest(h, c, j)
         ==> g[i].value == h[j].value
  }

  lemma LatestOfAppended(h: seq<Stamp>, x: Stamp, c: nat, i: nat)
    requires i <= |h| && IsLatest(h + [x], c, i)
    ensures if x.cycle <= c then i == |h| else i < |h| && IsLatest(h, c, i)
  {
    assert (h + [x])[|h|] == x;
    if x.cycle > c {
      assert i < |h|;
      forall j | i < j < |h| ensures c < h[j].cycle { assert (h + [x])[j] == h[j]; }
    }
  }

  lemma ExtendedSame(g: seq<Stamp>, h: seq<Stamp>, x: Stamp)
    requires SameValues(g, h) && Chronological(g) && Chronological(h)
    requires h != [] ==> h[|h|-1].cycle <= x.cycle
    ensures var g', h' := Extended(g, x, true), Extended(h, x, false);
            SameValues(g', h') && Chronological(g') && Chronological(h')
  {
    var g', h' := Extended(g, x, true), Extended(h, x, false);
    assert h' == h + [x];
    forall c: nat, i, j | 0 <= i < |g'| && 0 <= j < |h'| && IsLatest(g', c, i) && IsLatest(h', c, j)
      ensures g'[i].value == h'[j].value
    {
      LatestOfAppended(h, x, c, j);
      if g' == g {
        if x.cycle <= c {
        }
      } else {
        LatestOfAppended(g, x, c, i);
      }
    }
  }

  lemma {:induction false} FoldedSame(g: seq<Stamp>, h: seq<Stamp>, xs: seq<Stamp>)
    requires SameValues(g, h) && Chronological(g) && Chronological(h + xs)
    ensures SameValues(Folded(g, xs, true), Folded(h, xs, false))
    ensures Chronological(Folded(g, xs, true))
    ensures Folded(h, xs, false) == h + xs
    decreases |xs|
  {
    assert forall i :: 0 <= i < |h| ==> h[i] == (h + xs)[i];
    if xs != [] {
      assert (h + xs)[|h|] == xs[0];
      ExtendedSame(g, h, xs[0]);
      assert (h + [xs[0]]) + xs[1..] == h + xs;
      FoldedSame(Extended(g, xs[0], true), h + [xs[0]], xs[1..]);
    } else {
      assert h + xs == h;
    }
  }

  /** Dropping repeated values is invisible: whatever values are added, in cycle order,
      every lookup finds the same value with and without compression. */
  lemma CompressionInvisible(xs: seq<Stamp>, c: nat, back: bool, r: Option<Stamp>, r': Option<Stamp>)
    requires Chronological(xs)
    requires IsValueAt(Folded([], xs, false), c, back, r)
    requires IsValueAt(Folded([], xs, true), c, back, r')
    ensures ValueOf(r) == ValueOf(r')
  {
    assert [] + xs == xs;
    FoldedSame([], [], xs);
  }

  /** The value part of an answer. */
  function ValueOf(r: Option<Stamp>): Option<nat> {
    match r case None => None case Some(x) => Some(x.value)
  }
}
