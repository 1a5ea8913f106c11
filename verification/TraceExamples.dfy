/** Traces on which lookups of moves fail: positions that wrap around, a cycle number that comes
    again, and a chunk that is missing. */
module TraceExamples {
  import opened TagHistory
  import opened DBGraphs
  import opened TagIdVecs
  import opened MoveLogs
  import opened MoveLedgers
  import opened ListenerBooks
  import opened TraceEvents
  import opened TraceMoves

  /** Items 7 and 8 are created in cycle 0. */
  function TwoItems(): seq<Event> { [CycleEvent(0)] + [NewItemEvent(7)] + [NewItemEvent(8)] }

  /** 256 moves of item 7 in one cycle, and then one of item 8. */
  function Crowded(edge: nat): seq<Event> {
    TwoItems() + [MoveItemsEvent(edge, seq(256, _ => 7) + [8])] + [DeleteItemEvent(7)] + [DeleteItemEvent(8)]
  }

  /** A move of item 7, the same cycle again, and a move of item 8. */
  function Again(edge: nat): seq<Event> {
    TwoItems() + [MoveItemsEvent(edge, [7])] + [CycleEvent(0)] + [MoveItemsEvent(edge, [8])]
    + [DeleteItemEvent(7)] + [DeleteItemEvent(8)]
  }

  /** Moves of item 7 that are two chunks apart. */
  function Sparse(edge: nat): seq<Event> {
    TwoItems() + [MoveItemsEvent(edge, [7])] + [CycleEvent(8192)] + [MoveItemsEvent(edge, [7])] + [DeleteItemEvent(7)]
  }

  // ---------------------------------------------------------------- going through a trace

  /** What is known of a trace in which only items 7 and 8 occur, and one edge. */
  datatype Facts = Facts(cycle: int, first: int, seven: Status, eight: Status, counter: nat,
                         moves7: seq<Move>, moves8: seq<Move>)

  ghost predicate Is(events: seq<Event>, edge: nat, bw: nat, canonical: nat, f: Facts) {
    && CycleAfter(events) == f.cycle && Started(events) && FirstAfter(events) == f.first
    && StatusAfter(events, 7) == f.seven && StatusAfter(events, 8) == f.eight
    && (forall id :: id != 7 && id != 8 ==> StatusAfter(events, id) == Unknown)
    && CounterAfter(events, edge, map[edge := bw]) == f.counter
    && MovesIn(events, 7, map[edge := bw]) == f.moves7 && MovesIn(events, 8, map[edge := bw]) == f.moves8
    && Regular(events, canonical, map[edge := bw])
  }

  lemma StepCycle(events: seq<Event>, n: nat, edge: nat, bw: nat, canonical: nat, f: Facts)
    requires Is(events, edge, bw, canonical, f) && f.cycle <= n < 0x8000_0000
    ensures Is(events + [CycleEvent(n)], edge, bw, canonical, f.(cycle := n, counter := 0))
  {
    hide CycleAfter, Started, FirstAfter, StatusAfter, CounterAfter, MovesIn, Regular;
    var e, wide := CycleEvent(n), map[edge := bw];
    SignedSmall(n);
    CycleStep(events, e);
    forall id
      ensures StatusAfter(events + [e], id) == StatusAfter(events, id)
    {
      StatusStep(events, e, id);
    }
    CounterStep(events, e, edge, wide);
    MovesStep(events, e, 7, wide);
    MovesStep(events, e, 8, wide);
    RegularStep(events, e, canonical, wide);
  }

  /** Items 7 and 8 are created and deleted. */
  lemma StepItem(events: seq<Event>, e: Event, edge: nat, bw: nat, canonical: nat, f: Facts)
    requires Is(events, edge, bw, canonical, f)
    requires || (e == NewItemEvent(7) && f.seven == Unknown) || (e == NewItemEvent(8) && f.eight == Unknown)
             || (e == DeleteItemEvent(7) && f.seven == Live) || (e == DeleteItemEvent(8) && f.eight == Live)
    ensures Is(events + [e], edge, bw, canonical,
               f.(seven := if e.id != 7 then f.seven else if e.NewItemEvent? then Live else Gone,
                  eight := if e.id != 8 then f.eight else if e.NewItemEvent? then Live else Gone))
  {
    hide CycleAfter, Started, FirstAfter, StatusAfter, CounterAfter, MovesIn, Regular;
    var wide := map[edge := bw];
    CycleStep(events, e);
    StatusStep(events, e, 7);
    StatusStep(events, e, 8);
    forall id | id != 7 && id != 8
      ensures StatusAfter(events + [e], id) == Unknown
    {
      StatusStep(events, e, id);
    }
    CounterStep(events, e, edge, wide);
    MovesStep(events, e, 7, wide);
    MovesStep(events, e, 8, wide);
    RegularStep(events, e, canonical, wide);
  }

  lemma StepMoves(events: seq<Event>, ids: seq<int>, edge: nat, bw: nat, canonical: nat, f: Facts)
    requires Is(events, edge, bw, canonical, f) && f.cycle < f.first + 0x10_0000
    ensures Is(events + [MoveItemsEvent(edge, ids)], edge, bw, canonical,
               f.(counter := CountPlaced(events, ids, f.counter, bw),
                  moves7 := f.moves7 + MovesPlaced(events, ids, 7, edge, bw, f.counter),
                  moves8 := f.moves8 + MovesPlaced(events, ids, 8, edge, bw, f.counter)))
  {
    hide CycleAfter, Started, FirstAfter, StatusAfter, CounterAfter, MovesIn, Regular, CountPlaced, MovesPlaced;
    var e, wide := MoveItemsEvent(edge, ids), map[edge := bw];
    CycleStep(events, e);
    forall id
      ensures StatusAfter(events + [e], id) == StatusAfter(events, id)
    {
      StatusStep(events, e, id);
    }
    CounterStep(events, e, edge, wide);
    MovesStep(events, e, 7, wide);
    MovesStep(events, e, 8, wide);
    RegularStep(events, e, canonical, wide);
  }

  /** One live item moves. */
  lemma OnePlaced(events: seq<Event>, id: int, other: int, edge: nat, bw: nat, p: nat)
    requires StatusAfter(events, id) == Live && p < bw && other != id
    ensures CountPlaced(events, [id], p, bw) == NextPos(p)
    ensures MovesPlaced(events, [id], id, edge, bw, p) == [Move(CycleAfter(events), edge, p)]
    ensures MovesPlaced(events, [id], other, edge, bw, p) == []
  {
    assert [id][..0] == [] && CountPlaced(events, [], p, bw) == p;
  }

  lemma Beginning(edge: nat, bw: nat, canonical: nat)
    ensures Is(TwoItems(), edge, bw, canonical, Facts(0, 0, Live, Live, 0, [], []))
  {
    hide Is;
    Started0(edge, bw, canonical);
    StepItem([CycleEvent(0)], NewItemEvent(7), edge, bw, canonical, Facts(0, 0, Unknown, Unknown, 0, [], []));
    StepItem([CycleEvent(0)] + [NewItemEvent(7)], NewItemEvent(8), edge, bw, canonical,
             Facts(0, 0, Live, Unknown, 0, [], []));
  }

  lemma Started0(edge: nat, bw: nat, canonical: nat)
    ensures Is([CycleEvent(0)], edge, bw, canonical, Facts(0, 0, Unknown, Unknown, 0, [], []))
  {
    var none: seq<Event> := [];
    assert none + [CycleEvent(0)] == [CycleEvent(0)];
    SignedSmall(0);
    CycleStep(none, CycleEvent(0));
    RegularStep(none, CycleEvent(0), canonical, map[edge := bw]);
    forall id
      ensures StatusAfter([CycleEvent(0)], id) == Unknown
    {
      StatusStep(none, CycleEvent(0), id);
    }
  }

  // ---------------------------------------------------------------- positions that wrap around

  lemma {:induction false} ManyPlaced(events: seq<Event>, ids: seq<int>, edge: nat, bw: nat)
    requires StatusAfter(events, 7) == Live && bw >= 256 && forall i :: 0 <= i < |ids| ==> ids[i] == 7
    ensures CountPlaced(events, ids, 0, bw) == |ids| % 256
    ensures MovesPlaced(events, ids, 8, edge, bw, 0) == []
    ensures ids != [] ==> Move(CycleAfter(events), edge, 0) in MovesPlaced(events, ids, 7, edge, bw, 0)
  {
    hide StatusAfter, CycleAfter;
    if ids != [] {
      ManyPlaced(events, ids[..|ids|-1], edge, bw);
      NextNumber(|ids| - 1);
    }
  }

  /** On an edge wider than 255, two items get the same position in the same cycle. */
  lemma CrowdedMeets(edge: nat, bw: nat, canonical: nat)
    requires bw >= 256
    ensures Regular(Crowded(edge), canonical, map[edge := bw]) && Rising(Crowded(edge))
    ensures MadeIn(Crowded(edge), 7, Move(0, edge, 0), map[edge := bw])
    ensures MadeIn(Crowded(edge), 8, Move(0, edge, 0), map[edge := bw])
  {
    hide Is;
    var t, many := TwoItems(), seq(256, _ => 7);
    var ids := many + [8];
    Beginning(edge, bw, canonical);
    StepMoves(t, ids, edge, bw, canonical, Facts(0, 0, Live, Live, 0, [], []));
    CrowdedPlaced(t, edge, bw, canonical);
    var f := Facts(0, 0, Live, Live, CountPlaced(t, ids, 0, bw),
                   [] + MovesPlaced(t, ids, 7, edge, bw, 0), [] + MovesPlaced(t, ids, 8, edge, bw, 0));
    var u := t + [MoveItemsEvent(edge, ids)];
    StepItem(u, DeleteItemEvent(7), edge, bw, canonical, f);
    StepItem(u + [DeleteItemEvent(7)], DeleteItemEvent(8), edge, bw, canonical, f.(seven := Gone));
    IsFacts(Crowded(edge), edge, bw, canonical, f.(seven := Gone, eight := Gone));
    CrowdedRises(edge);
  }

  lemma CrowdedPlaced(t: seq<Event>, edge: nat, bw: nat, canonical: nat)
    requires Is(t, edge, bw, canonical, Facts(0, 0, Live, Live, 0, [], [])) && bw >= 256
    ensures Move(0, edge, 0) in MovesPlaced(t, seq(256, _ => 7) + [8], 7, edge, bw, 0)
    ensures Move(0, edge, 0) in MovesPlaced(t, seq(256, _ => 7) + [8], 8, edge, bw, 0)
  {
    var many := seq(256, _ => 7);
    assert (many + [8])[..256] == many && (many + [8])[256] == 8;
    ManyPlaced(t, many, edge, bw);
  }

  lemma IsFacts(events: seq<Event>, edge: nat, bw: nat, canonical: nat, f: Facts)
    requires Is(events, edge, bw, canonical, f)
    ensures StatusAfter(events, 7) == f.seven && StatusAfter(events, 8) == f.eight && FirstAfter(events) == f.first
    ensures MovesIn(events, 7, map[edge := bw]) == f.moves7 && MovesIn(events, 8, map[edge := bw]) == f.moves8
    ensures Regular(events, canonical, map[edge := bw])
    ensures forall id :: id != 7 && id != 8 ==> MovesIn(events, id, map[edge := bw]) == []
  {
    hide StatusAfter, FirstAfter, MovesIn, Regular;
    forall id | id != 7 && id != 8
      ensures MovesIn(events, id, map[edge := bw]) == []
    {
      UnknownIsUnmoved(events, id, map[edge := bw]);
    }
  }

  lemma {:induction false} OneCycleRises(events: seq<Event>)
    requires forall n :: 1 <= n < |events| ==> !events[n].CycleEvent?
    ensures Rising(events)
  {
    if |events| > 1 {
      OneCycleRises(events[..|events|-1]);
    }
  }

  lemma CrowdedRises(edge: nat)
    ensures Rising(Crowded(edge))
  {
    OneCycleRises(Crowded(edge));
  }

  /** As long as cycles go up, moves over an edge never coincide if and only if the edge is not
      wider than 255: positions are counted in eight bits. */
  lemma PositionsDiffer(edge: nat, bw: nat, canonical: nat)
    ensures (forall events ::
               Regular(events, canonical, map[edge := bw]) && Rising(events) ==> Apart(events, map[edge := bw]))
       <==> bw <= 255
  {
    hide Regular, Rising, Apart, Crowded;
    if bw <= 255 {
      forall events | Regular(events, canonical, map[edge := bw]) && Rising(events)
        ensures Apart(events, map[edge := bw])
      {
        RisingApart(events, canonical, map[edge := bw]);
      }
    } else {
      CrowdedMeets(edge, bw, canonical);
      TwoMovers(Crowded(edge), 7, 8, Move(0, edge, 0), map[edge := bw]);
    }
  }

  // ---------------------------------------------------------------- a cycle that comes again

  /** A cycle number that comes again hands out positions again. */
  lemma AgainMeets(edge: nat, bw: nat, canonical: nat)
    requires bw > 0
    ensures Regular(Again(edge), canonical, map[edge := bw])
    ensures MadeIn(Again(edge), 7, Move(0, edge, 0), map[edge := bw])
    ensures MadeIn(Again(edge), 8, Move(0, edge, 0), map[edge := bw])
    ensures !Apart(Again(edge), map[edge := bw])
  {
    hide CountPlaced, MovesPlaced, StatusAfter, CycleAfter, Started, FirstAfter, CounterAfter, MovesIn, Regular, Apart;
    var t, m := TwoItems(), Move(0, edge, 0);
    var f := Facts(0, 0, Live, Live, 0, [], []);
    Beginning(edge, bw, canonical);
    StepMoves(t, [7], edge, bw, canonical, f);
    OnePlaced(t, 7, 8, edge, bw, 0);
    var u := t + [MoveItemsEvent(edge, [7])];
    StepCycle(u, 0, edge, bw, canonical, f.(counter := NextPos(0), moves7 := [m]));
    var v := u + [CycleEvent(0)];
    StepMoves(v, [8], edge, bw, canonical, f.(moves7 := [m]));
    OnePlaced(v, 8, 7, edge, bw, 0);
    var w, g := v + [MoveItemsEvent(edge, [8])], f.(counter := NextPos(0), moves7 := [m], moves8 := [m]);
    assert [m] + [] == [m];
    StepItem(w, DeleteItemEvent(7), edge, bw, canonical, g);
    StepItem(w + [DeleteItemEvent(7)], DeleteItemEvent(8), edge, bw, canonical, g.(seven := Gone));
    IsFacts(Again(edge), edge, bw, canonical, g.(seven := Gone, eight := Gone));
    TwoMovers(Again(edge), 7, 8, m, map[edge := bw]);
  }

  // ---------------------------------------------------------------- a missing chunk

  /** A lookup between two moves meets a missing chunk when nothing moved in it. */
  lemma SparseGap(edge: nat, bw: nat, canonical: nat)
    requires bw > 0
    ensures Regular(Sparse(edge), canonical, map[edge := bw])
    ensures !NoGapIn(Sparse(edge), Move(5000, edge, 0), map[edge := bw])
  {
    hide CountPlaced, MovesPlaced, StatusAfter, CycleAfter, Started, FirstAfter, CounterAfter, MovesIn, Regular;
    var t, m, d := TwoItems(), Move(0, edge, 0), Move(8192, edge, 0);
    var f := Facts(0, 0, Live, Live, 0, [], []);
    Beginning(edge, bw, canonical);
    StepMoves(t, [7], edge, bw, canonical, f);
    OnePlaced(t, 7, 8, edge, bw, 0);
    var u := t + [MoveItemsEvent(edge, [7])];
    StepCycle(u, 8192, edge, bw, canonical, f.(counter := NextPos(0), moves7 := [m]));
    var v := u + [CycleEvent(8192)];
    StepMoves(v, [7], edge, bw, canonical, f.(cycle := 8192, moves7 := [m]));
    OnePlaced(v, 7, 8, edge, bw, 0);
    var w, g := v + [MoveItemsEvent(edge, [7])], f.(cycle := 8192, counter := NextPos(0), moves7 := [m, d]);
    assert [m] + [d] == [m, d];
    StepItem(w, DeleteItemEvent(7), edge, bw, canonical, g);
    IsFacts(Sparse(edge), edge, bw, canonical, g.(seven := Gone));
    GapBetween(Sparse(edge), edge, map[edge := bw]);
  }

  lemma GapBetween(events: seq<Event>, edge: nat, wide: map<nat, nat>)
    requires StatusAfter(events, 7) == Gone && FirstAfter(events) == 0
    requires MovesIn(events, 7, wide) == [Move(0, edge, 0), Move(8192, edge, 0)]
    requires forall id :: id != 7 ==> MovesIn(events, id, wide) == []
    ensures !NoGapIn(events, Move(5000, edge, 0), wide)
  {
    hide StatusAfter, FirstAfter, MovesIn;
    var m, d := Move(0, edge, 0), Move(8192, edge, 0);
    assert m in MovesIn(events, 7, wide) && d in MovesIn(events, 7, wide);
    assert MadeIn(events, 7, m, wide) && MadeIn(events, 7, d, wide);
    assert SamePlace(Move(5000, edge, 0), m) && SamePlace(Move(5000, edge, 0), d);
    assert forall e :: MadeByAny(events, e, wide) ==> e == m || e == d;
  }

  // ---------------------------------------------------------------- a trace that is not read to its end

  /** A cycle is refused in the first batch; item 7 comes behind it. */
  function Broken(): seq<Event> {
    [CycleEvent(5)] + [CycleEvent(3)] + seq(4095, _ => SetTagEvent(0, 0, 0))
    + [NewItemEvent(7)] + [SetTagEvent(7, 0, 1)] + [DeleteItemEvent(7)]
  }

  /** The events of item 7 are never read, although every one of them is in order. */
  lemma BrokenStops(canonical: nat, wide: map<nat, nat>)
    requires canonical != 0
    ensures Regular(Broken(), canonical, wide) && StatusAfter(Broken(), 7) == Gone
    ensures BatchEnd(Broken(), 4097) && !OkAfter(Broken()[..4097], None) && !Unbroken(Broken())
    ensures StatusAfter(Broken()[..4097], 7) == Unknown
  {
    hide Regular, StatusAfter, OkAfter, BatchEnd, Started, CycleAfter, Removed;
    var t := [CycleEvent(5)] + [CycleEvent(3)] + seq(4095, _ => SetTagEvent(0, 0, 0));
    BrokenStart(t, canonical, wide);
    assert Broken()[..4097] == t;
    var a, b, c := NewItemEvent(7), SetTagEvent(7, 0, 1), DeleteItemEvent(7);
    var u, v := t + [a], t + [a] + [b];
    RegularStep(t, a, canonical, wide);
    RegularStep(u, b, canonical, wide);
    RegularStep(v, c, canonical, wide);
    StatusStep(t, a, 7);
    StatusStep(u, b, 7);
    StatusStep(v, c, 7);
    assert Broken() == v + [c];
    BrokenBatch();
  }

  lemma BrokenBatch()
    ensures BatchEnd(Broken(), 4097)
  {
    assert Broken()[0] == CycleEvent(5);
    assert HeaderLen(Broken()) == 1;
    assert |Broken()| == 4100;
  }

  lemma BrokenStart(t: seq<Event>, canonical: nat, wide: map<nat, nat>)
    requires t == [CycleEvent(5)] + [CycleEvent(3)] + seq(4095, _ => SetTagEvent(0, 0, 0)) && canonical != 0
    ensures Regular(t, canonical, wide) && Started(t) && StatusAfter(t, 7) == Unknown && !OkAfter(t, None)
  {
    var none: seq<Event> := [];
    var one := none + [CycleEvent(5)];
    SignedSmall(5);
    SignedSmall(3);
    CycleStep(none, CycleEvent(5));
    OkStep(none, CycleEvent(5), None);
    CountStep(none, CycleEvent(5));
    RegularStep(none, CycleEvent(5), canonical, wide);
    StatusStep(none, CycleEvent(5), 7);
    hide StatusAfter, OkAfter, Started, CycleAfter, Removed, Signed;
    CycleStep(one, CycleEvent(3));
    OkStep(one, CycleEvent(3), None);
    RegularStep(one, CycleEvent(3), canonical, wide);
    StatusStep(one, CycleEvent(3), 7);
    IdleMore(one + [CycleEvent(3)], seq(4095, _ => SetTagEvent(0, 0, 0)), canonical, wide);
    assert t == one + [CycleEvent(3)] + seq(4095, _ => SetTagEvent(0, 0, 0));
  }

  /** Sets on an item that is not there change nothing. */
  lemma {:induction false} IdleMore(t: seq<Event>, more: seq<Event>, canonical: nat, wide: map<nat, nat>)
    requires Regular(t, canonical, wide) && Started(t) && StatusAfter(t, 7) == Unknown && !OkAfter(t, None)
    requires canonical != 0 && forall k :: 0 <= k < |more| ==> more[k] == SetTagEvent(0, 0, 0)
    ensures Regular(t + more, canonical, wide) && Started(t + more) && StatusAfter(t + more, 7) == Unknown
    ensures !OkAfter(t + more, None)
  {
    if more == [] {
      assert t + more == t;
    } else {
      hide Regular, StatusAfter, OkAfter, Started, CycleAfter;
      var g, e := more[..|more|-1], SetTagEvent(0, 0, 0);
      IdleMore(t, g, canonical, wide);
      LastApart(t, more);
      RegularStep(t + g, e, canonical, wide);
      CycleStep(t + g, e);
      OkStep(t + g, e, None);
      StatusStep(t + g, e, 7);
    }
  }

  // ---------------------------------------------------------------- a tag id that does not fit

  /** Tag 4100 is set on item 7, which is then deleted. */
  function WideId(): seq<Event> {
    [CycleEvent(0)] + [NewItemEvent(7)] + [SetTagEvent(7, 4100, 1)] + [DeleteItemEvent(7)]
  }

  /** Tag 4100 should read 1 from the first cycle on, and is not found: its id has more than 12 bits. Tag 4
      should not be found, and no longer has its bits to itself. */
  lemma WideIdLost(canonical: nat, wide: map<nat, nat>)
    requires canonical != 4100
    ensures Regular(WideId(), canonical, wide) && StatusAfter(WideId(), 7) == Gone
    ensures ExpectedIn(WideId(), 7, 4100, 0, false) == Some(1) && ExpectedIn(WideId(), 7, 4, 0, false) == None
    ensures !OwnBits(WideId(), 7, 4100) && !OwnBits(WideId(), 7, 4)
  {
    hide StatusAfter, Started, CycleAfter, FirstAfter, Signed, LastSetIn, FirstCycleIn, LastCycleIn, Regular;
    var t, b, c, d := [CycleEvent(0)], NewItemEvent(7), SetTagEvent(7, 4100, 1), DeleteItemEvent(7);
    WideIdStart(canonical, wide);
    CycleStep(t, b);
    RegularStep(t, b, canonical, wide);
    StatusStep(t, b, 7);
    var u, v := t + [b], t + [b] + [c];
    RegularStep(u, c, canonical, wide);
    StatusStep(u, c, 7);
    RegularStep(v, d, canonical, wide);
    StatusStep(v, d, 7);
    WideIdSets(t, 4100, b, c, d);
    WideIdSets(t, 4, b, c, d);
    assert WideId() == v + [d];
    assert FirstCycleIn(WideId(), 7, 4100).Some? && !NoClash(4100, 4);
  }

  lemma WideIdStart(canonical: nat, wide: map<nat, nat>)
    ensures var t := [CycleEvent(0)];
            && Regular(t, canonical, wide) && Started(t) && CycleAfter(t) == 0 && StatusAfter(t, 7) == Unknown
            && forall w :: LastSetIn(t, 7, w, 0) == None && FirstCycleIn(t, 7, w) == None
  {
    var none: seq<Event>, a := [], CycleEvent(0);
    assert none + [a] == [a];
    SignedSmall(0);
    CycleStep(none, a);
    RegularStep(none, a, canonical, wide);
    StatusStep(none, a, 7);
    forall w
      ensures LastSetIn([a], 7, w, 0) == None && FirstCycleIn([a], 7, w) == None
    {
      SetStep(none, a, 7, w, 0);
    }
  }

  lemma WideIdSets(t: seq<Event>, w: nat, b: Event, c: Event, d: Event)
    requires b == NewItemEvent(7) && c == SetTagEvent(7, 4100, 1) && d == DeleteItemEvent(7)
    requires StatusAfter(t + [b], 7) == Live && CycleAfter(t + [b]) == 0
    requires LastSetIn(t, 7, w, 0) == None && FirstCycleIn(t, 7, w) == None
    ensures var r := t + [b] + [c] + [d];
            && LastSetIn(r, 7, w, 0) == (if w == 4100 then Some(1) else None)
            && FirstCycleIn(r, 7, w) == (if w == 4100 then Some(0) else None)
  {
    hide StatusAfter, CycleAfter, LastSetIn, FirstCycleIn, LastCycleIn;
    SetStep(t, b, 7, w, 0);
    SetStep(t + [b], c, 7, w, 0);
    SetStep(t + [b] + [c], d, 7, w, 0);
  }
}
