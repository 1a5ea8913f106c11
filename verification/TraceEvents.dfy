/** Traces as sequences of events, and what a reader should find after one: the values of tags
    and the movers over edges, as functions of the events alone. */
module TraceEvents {
  import opened TagHistory
  import opened ItemTagHeaps
  import opened DBGraphs
  import opened TagIdVecs
  import opened MoveLogs
  import opened MoveLedgers
  import opened ListenerBooks

  datatype Event =
    | CycleEvent(n: nat)
    | NewItemEvent(id: int)
    | SetTagEvent(id: int, tagid: nat, value: nat)
    | MoveItemsEvent(edge: nat, ids: seq<int>)
    | DeleteItemEvent(id: int)

  // ---------------------------------------------------------------- cycles

  /** The cycle that the events have reached; cycles that would go back are refused. */
  function CycleAfter(events: seq<Event>): (c: int)
    ensures -1 <= c
  {
    if events == [] then -1
    else
      var c, e := CycleAfter(events[..|events|-1]), events[|events|-1];
      if e.CycleEvent? && Signed(e.n) >= c then Signed(e.n) else c
  }

  /** The event begins a cycle after these. */
  predicate Accepted(events: seq<Event>, e: Event) {
    e.CycleEvent? && Signed(e.n) >= CycleAfter(events)
  }

  predicate Started(events: seq<Event>) {
    events != [] && (Started(events[..|events|-1]) || Accepted(events[..|events|-1], events[|events|-1]))
  }

  /** The first cycle of the trace. */
  function FirstAfter(events: seq<Event>): int {
    if events == [] then -1
    else if Started(events[..|events|-1]) then FirstAfter(events[..|events|-1])
    else CycleAfter(events)
  }

  /** How many times a cycle has begun. */
  function Stretch(events: seq<Event>): nat {
    if events == [] then 0
    else Stretch(events[..|events|-1]) + if Accepted(events[..|events|-1], events[|events|-1]) then 1 else 0
  }

  // ---------------------------------------------------------------- items

  datatype Status = Unknown | Live | Gone

  function StatusAfter(events: seq<Event>, id: int): Status {
    if events == [] then Unknown
    else
      var s, e := StatusAfter(events[..|events|-1], id), events[|events|-1];
      if e == NewItemEvent(id) then Live
      else if e == DeleteItemEvent(id) && s == Live then Gone
      else s
  }

  /** How many items the events create. */
  function Created(events: seq<Event>): nat {
    if events == [] then 0
    else Created(events[..|events|-1]) + if events[|events|-1].NewItemEvent? then 1 else 0
  }

  /** How many live items the events delete. */
  function Removed(events: seq<Event>): nat {
    if events == [] then 0
    else
      var g, e := events[..|events|-1], events[|events|-1];
      Removed(g) + if e.DeleteItemEvent? && StatusAfter(g, e.id) == Live then 1 else 0
  }

  // ---------------------------------------------------------------- tags

  /** The event sets tag t of item id while the item is live. */
  predicate Sets(events: seq<Event>, id: int, t: nat)
    requires events != []
  {
    var e := events[|events|-1];
    e.SetTagEvent? && e.id == id && e.tagid == t && StatusAfter(events[..|events|-1], id) == Live
  }

  /** The value of the last event that set tag t of item id at or before cycle q. */
  function LastSetIn(events: seq<Event>, id: int, t: nat, q: int): Option<nat> {
    if events == [] then None
    else
      var g := events[..|events|-1];
      if Sets(events, id, t) && CycleAfter(g) <= q then Some(events[|events|-1].value) else LastSetIn(g, id, t, q)
  }

  /** The first cycle in which tag t of item id was set. */
  function FirstCycleIn(events: seq<Event>, id: int, t: nat): Option<int> {
    if events == [] then None
    else
      var g := events[..|events|-1];
      match FirstCycleIn(g, id, t)
      case Some(c) => Some(c)
      case None => if Sets(events, id, t) then Some(CycleAfter(g)) else None
  }

  /** The last cycle in which tag t of item id was set. */
  function LastCycleIn(events: seq<Event>, id: int, t: nat): Option<int> {
    if events == [] then None
    else
      var g := events[..|events|-1];
      if Sets(events, id, t) then Some(CycleAfter(g)) else LastCycleIn(g, id, t)
  }

  /** What a reader should see of tag t of item id at cycle q. */
  function ExpectedIn(events: seq<Event>, id: int, t: nat, q: int, back: bool): Option<nat> {
    match LastSetIn(events, id, t, q)
    case Some(v) => Some(v)
    case None =>
      match FirstCycleIn(events, id, t)
      case Some(c) => if back then LastSetIn(events, id, t, c) else None
      case None => None
  }

  /** Tag t was set on item id in the first 2^22 cycles only. */
  predicate SetInWindow(events: seq<Event>, id: int, t: nat) {
    LastCycleIn(events, id, t).Some? ==> LastCycleIn(events, id, t).value < FirstAfter(events) + 0x40_0000
  }

  /** Tag t fits a slot of the heap, and no other tag that was set on item id has its bits. */
  ghost predicate OwnBits(events: seq<Event>, id: int, t: nat) {
    t < 0x1000 && forall w :: FirstCycleIn(events, id, w).Some? ==> NoClash(w, t)
  }

  /** How many set events the log of item id has to hold. */
  function SetsOf(events: seq<Event>, id: int): nat {
    if events == [] then 0
    else
      var g, e := events[..|events|-1], events[|events|-1];
      SetsOf(g, id) + if e.SetTagEvent? && e.id == id && StatusAfter(g, id) == Live then 1 else 0
  }

  // ---------------------------------------------------------------- moves

  /** The position counter of an edge after these items have moved over it. */
  function CountPlaced(events: seq<Event>, ids: seq<int>, p: nat, bw: nat): nat {
    if ids == [] then p
    else
      var q := CountPlaced(events, ids[..|ids|-1], p, bw);
      if StatusAfter(events, ids[|ids|-1]) == Live && q < bw then NextPos(q) else q
  }

  /** The moves that item id makes when these items move over an edge. */
  function MovesPlaced(events: seq<Event>, ids: seq<int>, id: int, edge: nat, bw: nat, p: nat): seq<Move> {
    if ids == [] then []
    else
      var g := ids[..|ids|-1];
      var q := CountPlaced(events, g, p, bw);
      MovesPlaced(events, g, id, edge, bw, p)
      + if ids[|ids|-1] == id && StatusAfter(events, id) == Live && q < bw
        then [Move(CycleAfter(events), edge, q)] else []
  }

  /** The position counter of an edge; every cycle starts it again. The map gives the tracked
      edges and their bandwidths. */
  function CounterAfter(events: seq<Event>, edge: nat, wide: map<nat, nat>): nat
    requires edge in wide
  {
    if events == [] then 0
    else
      var g, e := events[..|events|-1], events[|events|-1];
      var p := CounterAfter(g, edge, wide);
      if Accepted(g, e) then 0
      else if e.MoveItemsEvent? && e.edge == edge then CountPlaced(g, e.ids, p, wide[edge])
      else p
  }

  /** The moves of item id. */
  function MovesIn(events: seq<Event>, id: int, wide: map<nat, nat>): seq<Move> {
    if events == [] then []
    else
      var g, e := events[..|events|-1], events[|events|-1];
      MovesIn(g, id, wide)
      + if e.MoveItemsEvent? && e.edge in wide
        then MovesPlaced(g, e.ids, id, e.edge, wide[e.edge], CounterAfter(g, e.edge, wide)) else []
  }

  /** Some deleted item made this move, as the events have it. */
  ghost predicate MadeIn(events: seq<Event>, id: int, m: Move, wide: map<nat, nat>) {
    StatusAfter(events, id) == Gone && m in MovesIn(events, id, wide)
  }

  /** The tables of live items have room for what happens to them: 2^18 tag values and 2^14 moves each. */
  ghost predicate WithinTables(events: seq<Event>, wide: map<nat, nat>) {
    forall id :: SetsOf(events, id) <= 0x4_0000 && |MovesIn(events, id, wide)| <= 0x4000
  }

  /** The item that was the last to be deleted of those that made this move. */
  function LastMoverIn(events: seq<Event>, m: Move, wide: map<nat, nat>): Option<int> {
    if events == [] then None
    else
      var g, e := events[..|events|-1], events[|events|-1];
      if e.DeleteItemEvent? && StatusAfter(g, e.id) == Live && m in MovesIn(g, e.id, wide) then Some(e.id)
      else LastMoverIn(g, m, wide)
  }

  /** Some deleted item made this move. */
  ghost predicate MadeByGone(events: seq<Event>, m: Move, wide: map<nat, nat>) {
    exists id :: MadeIn(events, id, m, wide)
  }

  /** Some item made this move. */
  ghost predicate MadeByAny(events: seq<Event>, m: Move, wide: map<nat, nat>) {
    exists id :: m in MovesIn(events, id, wide)
  }

  ghost function GoneMoves(events: seq<Event>, wide: map<nat, nat>): iset<Move> {
    iset m | MadeByGone(events, m, wide)
  }

  ghost function AllMoves(events: seq<Event>, wide: map<nat, nat>): iset<Move> {
    iset m | MadeByAny(events, m, wide)
  }

  /** No missing chunk is in the way of looking for m: between the first and the last move of a
      deleted item at its place, some item moved there within the same 4096 cycles. */
  ghost predicate NoGapIn(events: seq<Event>, m: Move, wide: map<nat, nat>) {
    NoGap(GoneMoves(events, wide), AllMoves(events, wide), FirstAfter(events), m)
  }

  // ---------------------------------------------------------------- traces

  /** Every cycle comes after the last one. */
  predicate Rising(events: seq<Event>) {
    events != [] ==>
      var g, e := events[..|events|-1], events[|events|-1];
      Rising(g) && (Accepted(g, e) && Started(g) ==> Signed(e.n) > CycleAfter(g))
  }

  /** What a trace demands of its next event. */
  ghost predicate RegularNext(events: seq<Event>, e: Event, canonical: nat, wide: map<nat, nat>) {
    match e
    case NewItemEvent(id) => Started(events) && StatusAfter(events, id) == Unknown
    case MoveItemsEvent(edge, _) =>
      && Started(events)
      && (edge in wide ==> CycleAfter(events) < FirstAfter(events) + 0x10_0000)
    case SetTagEvent(_, t, _) => t != canonical
    case _ => true
  }

  /** The hypotheses on a trace: items are created after the first cycle and ids are not used
      twice, moves come after the first cycle and, over tracked edges, in cycles that a vector has
      room for, and the item id is not set as a tag. */
  ghost predicate Regular(events: seq<Event>, canonical: nat, wide: map<nat, nat>) {
    forall n :: 0 <= n < |events| ==> RegularNext(events[..n], events[n], canonical, wide)
  }

  /** The same for events that come after those before. */
  ghost predicate RegularMore(before: seq<Event>, events: seq<Event>, canonical: nat, wide: map<nat, nat>) {
    forall n :: 0 <= n < |events| ==> RegularNext(before + events[..n], events[n], canonical, wide)
  }

  // ---------------------------------------------------------------- how far a trace is read

  /** How many events the client is asked for at a time. */
  const DRALDB_PROCESS_STEP := 4096

  /** The header of a trace ends with the first event of a cycle. */
  function HeaderLen(events: seq<Event>): (n: nat)
    ensures n <= |events|
    ensures forall k :: 0 <= k < n - 1 ==> !events[k].CycleEvent?
    ensures n == |events| || (n > 0 && events[n-1].CycleEvent?)
  {
    if events == [] then 0 else if events[0].CycleEvent? then 1 else 1 + HeaderLen(events[1..])
  }

  /** Nothing has gone wrong: no cycle has been refused since the first one, and the heap has had room
      for every item that was to be deleted, by an event or for the limit of live items. */
  predicate OkAfter(events: seq<Event>, limit: Option<nat>) {
    events == [] ||
    var g, e := events[..|events|-1], events[|events|-1];
    match e
    case CycleEvent(_) =>
      && Accepted(g, e) && (!Started(g) || OkAfter(g, limit))
      && Removed(g) + Surplus(Created(g) - Removed(g), limit) <= MAX_ITEM_ENTRIES
    case DeleteItemEvent(id) => OkAfter(g, limit) && (StatusAfter(g, id) == Live ==> Removed(g) < MAX_ITEM_ENTRIES)
    case _ => OkAfter(g, limit)
  }

  /** The program asks for more events behind event n, and looks first whether it should. */
  predicate BatchEnd(events: seq<Event>, n: nat) {
    HeaderLen(events) < n < |events| && (n - HeaderLen(events)) % 4096 == 0
  }

  /** All events are read. */
  ghost predicate Unbroken(events: seq<Event>) {
    forall n: nat :: BatchEnd(events, n) ==> OkAfter(events[..n], None)
  }

  /** No cycle goes back. */
  predicate NoneRefused(before: seq<Event>, events: seq<Event>) {
    forall n :: 0 <= n < |events| && events[n].CycleEvent? ==> Accepted(before + events[..n], events[n])
  }

  /** Cycle numbers are read as signed 32-bit numbers: those from 2^31 on are refused, but for the largest
      one, which is taken for -1 as long as no cycle has begun later. */
  lemma CycleNumbers(events: seq<Event>, n: nat)
    requires n < 0x1_0000_0000
    ensures Accepted(events, CycleEvent(n))
       <==> (n < 0x8000_0000 && CycleAfter(events) <= n) || (n == 0xFFFF_FFFF && CycleAfter(events) == -1)
    ensures n < 0x8000_0000 && CycleAfter(events) <= n ==> CycleAfter(events + [CycleEvent(n)]) == n
  {
    assert (events + [CycleEvent(n)])[..|events|] == events;
  }

  // ---------------------------------------------------------------- one event after the other

  /** One event more. */
  lemma OneMore(events: seq<Event>, e: Event)
    ensures (events + [e])[..|events|] == events && (events + [e])[|events|] == e
  {
  }

  lemma CycleStep(events: seq<Event>, e: Event)
    ensures CycleAfter(events + [e]) == if Accepted(events, e) then Signed(e.n) else CycleAfter(events)
    ensures Started(events + [e]) <==> Started(events) || Accepted(events, e)
    ensures FirstAfter(events + [e]) == if Started(events) then FirstAfter(events) else CycleAfter(events + [e])
    ensures Stretch(events + [e]) == Stretch(events) + if Accepted(events, e) then 1 else 0
  {
    OneMore(events, e);
  }

  lemma StatusStep(events: seq<Event>, e: Event, id: int)
    ensures StatusAfter(events + [e], id)
         == if e == NewItemEvent(id) then Live
            else if e == DeleteItemEvent(id) && StatusAfter(events, id) == Live then Gone
            else StatusAfter(events, id)
  {
    OneMore(events, e);
  }

  lemma RegularStep(events: seq<Event>, e: Event, canonical: nat, wide: map<nat, nat>)
    ensures Regular(events + [e], canonical, wide)
            <==> Regular(events, canonical, wide) && RegularNext(events, e, canonical, wide)
  {
    hide RegularNext;
    var r := events + [e];
    OneMore(events, e);
    assert forall n :: 0 <= n < |events| ==> r[n] == events[n] && r[..n] == events[..n];
    if Regular(r, canonical, wide) {
      assert RegularNext(r[..|events|], r[|events|], canonical, wide);
    }
  }

  lemma OkStep(events: seq<Event>, e: Event, limit: Option<nat>)
    ensures OkAfter(events + [e], limit)
       <==> match e
            case CycleEvent(_) =>
              && Accepted(events, e) && (!Started(events) || OkAfter(events, limit))
              && Removed(events) + Surplus(Created(events) - Removed(events), limit) <= MAX_ITEM_ENTRIES
            case DeleteItemEvent(id) =>
              OkAfter(events, limit) && (StatusAfter(events, id) == Live ==> Removed(events) < MAX_ITEM_ENTRIES)
            case _ => OkAfter(events, limit)
  {
    OneMore(events, e);
  }

  lemma CountStep(events: seq<Event>, e: Event)
    ensures Created(events + [e]) == Created(events) + if e.NewItemEvent? then 1 else 0
    ensures Removed(events + [e])
         == Removed(events) + if e.DeleteItemEvent? && StatusAfter(events, e.id) == Live then 1 else 0
  {
    OneMore(events, e);
  }

  lemma CounterStep(events: seq<Event>, e: Event, edge: nat, wide: map<nat, nat>)
    requires edge in wide
    ensures CounterAfter(events + [e], edge, wide)
         == if Accepted(events, e) then 0
            else if e.MoveItemsEvent? && e.edge == edge
            then CountPlaced(events, e.ids, CounterAfter(events, edge, wide), wide[edge])
            else CounterAfter(events, edge, wide)
  {
    OneMore(events, e);
  }

  lemma {:induction false} NotPlaced(events: seq<Event>, ids: seq<int>, id: int, edge: nat, bw: nat, p: nat)
    requires StatusAfter(events, id) != Live
    ensures MovesPlaced(events, ids, id, edge, bw, p) == []
  {
    if ids != [] {
      NotPlaced(events, ids[..|ids|-1], id, edge, bw, p);
    }
  }

  lemma MovesStep(events: seq<Event>, e: Event, id: int, wide: map<nat, nat>)
    ensures e.MoveItemsEvent? && e.edge in wide ==>
              var placed := MovesPlaced(events, e.ids, id, e.edge, wide[e.edge], CounterAfter(events, e.edge, wide));
              MovesIn(events + [e], id, wide) == MovesIn(events, id, wide) + placed
    ensures !e.MoveItemsEvent? || e.edge !in wide || StatusAfter(events, id) != Live ==>
              MovesIn(events + [e], id, wide) == MovesIn(events, id, wide)
  {
    OneMore(events, e);
    assert MovesIn(events, id, wide) + [] == MovesIn(events, id, wide);
    if e.MoveItemsEvent? && e.edge in wide && StatusAfter(events, id) != Live {
      NotPlaced(events, e.ids, id, e.edge, wide[e.edge], CounterAfter(events, e.edge, wide));
    }
  }

  lemma MoverStep(events: seq<Event>, e: Event, m: Move, wide: map<nat, nat>)
    ensures LastMoverIn(events + [e], m, wide)
         == if e.DeleteItemEvent? && StatusAfter(events, e.id) == Live && m in MovesIn(events, e.id, wide)
            then Some(e.id) else LastMoverIn(events, m, wide)
  {
    OneMore(events, e);
  }

  /** What one event does to the values of a tag. */
  lemma SetStep(events: seq<Event>, e: Event, id: int, t: nat, q: int)
    ensures var sets := e.SetTagEvent? && e.id == id && e.tagid == t && StatusAfter(events, id) == Live;
            && LastSetIn(events + [e], id, t, q)
               == (if sets && CycleAfter(events) <= q then Some(e.value) else LastSetIn(events, id, t, q))
            && FirstCycleIn(events + [e], id, t)
               == (if sets && FirstCycleIn(events, id, t) == None then Some(CycleAfter(events))
                   else FirstCycleIn(events, id, t))
            && LastCycleIn(events + [e], id, t)
               == (if sets then Some(CycleAfter(events)) else LastCycleIn(events, id, t))
  {
    OneMore(events, e);
  }

  /** No cycle is before the first one in which a tag was set and after a set. */
  lemma {:induction false} NotYetSet(events: seq<Event>, id: int, t: nat, q: int)
    ensures var first := FirstCycleIn(events, id, t);
            && (first == None ==> LastSetIn(events, id, t, q) == None)
            && (first.Some? ==>
                  && first.value <= CycleAfter(events)
                  && (LastSetIn(events, id, t, q) == None <==> q < first.value))
  {
    if events != [] {
      NotYetSet(events[..|events|-1], id, t, q);
    }
  }

  /** Before the first cycle in which a tag was set it has no value, or, when values propagate
      backwards, the one that it had at the end of that cycle. */
  lemma ExpectedEarly(events: seq<Event>, id: int, t: nat, q: int, back: bool)
    ensures var first := FirstCycleIn(events, id, t);
            first.Some? && q < first.value ==>
              && LastSetIn(events, id, t, first.value).Some?
              && ExpectedIn(events, id, t, q, back)
                 == if back then LastSetIn(events, id, t, first.value) else None
  {
    NotYetSet(events, id, t, q);
    if FirstCycleIn(events, id, t).Some? {
      NotYetSet(events, id, t, FirstCycleIn(events, id, t).value);
    }
  }

  lemma {:induction false} UnknownIsUnset(events: seq<Event>, id: int, t: nat, q: int)
    requires StatusAfter(events, id) == Unknown
    ensures LastSetIn(events, id, t, q) == None && FirstCycleIn(events, id, t) == None
            && LastCycleIn(events, id, t) == None
  {
    if events != [] {
      UnknownIsUnset(events[..|events|-1], id, t, q);
    }
  }

  lemma {:induction false} UnknownIsUnmoved(events: seq<Event>, id: int, wide: map<nat, nat>)
    requires StatusAfter(events, id) == Unknown
    ensures MovesIn(events, id, wide) == []
  {
    if events != [] {
      var g, e := events[..|events|-1], events[|events|-1];
      UnknownIsUnmoved(g, id, wide);
      assert g + [e] == events;
      MovesStep(g, e, id, wide);
    }
  }

  /** The first cycle does not lie after the current one. */
  lemma {:induction false} FirstIsFirst(events: seq<Event>)
    ensures FirstAfter(events) <= CycleAfter(events)
  {
    if events != [] {
      FirstIsFirst(events[..|events|-1]);
    }
  }

  // ---------------------------------------------------------------- deleted items

  /** What happens after an item is deleted does not count for it. */
  lemma {:induction false} SettledItem(past: seq<Event>, more: seq<Event>, id: int, t: nat, q: int, back: bool,
                                       wide: map<nat, nat>)
    requires StatusAfter(past, id) == Gone && NewItemEvent(id) !in more
    ensures StatusAfter(past + more, id) == Gone && MovesIn(past + more, id, wide) == MovesIn(past, id, wide)
    ensures LastSetIn(past + more, id, t, q) == LastSetIn(past, id, t, q)
    ensures FirstCycleIn(past + more, id, t) == FirstCycleIn(past, id, t)
    ensures ExpectedIn(past + more, id, t, q, back) == ExpectedIn(past, id, t, q, back)
  {
    if more == [] {
      assert past + more == past;
    } else {
      var g, e := more[..|more|-1], more[|more|-1];
      SettledItem(past, g, id, t, q, back, wide);
      assert past + more == (past + g) + [e];
      StatusStep(past + g, e, id);
      MovesStep(past + g, e, id, wide);
      SetStep(past + g, e, id, t, q);
      if FirstCycleIn(past, id, t).Some? {
        var c := FirstCycleIn(past, id, t).value;
        SettledItem(past, g, id, t, c, back, wide);
        SetStep(past + g, e, id, t, c);
      }
    }
  }

  // ---------------------------------------------------------------- when a trace is read to its end

  /** From the first cycle on, all is well exactly as long as no cycle is refused and the heap has room
      for the items that are deleted. */
  lemma {:induction false} OkIs(before: seq<Event>, events: seq<Event>)
    requires Started(before) && OkAfter(before, None) && Removed(before) <= 0x1000_0000
    ensures OkAfter(before + events, None)
            <==> NoneRefused(before, events) && Removed(before + events) <= 0x1000_0000
    ensures Started(before + events)
  {
    if events == [] {
      assert before + events == before;
    } else {
      hide Started, OkAfter, Removed, Created, StatusAfter;
      var g, e := events[..|events|-1], events[|events|-1];
      OkIs(before, g);
      assert before + events == (before + g) + [e];
      OkStep(before + g, e, None);
      CountStep(before + g, e);
      CycleStep(before + g, e);
      RefusedMore(before, g, e);
      assert events == g + [e];
    }
  }

  lemma RefusedMore(before: seq<Event>, g: seq<Event>, e: Event)
    ensures NoneRefused(before, g + [e])
       <==> NoneRefused(before, g) && (e.CycleEvent? ==> Accepted(before + g, e))
  {
    hide Accepted;
    var r := g + [e];
    assert r[|g|] == e && r[..|g|] == g;
    assert forall n :: 0 <= n < |g| ==> r[n] == g[n] && r[..n] == g[..n];
    assert forall n :: 0 <= n < |r| && r[n].CycleEvent? ==> n < |g| || n == |g|;
    if NoneRefused(before, r) && e.CycleEvent? {
      assert Accepted(before + r[..|g|], r[|g|]);
    }
  }

  /** What went wrong stays wrong. */
  lemma {:induction false} RefusedEarlier(before: seq<Event>, a: seq<Event>, b: seq<Event>)
    ensures NoneRefused(before, a + b) ==> NoneRefused(before, a)
    ensures Removed(before + a) <= Removed(before + a + b)
  {
    if b == [] {
      assert a + b == a && before + a + b == before + a;
    } else {
      hide NoneRefused, Removed;
      var g, e := b[..|b|-1], b[|b|-1];
      RefusedEarlier(before, a, g);
      RefusedMore(before, a + g, e);
      assert a + b == (a + g) + [e];
      assert before + a + b == (before + a + g) + [e];
      CountStep(before + a + g, e);
    }
  }

  /** The start of the last batch of a trace. */
  function LastBatch(events: seq<Event>): (n: nat)
    ensures HeaderLen(events) <= n <= |events|
  {
    var h := HeaderLen(events);
    if h == |events| then h else h + (|events| - h - 1) / 4096 * 4096
  }

  lemma LastBatchIs(events: seq<Event>, n: nat)
    ensures BatchEnd(events, n) ==> n <= LastBatch(events)
    ensures LastBatch(events) > HeaderLen(events) ==> BatchEnd(events, LastBatch(events))
  {
  }

  /** The exact condition for a trace to be read to its end, once its first cycle has been accepted: up to
      the last batch no cycle goes back, and no more items are deleted than the heap has room for. */
  lemma UnbrokenIs(events: seq<Event>)
    requires Started(events[..HeaderLen(events)]) && OkAfter(events[..HeaderLen(events)], None)
    requires Removed(events[..HeaderLen(events)]) == 0
    ensures var h := HeaderLen(events);
            var c := if h == |events| then h else h + (|events| - h - 1) / 4096 * 4096;
            && c <= |events|
            && (Unbroken(events) <==>
                  NoneRefused(events[..h], events[h..c]) && Removed(events[..c]) <= 0x1000_0000)
  {
    hide Started, OkAfter, Removed, NoneRefused, HeaderLen, Unbroken;
    UnbrokenUpto(events, LastBatch(events));
  }

  lemma UnbrokenUpto(events: seq<Event>, c: nat)
    requires Started(events[..HeaderLen(events)]) && OkAfter(events[..HeaderLen(events)], None)
    requires Removed(events[..HeaderLen(events)]) == 0 && c == LastBatch(events)
    ensures var h := HeaderLen(events);
            Unbroken(events) <==> NoneRefused(events[..h], events[h..c]) && Removed(events[..c]) <= MAX_ITEM_ENTRIES
  {
    hide Started, OkAfter, Removed, NoneRefused, BatchEnd, LastBatch, HeaderLen;
    var h := HeaderLen(events);
    var before := events[..h];
    forall n: nat | h <= n <= c
      ensures OkAfter(events[..n], None)
              <==> NoneRefused(before, events[h..n]) && Removed(events[..n]) <= MAX_ITEM_ENTRIES
      ensures NoneRefused(before, events[h..c]) ==> NoneRefused(before, events[h..n])
      ensures Removed(events[..n]) <= Removed(events[..c])
    {
      assert events[..n] == before + events[h..n] && events[h..c] == events[h..n] + events[n..c];
      assert events[..c] == before + events[h..n] + events[n..c];
      OkIs(before, events[h..n]);
      RefusedEarlier(before, events[h..n], events[n..c]);
    }
    forall n: nat | BatchEnd(events, n)
      ensures h <= n <= c
    {
      LastBatchIs(events, n);
      BatchBehind(events, n);
    }
    LastBatchIs(events, c);
    if Unbroken(events) && c > h {
      assert OkAfter(events[..c], None);
    }
    if NoneRefused(before, events[h..c]) && Removed(events[..c]) <= MAX_ITEM_ENTRIES {
      forall n: nat | BatchEnd(events, n)
        ensures OkAfter(events[..n], None)
      {
        assert h <= n <= c;
      }
    }
    assert NoneRefused(before, []) by { NothingRefused(before); }
    assert events[h..h] == [];
  }

  lemma NothingRefused(before: seq<Event>)
    ensures NoneRefused(before, [])
  {
  }

  lemma BatchBehind(events: seq<Event>, n: nat)
    requires BatchEnd(events, n)
    ensures HeaderLen(events) < n < |events|
  {
  }

  // ---------------------------------------------------------------- deletions between the events

  /** The deletions of these items. */
  function Deletes(gone: seq<AuxItemListNode>): seq<Event> {
    if gone == [] then [] else Deletes(gone[..|gone|-1]) + [DeleteItemEvent(gone[|gone|-1].itemId)]
  }

  /** These items are tagged and deleted. */
  function Purges(order: seq<AuxItemListNode>, tag: nat): seq<Event> {
    if order == [] then []
    else
      var id := order[|order|-1].itemId;
      Purges(order[..|order|-1], tag) + [SetTagEvent(id, tag, 1)] + [DeleteItemEvent(id)]
  }

  lemma PurgesMore(events: seq<Event>, order: seq<AuxItemListNode>, tag: nat)
    ensures order == [] ==> events + Purges(order, tag) == events
    ensures order != [] ==>
              var g, id := order[..|order|-1], order[|order|-1].itemId;
              events + Purges(order, tag)
              == events + Purges(g, tag) + [SetTagEvent(id, tag, 1)] + [DeleteItemEvent(id)]
  {
  }

  /** The events with the deletions that came after each of them. */
  function Woven(events: seq<Event>, gone: seq<seq<AuxItemListNode>>): seq<Event>
    requires |gone| == |events|
  {
    if events == [] then []
    else
      var n := |events| - 1;
      Woven(events[..n], gone[..n]) + [events[n]] + Deletes(gone[n])
  }

  lemma {:induction false} WovenPlain(events: seq<Event>, gone: seq<seq<AuxItemListNode>>)
    requires |gone| == |events| && forall n :: 0 <= n < |gone| ==> gone[n] == []
    ensures Woven(events, gone) == events
  {
    if events != [] {
      var n := |events| - 1;
      WovenPlain(events[..n], gone[..n]);
      assert events == events[..n] + [events[n]] + Deletes(gone[n]);
    }
  }

  /** Deletions make no difference to cycles and to which ids are taken. */
  ghost predicate Alike(a: seq<Event>, b: seq<Event>) {
    && CycleAfter(a) == CycleAfter(b) && (Started(a) <==> Started(b)) && FirstAfter(a) == FirstAfter(b)
    && Created(a) == Created(b) && forall id :: StatusAfter(a, id) == Unknown <==> StatusAfter(b, id) == Unknown
  }

  lemma AlikeStep(a: seq<Event>, b: seq<Event>, e: Event)
    requires Alike(a, b)
    ensures Alike(a + [e], b + [e])
  {
    hide CycleAfter, Started, FirstAfter, StatusAfter, Created;
    CycleStep(a, e);
    CycleStep(b, e);
    CountStep(a, e);
    CountStep(b, e);
    forall id
      ensures StatusAfter(a + [e], id) == Unknown <==> StatusAfter(b + [e], id) == Unknown
    {
      StatusStep(a, e, id);
      StatusStep(b, e, id);
    }
  }

  lemma AlikeDelete(a: seq<Event>, b: seq<Event>, id: int)
    requires Alike(a, b) && (Started(b) || FirstAfter(b) == CycleAfter(b))
    ensures Alike(a, b + [DeleteItemEvent(id)])
  {
    hide CycleAfter, Started, FirstAfter, StatusAfter, Created;
    CycleStep(b, DeleteItemEvent(id));
    CountStep(b, DeleteItemEvent(id));
    forall k
      ensures StatusAfter(a, k) == Unknown <==> StatusAfter(b + [DeleteItemEvent(id)], k) == Unknown
    {
      StatusStep(b, DeleteItemEvent(id), k);
    }
  }

  lemma {:induction false} AlikeDeletes(a: seq<Event>, b: seq<Event>, gone: seq<AuxItemListNode>)
    requires Alike(a, b)
    ensures Alike(a, b + Deletes(gone))
  {
    if gone == [] {
      assert b + Deletes(gone) == b;
    } else {
      hide Alike, Started, FirstAfter, CycleAfter;
      var g, id := gone[..|gone|-1], gone[|gone|-1].itemId;
      AlikeDeletes(a, b, g);
      AlikeDelete(a, b + Deletes(g), id);
      assert b + Deletes(gone) == b + Deletes(g) + [DeleteItemEvent(id)];
    }
  }

  lemma LastApart(a: seq<Event>, more: seq<Event>)
    requires more != []
    ensures a + more == (a + more[..|more|-1]) + [more[|more|-1]]
  {
  }

  /** What a trace demands of its next event is demanded after such deletions too. */
  lemma {:induction false} AlikeMore(a: seq<Event>, b: seq<Event>, more: seq<Event>)
    requires Alike(a, b)
    ensures Alike(a + more, b + more)
  {
    if more == [] {
      assert a + more == a && b + more == b;
    } else {
      hide Alike, StatusAfter, CycleAfter, Started;
      var g, e := more[..|more|-1], more[|more|-1];
      AlikeMore(a, b, g);
      AlikeStep(a + g, b + g, e);
      LastApart(a, more);
      LastApart(b, more);
    }
  }

  lemma NextAlike(a: seq<Event>, b: seq<Event>, e: Event, canonical: nat, wide: map<nat, nat>)
    requires Alike(a, b) && RegularNext(a, e, canonical, wide)
    ensures RegularNext(b, e, canonical, wide)
  {
  }

  lemma RegularAlike(a: seq<Event>, b: seq<Event>, more: seq<Event>, canonical: nat, wide: map<nat, nat>)
    requires Alike(a, b) && RegularMore(a, more, canonical, wide)
    ensures RegularMore(b, more, canonical, wide)
  {
    hide Alike, RegularNext;
    forall n | 0 <= n < |more|
      ensures RegularNext(b + more[..n], more[n], canonical, wide)
    {
      AlikeMore(a, b, more[..n]);
      NextAlike(a + more[..n], b + more[..n], more[n], canonical, wide);
    }
  }

  /** Part of a regular trace. */
  lemma RegularPart(events: seq<Event>, a: nat, b: nat, canonical: nat, wide: map<nat, nat>)
    requires Regular(events, canonical, wide) && a <= b <= |events|
    ensures RegularMore(events[..a], events[a..b], canonical, wide)
  {
    hide RegularNext;
    forall n | 0 <= n < b - a
      ensures RegularNext(events[..a] + events[a..b][..n], events[a..b][n], canonical, wide)
    {
      assert events[..a] + events[a..b][..n] == events[..a+n] && events[a..b][n] == events[a+n];
    }
  }

  lemma {:induction false} WovenConcat(a: seq<Event>, b: seq<Event>, ga: seq<seq<AuxItemListNode>>,
                                       gb: seq<seq<AuxItemListNode>>)
    requires |ga| == |a| && |gb| == |b|
    ensures Woven(a + b, ga + gb) == Woven(a, ga) + Woven(b, gb)
  {
    if b == [] {
      assert a + b == a && ga + gb == ga && Woven(a, ga) + Woven(b, gb) == Woven(a, ga);
    } else {
      hide Woven;
      var n := |b| - 1;
      WovenConcat(a, b[..n], ga, gb[..n]);
      assert (a + b)[..|a|+n] == a + b[..n] && (ga + gb)[..|a|+n] == ga + gb[..n];
      WovenLast(a + b, ga + gb);
      WovenLast(b, gb);
    }
  }

  lemma WovenLast(events: seq<Event>, gone: seq<seq<AuxItemListNode>>)
    requires |gone| == |events| > 0
    ensures var n := |events| - 1;
            Woven(events, gone) == Woven(events[..n], gone[..n]) + ([events[n]] + Deletes(gone[n]))
  {
  }

  // ---------------------------------------------------------------- the end of the trace

  /** What the end of the trace comes to: a last cycle, in which items may have to go, and then the
      items that are tagged as purged and deleted. */
  function Closing(events: seq<Event>, gone: seq<AuxItemListNode>, order: seq<AuxItemListNode>, tag: nat): seq<Event> {
    [CycleEvent(CycleAfter(events) + 1)] + Deletes(gone) + Purges(order, tag)
  }

  /** The item is among these nodes. */
  ghost predicate Among(order: seq<AuxItemListNode>, id: int) {
    exists k :: 0 <= k < |order| && order[k].itemId == id
  }

  /** The run after the last cycle. */
  function LastCycleRun(run: seq<Event>, gone: seq<AuxItemListNode>): seq<Event> {
    run + [CycleEvent(CycleAfter(run) + 1)] + Deletes(gone)
  }
}
