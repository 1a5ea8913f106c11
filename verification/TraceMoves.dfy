/** Which moves of a trace coincide. Positions are counted in eight bits from the beginning of
    every cycle on, and a cycle number may come again; so two moves can get the same place. */
module TraceMoves {
  import opened TagHistory
  import opened DBGraphs
  import opened TagIdVecs
  import opened MoveLogs
  import opened MoveLedgers
  import opened ListenerBooks
  import opened TraceEvents

  /** A move that an item made: the number-th over the edge since the cycle began for the
      stretch-th time. */
  datatype Row = Row(id: int, edge: nat, cycle: int, stretch: nat, number: nat)

  /** The move of a row: its position is the number in eight bits. */
  function MoveOf(r: Row): Move { Move(r.cycle, r.edge, r.number % 256) }

  /** How many moves over the edge there were in this stretch. */
  function Number(rows: seq<Row>, edge: nat, stretch: nat): nat {
    if rows == [] then 0
    else
      var r := rows[|rows|-1];
      Number(rows[..|rows|-1], edge, stretch) + if r.edge == edge && r.stretch == stretch then 1 else 0
  }

  /** The rows when these items move over an edge on which there were n moves in this stretch. */
  function RowsPlaced(events: seq<Event>, ids: seq<int>, edge: nat, bw: nat, n: nat): seq<Row> {
    if ids == [] then []
    else
      var g, id := RowsPlaced(events, ids[..|ids|-1], edge, bw, n), ids[|ids|-1];
      if StatusAfter(events, id) == Live && (n + |g|) % 256 < bw
      then g + [Row(id, edge, CycleAfter(events), Stretch(events), n + |g|)] else g
  }

  /** All moves of a trace, in order. */
  function RowsIn(events: seq<Event>, wide: map<nat, nat>): seq<Row> {
    if events == [] then []
    else
      var g, e := events[..|events|-1], events[|events|-1];
      var rows := RowsIn(g, wide);
      if e.MoveItemsEvent? && e.edge in wide
      then rows + RowsPlaced(g, e.ids, e.edge, wide[e.edge], Number(rows, e.edge, Stretch(g)))
      else rows
  }

  /** The moves of one item among the rows. */
  function MovesOf(rows: seq<Row>, id: int): seq<Move> {
    if rows == [] then []
    else
      var r := rows[|rows|-1];
      MovesOf(rows[..|rows|-1], id) + if r.id == id then [MoveOf(r)] else []
  }

  // ---------------------------------------------------------------- the rows are the moves

  lemma {:induction false} MovesOfConcat(a: seq<Row>, b: seq<Row>, id: int)
    ensures MovesOf(a + b, id) == MovesOf(a, id) + MovesOf(b, id)
  {
    if b == [] {
      assert a + b == a && MovesOf(a, id) + [] == MovesOf(a, id);
    } else {
      MovesOfConcat(a, b[..|b|-1], id);
      assert (a + b)[..|a + b|-1] == a + b[..|b|-1];
    }
  }

  lemma {:induction false} NumberConcat(a: seq<Row>, b: seq<Row>, edge: nat, stretch: nat)
    ensures Number(a + b, edge, stretch) == Number(a, edge, stretch) + Number(b, edge, stretch)
  {
    if b == [] {
      assert a + b == a;
    } else {
      NumberConcat(a, b[..|b|-1], edge, stretch);
      assert (a + b)[..|a + b|-1] == a + b[..|b|-1];
    }
  }

  /** These are the rows of an event that comes now. */
  ghost predicate RowsNow(rows: seq<Row>, events: seq<Event>, edge: nat, bw: nat, n: nat) {
    forall x :: 0 <= x < |rows| ==>
      && rows[x].edge == edge && rows[x].cycle == CycleAfter(events) && rows[x].stretch == Stretch(events)
      && rows[x].number == n + x && rows[x].number % 256 < bw
  }

  /** What the rows of one event are. */
  lemma {:induction false} PlacedRows(events: seq<Event>, ids: seq<int>, edge: nat, bw: nat, n: nat)
    ensures RowsNow(RowsPlaced(events, ids, edge, bw, n), events, edge, bw, n)
  {
    hide CycleAfter, Stretch, StatusAfter;
    if ids != [] {
      PlacedRows(events, ids[..|ids|-1], edge, bw, n);
    }
  }

  lemma {:induction false} PlacedNumber(events: seq<Event>, ids: seq<int>, edge: nat, bw: nat, n: nat, e: nat, s: nat)
    ensures var rows := RowsPlaced(events, ids, edge, bw, n);
            Number(rows, e, s) == if e == edge && s == Stretch(events) then |rows| else 0
  {
    hide CycleAfter, Stretch, StatusAfter;
    if ids != [] {
      PlacedNumber(events, ids[..|ids|-1], edge, bw, n, e, s);
    }
  }

  /** The positions are the numbers of the rows in eight bits. */
  lemma {:induction false} PlacedMoves(events: seq<Event>, ids: seq<int>, edge: nat, bw: nat, n: nat, id: int)
    ensures var rows := RowsPlaced(events, ids, edge, bw, n);
            && CountPlaced(events, ids, n % 256, bw) == (n + |rows|) % 256
            && MovesPlaced(events, ids, id, edge, bw, n % 256) == MovesOf(rows, id)
  {
    if ids != [] {
      hide CycleAfter, Stretch, StatusAfter, MovesOf, NextPos;
      var h := ids[..|ids|-1];
      var g, rows := RowsPlaced(events, h, edge, bw, n), RowsPlaced(events, ids, edge, bw, n);
      PlacedMoves(events, h, edge, bw, n, id);
      var k := n + |g|;
      NextNumber(k);
      if StatusAfter(events, ids[|ids|-1]) == Live && k % 256 < bw {
        var r := Row(ids[|ids|-1], edge, CycleAfter(events), Stretch(events), k);
        assert rows == g + [r];
        MovesOfMore(g, r, id);
      } else {
        assert rows == g && MovesOf(g, id) + [] == MovesOf(g, id);
      }
    } else {
      assert MovesOf([], id) == [];
    }
  }

  lemma NextNumber(n: nat)
    ensures NextPos(n % 256) == (n + 1) % 256
  {
  }

  /** The row is of one of the stretches so far; if of this one, then of the current cycle. */
  predicate RowPast(r: Row, events: seq<Event>, wide: map<nat, nat>) {
    && r.edge in wide && r.number % 256 < wide[r.edge]
    && r.stretch <= Stretch(events) && r.cycle <= CycleAfter(events)
    && (r.stretch == Stretch(events) ==> r.cycle == CycleAfter(events))
  }

  lemma {:induction false} RowsDated(events: seq<Event>, wide: map<nat, nat>)
    ensures forall x :: 0 <= x < |RowsIn(events, wide)| ==> RowPast(RowsIn(events, wide)[x], events, wide)
  {
    if events != [] {
      hide CycleAfter, Stretch, RowsPlaced, Number;
      var g, e := events[..|events|-1], events[|events|-1];
      RowsDated(g, wide);
      CycleStep(g, e);
      assert g + [e] == events;
      if e.MoveItemsEvent? && e.edge in wide {
        var n := Number(RowsIn(g, wide), e.edge, Stretch(g));
        PlacedRows(g, e.ids, e.edge, wide[e.edge], n);
        PastMore(RowsIn(g, wide), RowsPlaced(g, e.ids, e.edge, wide[e.edge], n), g, e.edge, wide[e.edge], n, wide);
      }
    }
  }

  lemma PastMore(a: seq<Row>, b: seq<Row>, events: seq<Event>, edge: nat, bw: nat, n: nat, wide: map<nat, nat>)
    requires edge in wide && wide[edge] == bw && forall x :: 0 <= x < |a| ==> RowPast(a[x], events, wide)
    requires RowsNow(b, events, edge, bw, n)
    ensures forall x :: 0 <= x < |a + b| ==> RowPast((a + b)[x], events, wide)
    ensures forall x :: |a| <= x < |a + b| ==>
              (a + b)[x].stretch == Stretch(events) && (a + b)[x].cycle == CycleAfter(events)
  {
  }

  lemma {:induction false} NumberNone(rows: seq<Row>, edge: nat, s: nat)
    requires forall x :: 0 <= x < |rows| ==> rows[x].stretch < s
    ensures Number(rows, edge, s) == 0
  {
    if rows != [] {
      NumberNone(rows[..|rows|-1], edge, s);
    }
  }

  /** The counter of an edge is the number of its moves in this stretch, in eight bits. */
  lemma {:induction false} CounterRows(events: seq<Event>, edge: nat, wide: map<nat, nat>)
    requires edge in wide
    ensures CounterAfter(events, edge, wide) == Number(RowsIn(events, wide), edge, Stretch(events)) % 256
  {
    if events != [] {
      hide CycleAfter, Stretch, RowsPlaced, Number, CountPlaced, Accepted;
      var g, e := events[..|events|-1], events[|events|-1];
      var rows := RowsIn(g, wide);
      CounterRows(g, edge, wide);
      CycleStep(g, e);
      assert g + [e] == events;
      AcceptedCycle(g, e);
      if Accepted(g, e) {
        RowsDated(g, wide);
        NumberNone(rows, edge, Stretch(events));
      } else if e.MoveItemsEvent? && e.edge in wide {
        var n := Number(rows, e.edge, Stretch(g));
        var more := RowsPlaced(g, e.ids, e.edge, wide[e.edge], n);
        PlacedNumber(g, e.ids, e.edge, wide[e.edge], n, edge, Stretch(g));
        NumberConcat(rows, more, edge, Stretch(g));
        PlacedMoves(g, e.ids, e.edge, wide[e.edge], n, 0);
      }
    } else {
      assert Number([], edge, 0) == 0;
    }
  }

  lemma AcceptedCycle(events: seq<Event>, e: Event)
    ensures Accepted(events, e) ==> e.CycleEvent?
  {
  }

  /** The moves of an item are those of its rows. */
  lemma {:induction false} MovesRows(events: seq<Event>, id: int, wide: map<nat, nat>)
    ensures MovesIn(events, id, wide) == MovesOf(RowsIn(events, wide), id)
  {
    if events != [] {
      var g, e := events[..|events|-1], events[|events|-1];
      MovesRows(g, id, wide);
      assert MovesIn(g, id, wide) + [] == MovesIn(g, id, wide);
      if e.MoveItemsEvent? && e.edge in wide {
        var n := Number(RowsIn(g, wide), e.edge, Stretch(g));
        CounterRows(g, e.edge, wide);
        PlacedMoves(g, e.ids, e.edge, wide[e.edge], n, id);
        MovesOfConcat(RowsIn(g, wide), RowsPlaced(g, e.ids, e.edge, wide[e.edge], n), id);
      }
    }
  }

  // ---------------------------------------------------------------- rows are numbered

  /** Every row has the number of earlier rows of its edge and stretch. */
  ghost predicate Numbered(rows: seq<Row>) {
    forall x :: 0 <= x < |rows| ==> rows[x].number == Number(rows[..x], rows[x].edge, rows[x].stretch)
  }

  lemma {:induction false} RowsNumbered(events: seq<Event>, wide: map<nat, nat>)
    ensures Numbered(RowsIn(events, wide))
  {
    if events != [] {
      var g, e := events[..|events|-1], events[|events|-1];
      RowsNumbered(g, wide);
      if e.MoveItemsEvent? && e.edge in wide {
        PlacedNumbered(g, e.ids, e.edge, wide[e.edge], RowsIn(g, wide));
      }
    }
  }

  lemma {:induction false} PlacedNumbered(events: seq<Event>, ids: seq<int>, edge: nat, bw: nat, rows: seq<Row>)
    requires Numbered(rows)
    ensures Numbered(rows + RowsPlaced(events, ids, edge, bw, Number(rows, edge, Stretch(events))))
  {
    var n := Number(rows, edge, Stretch(events));
    var placed := RowsPlaced(events, ids, edge, bw, n);
    if ids == [] {
      assert rows + placed == rows;
    } else {
      var g := RowsPlaced(events, ids[..|ids|-1], edge, bw, n);
      PlacedNumbered(events, ids[..|ids|-1], edge, bw, rows);
      PlacedNumber(events, ids[..|ids|-1], edge, bw, n, edge, Stretch(events));
      NumberConcat(rows, g, edge, Stretch(events));
      if |placed| > |g| {
        assert rows + placed == (rows + g) + [placed[|g|]];
        NumberedMore(rows + g, placed[|g|]);
      }
    }
  }

  lemma NumberedMore(rows: seq<Row>, r: Row)
    requires Numbered(rows) && r.number == Number(rows, r.edge, r.stretch)
    ensures Numbered(rows + [r])
  {
    forall x | 0 <= x < |rows| + 1
      ensures (rows + [r])[x].number == Number((rows + [r])[..x], (rows + [r])[x].edge, (rows + [r])[x].stretch)
    {
      assert (rows + [r])[..x] == rows[..x];
    }
  }

  /** Numbers of an edge in a stretch do not repeat, and run up to how many there are. */
  lemma {:induction false} NumbersApart(rows: seq<Row>, x: nat, y: nat)
    requires Numbered(rows) && x < y < |rows| && rows[x].edge == rows[y].edge && rows[x].stretch == rows[y].stretch
    ensures rows[x].number < rows[y].number
  {
    NumberGrows(rows, x, y);
  }

  lemma {:induction false} NumberGrows(rows: seq<Row>, x: nat, y: nat)
    requires x < y <= |rows|
    ensures Number(rows[..y], rows[x].edge, rows[x].stretch) > Number(rows[..x], rows[x].edge, rows[x].stretch)
    decreases y
  {
    assert rows[..y][..y-1] == rows[..y-1];
    if x < y - 1 {
      NumberGrows(rows, x, y - 1);
    }
  }

  lemma NumberBelow(rows: seq<Row>, x: nat)
    requires Numbered(rows) && x < |rows|
    ensures rows[x].number < Number(rows, rows[x].edge, rows[x].stretch)
  {
    NumberGrows(rows, x, |rows|);
    assert rows[..|rows|] == rows;
  }

  lemma {:induction false} NumberTaken(rows: seq<Row>, edge: nat, stretch: nat, k: nat) returns (x: nat)
    requires Numbered(rows) && k < Number(rows, edge, stretch)
    ensures x < |rows| && rows[x].edge == edge && rows[x].stretch == stretch && rows[x].number == k
  {
    var n := |rows| - 1;
    if k < Number(rows[..n], edge, stretch) {
      assert forall y :: 0 <= y < n ==> rows[..n][..y] == rows[..y];
      x := NumberTaken(rows[..n], edge, stretch, k);
    } else {
      x := n;
    }
  }

  // ---------------------------------------------------------------- when moves coincide

  /** No two moves of items have the same edge, position and cycle. */
  ghost predicate Apart(events: seq<Event>, wide: map<nat, nat>) {
    forall a, i, b, j ::
      0 <= i < |MovesIn(events, a, wide)| && 0 <= j < |MovesIn(events, b, wide)| && (a, i) != (b, j) ==>
        MovesIn(events, a, wide)[i] != MovesIn(events, b, wide)[j]
  }

  /** For every edge and cycle number, moves over the edge come at most in one stretch between
      the beginnings of cycles, and there are at most 256 of them. */
  ghost predicate Neat(events: seq<Event>, wide: map<nat, nat>) {
    var rows := RowsIn(events, wide);
    && (forall x, y ::
          0 <= x < |rows| && 0 <= y < |rows| && rows[x].edge == rows[y].edge && rows[x].cycle == rows[y].cycle ==>
            rows[x].stretch == rows[y].stretch)
    && (forall x :: 0 <= x < |rows| ==> Number(rows, rows[x].edge, rows[x].stretch) <= 256)
  }

  /** No two rows are the same move. */
  ghost predicate Different(rows: seq<Row>) {
    forall x, y :: 0 <= x < y < |rows| ==> MoveOf(rows[x]) != MoveOf(rows[y])
  }

  /** No two moves of items among the rows are the same. */
  ghost predicate ApartRows(rows: seq<Row>) {
    forall a, i, b, j ::
      0 <= i < |MovesOf(rows, a)| && 0 <= j < |MovesOf(rows, b)| && (a, i) != (b, j) ==>
        MovesOf(rows, a)[i] != MovesOf(rows, b)[j]
  }

  /** The move is in some row. */
  ghost predicate InRows(rows: seq<Row>, m: Move) {
    exists x :: 0 <= x < |rows| && MoveOf(rows[x]) == m
  }

  ghost predicate InSome(rows: seq<Row>, m: Move) {
    exists id :: m in MovesOf(rows, id)
  }

  lemma {:induction false} InMovesOf(rows: seq<Row>, m: Move)
    ensures InRows(rows, m) <==> InSome(rows, m)
  {
    if rows != [] {
      hide InRows, InSome;
      var g, r := rows[..|rows|-1], rows[|rows|-1];
      InMovesOf(g, m);
      InMore(g, r, m);
      assert rows == g + [r];
    } else {
      assert forall id :: MovesOf([], id) == [];
    }
  }

  lemma InMore(g: seq<Row>, r: Row, m: Move)
    ensures InRows(g + [r], m) <==> InRows(g, m) || MoveOf(r) == m
    ensures InSome(g + [r], m) <==> InSome(g, m) || MoveOf(r) == m
  {
    hide MoveOf, MovesOf;
    var rows := g + [r];
    assert rows[|g|] == r;
    forall id
      ensures m in MovesOf(rows, id) <==> m in MovesOf(g, id) || (r.id == id && MoveOf(r) == m)
    {
      MovesOfMore(g, r, id);
    }
    if InRows(g, m) {
      var x :| 0 <= x < |g| && MoveOf(g[x]) == m;
      assert rows[x] == g[x];
    }
    if InSome(g, m) {
      var id :| m in MovesOf(g, id);
      assert m in MovesOf(rows, id);
    }
    assert MoveOf(r) == m ==> m in MovesOf(rows, r.id);
  }

  lemma {:induction false} RowsApart(rows: seq<Row>)
    ensures ApartRows(rows) <==> Different(rows)
  {
    if rows != [] {
      hide ApartRows, Different, InRows, InSome, MoveOf, MovesOf;
      var g, r := rows[..|rows|-1], rows[|rows|-1];
      RowsApart(g);
      InMovesOf(g, MoveOf(r));
      DifferentMore(g, r);
      ApartMore(g, r);
      assert rows == g + [r];
    }
  }

  lemma DifferentMore(g: seq<Row>, r: Row)
    ensures Different(g + [r]) <==> Different(g) && !InRows(g, MoveOf(r))
  {
    hide MoveOf;
    var rows := g + [r];
    assert forall x :: 0 <= x < |g| ==> rows[x] == g[x];
    assert rows[|g|] == r;
  }

  lemma MovesOfMore(g: seq<Row>, r: Row, id: int)
    ensures MovesOf(g + [r], id) == MovesOf(g, id) + if r.id == id then [MoveOf(r)] else []
  {
    assert (g + [r])[..|g|] == g;
  }

  lemma ApartMore(g: seq<Row>, r: Row)
    ensures ApartRows(g + [r]) <==> ApartRows(g) && !InSome(g, MoveOf(r))
  {
    hide MovesOf, MoveOf;
    var rows, m, n := g + [r], MoveOf(r), |MovesOf(g, r.id)|;
    forall id
      ensures MovesOf(rows, id) == MovesOf(g, id) + if r.id == id then [m] else []
    {
      MovesOfMore(g, r, id);
    }
    assert MovesOf(rows, r.id)[n] == m;
    if ApartRows(rows) {
      forall id, i | 0 <= i < |MovesOf(g, id)|
        ensures MovesOf(g, id)[i] != m
      {
        assert MovesOf(rows, id)[i] == MovesOf(g, id)[i] && (id, i) != (r.id, n);
      }
      forall a, i, b, j | 0 <= i < |MovesOf(g, a)| && 0 <= j < |MovesOf(g, b)| && (a, i) != (b, j)
        ensures MovesOf(g, a)[i] != MovesOf(g, b)[j]
      {
        assert MovesOf(rows, a)[i] == MovesOf(g, a)[i] && MovesOf(rows, b)[j] == MovesOf(g, b)[j];
      }
    }
    if ApartRows(g) && !InSome(g, m) {
      forall a, i, b, j | 0 <= i < |MovesOf(rows, a)| && 0 <= j < |MovesOf(rows, b)| && (a, i) != (b, j)
        ensures MovesOf(rows, a)[i] != MovesOf(rows, b)[j]
      {
        assert i < |MovesOf(g, a)| ==> MovesOf(rows, a)[i] == MovesOf(g, a)[i];
        assert j < |MovesOf(g, b)| ==> MovesOf(rows, b)[j] == MovesOf(g, b)[j];
        assert i < |MovesOf(g, a)| ==> MovesOf(g, a)[i] in MovesOf(g, a);
        assert j < |MovesOf(g, b)| ==> MovesOf(g, b)[j] in MovesOf(g, b);
      }
    }
  }

  /** The 257th move of a stretch gets the place of the first. */
  lemma TooMany(rows: seq<Row>, edge: nat, stretch: nat)
    requires Numbered(rows) && StretchesDated(rows) && Number(rows, edge, stretch) > 256
    ensures !Different(rows)
  {
    hide Numbered, Number;
    var a := NumberTaken(rows, edge, stretch, 0);
    var b := NumberTaken(rows, edge, stretch, 256);
    assert MoveOf(rows[a]) == MoveOf(rows[b]);
  }

  /** Up to 256 moves in one stretch for each cycle number are different. */
  lemma FewDiffer(rows: seq<Row>, x: nat, y: nat)
    requires Numbered(rows) && x < y < |rows| && rows[x].edge == rows[y].edge && rows[x].cycle == rows[y].cycle
    requires rows[x].stretch == rows[y].stretch && Number(rows, rows[x].edge, rows[x].stretch) <= 256
    ensures MoveOf(rows[x]) != MoveOf(rows[y])
  {
    hide Numbered, Number;
    NumbersApart(rows, x, y);
    NumberBelow(rows, y);
  }

  /** Rows are different moves exactly when the trace is neat. */
  lemma NeatRows(events: seq<Event>, wide: map<nat, nat>)
    ensures Different(RowsIn(events, wide)) <==> Neat(events, wide)
  {
    hide Numbered, Number, StretchesDated, RowsIn;
    var rows := RowsIn(events, wide);
    RowsNumbered(events, wide);
    SameStretch(events, wide);
    if Different(rows) {
      forall x, y | 0 <= x < |rows| && 0 <= y < |rows| && rows[x].edge == rows[y].edge && rows[x].cycle == rows[y].cycle
        ensures rows[x].stretch == rows[y].stretch
      {
        FirstsMeet(rows, x, y);
      }
      forall x | 0 <= x < |rows|
        ensures Number(rows, rows[x].edge, rows[x].stretch) <= 256
      {
        if Number(rows, rows[x].edge, rows[x].stretch) > 256 {
          TooMany(rows, rows[x].edge, rows[x].stretch);
        }
      }
    }
    if Neat(events, wide) {
      forall x, y | 0 <= x < y < |rows|
        ensures MoveOf(rows[x]) != MoveOf(rows[y])
      {
        if rows[x].edge == rows[y].edge && rows[x].cycle == rows[y].cycle {
          FewDiffer(rows, x, y);
        }
      }
    }
  }

  /** The first moves of two stretches of one cycle number get the same place. */
  lemma FirstsMeet(rows: seq<Row>, x: nat, y: nat)
    requires Numbered(rows) && Different(rows) && StretchesDated(rows)
    requires x < |rows| && y < |rows| && rows[x].edge == rows[y].edge && rows[x].cycle == rows[y].cycle
    ensures rows[x].stretch == rows[y].stretch
  {
    NumberBelow(rows, x);
    NumberBelow(rows, y);
    var a := NumberTaken(rows, rows[x].edge, rows[x].stretch, 0);
    var b := NumberTaken(rows, rows[y].edge, rows[y].stretch, 0);
    assert MoveOf(rows[a]) == MoveOf(rows[b]);
    assert a == b;
  }

  /** A stretch has one cycle. */
  ghost predicate StretchesDated(rows: seq<Row>) {
    forall x, y :: 0 <= x < |rows| && 0 <= y < |rows| && rows[x].stretch == rows[y].stretch ==>
      rows[x].cycle == rows[y].cycle
  }

  lemma {:induction false} SameStretch(events: seq<Event>, wide: map<nat, nat>)
    ensures StretchesDated(RowsIn(events, wide))
  {
    if events != [] {
      hide CycleAfter, Stretch, RowsPlaced, Number;
      var g, e := events[..|events|-1], events[|events|-1];
      SameStretch(g, wide);
      RowsDated(g, wide);
      if e.MoveItemsEvent? && e.edge in wide {
        var n := Number(RowsIn(g, wide), e.edge, Stretch(g));
        PlacedRows(g, e.ids, e.edge, wide[e.edge], n);
        PastMore(RowsIn(g, wide), RowsPlaced(g, e.ids, e.edge, wide[e.edge], n), g, e.edge, wide[e.edge], n, wide);
      }
    }
  }

  /** The exact condition: no two moves of a trace coincide if and only if, for every tracked edge
      and cycle number, at most one stretch between the beginnings of cycles with that number
      places moves on the edge, and it places at most 256. */
  lemma ApartNeat(events: seq<Event>, wide: map<nat, nat>)
    ensures Apart(events, wide) <==> Neat(events, wide)
  {
    hide MovesIn, MovesOf, Neat, Different;
    forall id
      ensures MovesIn(events, id, wide) == MovesOf(RowsIn(events, wide), id)
    {
      MovesRows(events, id, wide);
    }
    RowsApart(RowsIn(events, wide));
    NeatRows(events, wide);
  }

  // ---------------------------------------------------------------- traces without coincidences

  /** Later stretches have later cycles. */
  ghost predicate StretchesRise(rows: seq<Row>) {
    forall x, y :: 0 <= x < |rows| && 0 <= y < |rows| && rows[x].stretch < rows[y].stretch ==>
      rows[x].cycle < rows[y].cycle
  }

  ghost predicate PastBefore(rows: seq<Row>, events: seq<Event>) {
    forall x :: 0 <= x < |rows| && rows[x].stretch < Stretch(events) ==> rows[x].cycle < CycleAfter(events)
  }

  lemma {:induction false} RisingRows(events: seq<Event>, canonical: nat, wide: map<nat, nat>)
    requires Regular(events, canonical, wide) && Rising(events)
    ensures StretchesRise(RowsIn(events, wide)) && PastBefore(RowsIn(events, wide), events)
    ensures !Started(events) ==> RowsIn(events, wide) == []
  {
    if events != [] {
      hide CycleAfter, Stretch, RowsPlaced, Number, Started;
      var g, e := events[..|events|-1], events[|events|-1];
      assert g + [e] == events;
      RegularStep(g, e, canonical, wide);
      RisingRows(g, canonical, wide);
      RowsDated(g, wide);
      CycleStep(g, e);
      if e.MoveItemsEvent? && e.edge in wide {
        var n := Number(RowsIn(g, wide), e.edge, Stretch(g));
        PlacedRows(g, e.ids, e.edge, wide[e.edge], n);
        PastMore(RowsIn(g, wide), RowsPlaced(g, e.ids, e.edge, wide[e.edge], n), g, e.edge, wide[e.edge], n, wide);
      }
    }
  }

  /** An edge up to 255 wide has no more moves in a stretch than it is wide. */
  lemma NarrowFew(rows: seq<Row>, edge: nat, stretch: nat, bw: nat)
    requires Numbered(rows) && bw <= 255
    requires forall x :: 0 <= x < |rows| && rows[x].edge == edge ==> rows[x].number % 256 < bw
    ensures Number(rows, edge, stretch) <= bw
  {
    hide Numbered;
    if Number(rows, edge, stretch) > bw {
      var y := NumberTaken(rows, edge, stretch, bw);
    }
  }

  /** When cycles go up and no tracked edge is wider than 255, no two moves coincide. */
  lemma RisingApart(events: seq<Event>, canonical: nat, wide: map<nat, nat>)
    requires Regular(events, canonical, wide) && Rising(events) && forall e :: e in wide ==> wide[e] <= 255
    ensures Neat(events, wide) && Apart(events, wide)
  {
    hide RowsIn, Regular, Rising, Number, Numbered, Apart, Stretch, CycleAfter;
    RisingRows(events, canonical, wide);
    RowsDated(events, wide);
    RowsNumbered(events, wide);
    var rows := RowsIn(events, wide);
    forall x | 0 <= x < |rows|
      ensures Number(rows, rows[x].edge, rows[x].stretch) <= 256
    {
      assert RowPast(rows[x], events, wide);
      assert forall y :: 0 <= y < |rows| ==> RowPast(rows[y], events, wide);
      NarrowFew(rows, rows[x].edge, rows[x].stretch, wide[rows[x].edge]);
    }
    ApartNeat(events, wide);
  }

  /** Items that both made a move coincide. */
  lemma TwoMovers(events: seq<Event>, a: int, b: int, m: Move, wide: map<nat, nat>)
    requires m in MovesIn(events, a, wide) && m in MovesIn(events, b, wide) && a != b
    ensures !Apart(events, wide) && !Neat(events, wide)
  {
    hide MovesIn, Neat;
    var i :| 0 <= i < |MovesIn(events, a, wide)| && MovesIn(events, a, wide)[i] == m;
    var j :| 0 <= j < |MovesIn(events, b, wide)| && MovesIn(events, b, wide)[j] == m;
    assert (a, i) != (b, j);
    ApartNeat(events, wide);
  }

  /** Every move is at a position of a tracked edge. */
  lemma MovesOnEdge(events: seq<Event>, id: int, m: Move, wide: map<nat, nat>)
    requires m in MovesIn(events, id, wide)
    ensures m.edgeid in wide && m.pos < wide[m.edgeid] && m.cycle <= CycleAfter(events)
  {
    hide MovesIn, MovesOf, RowsIn, CycleAfter;
    var rows := RowsIn(events, wide);
    MovesRows(events, id, wide);
    InMovesOf(rows, m);
    RowsDated(events, wide);
    assert m in MovesOf(rows, id);
    var x :| 0 <= x < |rows| && MoveOf(rows[x]) == m;
    assert RowPast(rows[x], events, wide);
  }
}
