# DRAL database verification

Dafny model and proofs for the in-memory database of a DRAL trace: the item/tag heap, the
listener that feeds it from trace events, the tracks with their cycle-indexed vectors, the graph
keys, the levels of the hierarchy graph, and the column shadows of the viewer.

## What is modelled

A trace is a run of events. Items are created, get tag values, move over edges and are deleted;
cycles go by. While an item is live its tags and moves are logged with it. When it is deleted (or
purged) the log is committed: the tags go into the item/tag heap, where each item owns a chain of
four-slot chunks in one shared vector, and the moves go onto tracks, one for each position of each
tracked edge, where they can be looked up by cycle. Chunks of 4096 cycles are packed once they are
cold.

| file | content |
|---|---|
| `TagHistory.dfy` | the entries of one item as a sequence: adding, looking up, histories, repeated values |
| `ChunkChains.dfy` | chains of chunks in a shared vector: shape, ownership, cursors |
| `ItemTagHeap.dfy` | the heap and its cursors, method by method |
| `TagLog.dfy` | the tag log of a live item, what it means, and how it is committed |
| `TagVecs.dfy` | chunks of 4096 cycles: direct, dense and dictionary forms, packing |
| `TagIdVecs.dfy` | the two-level vector over chunks, with lookback and compression |
| `Dict2064.dfy` | the dictionaries of values and their keys |
| `MoveLogs.dfy` | logged and recorded moves: conservation of pending counters |
| `MoveLedger.dfy` | the books of all moves of a run: what is on the tracks, and what a lookup gives |
| `DBGraph.dfy` | nodes, edges, keys of slots, the scanner of slot specifications |
| `TrackHeap.dfy` | the allocator of track ids and the track operations |
| `ListenerBooks.dfy` | what every event does to the books and keeps of them, as values |
| `DBListener.dfy` | the listener, event by event, over the heaps |
| `TraceEvents.dfy` | sequences of events, and what a reader should find, as functions of the events alone |
| `TraceMoves.dfy` | which moves of a trace coincide |
| `TraceLogs.dfy` | the logs of items against the events |
| `TraceRuns.dfy` | header, events and end of a trace, and what is read back at any time |
| `TraceLoads.dfy` | the load of a whole trace, and what is read back of every item afterwards |
| `TraceExamples.dfy` | traces on which the load or a lookup fails |
| `TreeLevels.dfy` | the levels of a hierarchy graph |
| `ColumnShadows.dfy` | the packed flag vector |

State that the program updates in place is a class; its methods are proved against functions of
the old state. `DBListener.Valid` is the invariant over whole runs: the constructor establishes
it and every event keeps it. It says that the heap holds exactly the committed items with all the
values of their logs, that every pending counter equals the number of matching logged moves, that
chunks with pending moves are never packed, that every slot of a track has the item that was the
last to be deleted of those that made its move (and nothing when nobody did), and that a track has
exactly the chunks and the bounds of its moves. `DBListener.Loaded` is what lookups need of it; it
holds after the end of the trace too. Ghost state records which chunks an item owns, the items in
the order they were committed, and the items that were dropped at the end.

`TraceRuns` and `TraceLoads` take this to whole traces. A trace is any sequence of events; it is read
in batches of 4096, and no further when a batch has ended badly. `ExpectedIn` says from the events
alone what a reader should see of a tag, and `MovesIn` which moves an item made. A load comes to the
events that were read with the deletions that the program makes of its own accord woven in: those
that the limit of live items causes, and those at the end, which is also where a flush leads. `ReadTag`
and `ReadMove` show that the heaps answer exactly what these events say, `ReadLoadedTag` and
`ReadLoadedMove` say it in terms of the trace itself.

Findings. For each the exact condition is proved as an if-and-only-if, and a failing input is given
where it is a matter of events:

- A trace is read to its end, without a limit of live items, if and only if from the first cycle up to
  the last batch no cycle goes back and no more items are deleted than the heap has room for
  (`LoadTrace`, `UnbrokenIs`). Otherwise everything behind the batch is lost (`BrokenStops`), and the
  items that are live then are purged when the listener is flushed.
- Stored tag ids have 12 bits: all lookups in an item are right if and only if all its tags have ids
  below 2^12 (`TagIdsFaithful`, `TagIdFails`, `WideIdLost`); a tag of more bits is never found.
- Moves coincide (same edge, position and cycle) unless, for every tracked edge and cycle number, at
  most one stretch between the beginnings of cycles of that number places moves on the edge, and at
  most 256 of them (`ApartNeat`): positions are counted in eight bits, so an edge wider than 255
  reuses them (`PositionsDiffer`, `CrowdedMeets`), and a cycle number that comes again is accepted
  and hands out positions again (`AgainMeets`). A lookup then gives the last to be deleted.
- The lookup of a move between the first and the last recorded move at its position follows a pointer
  to a chunk that was never made when no move was made there in its 4096 cycles (`MoveReadable`,
  `SparseGap`), and so does a forward lookup (`ForwardReadable`, `ForwardGap`). The pointer is null, or
  indeterminate when the whole page of 32 chunks is missing: the vector then allocates the page
  without initialising it.
- Stored cycles have 22 bits (`StoredFaithful`, `StoredFails`).
- A lookup at a cycle before the first one of the trace finds the last value of a tag instead of
  nothing: the difference is unsigned (`EarlyAnswers`, `ReadTag`).
- A cycle number of 2^32 - 1 is taken for -1 and accepted as long as no cycle has come
  (`CycleNumbers`).
- Exact lookups in dictionary chunks miss values that repeat the one before (`ExactLookups`,
  `RepeatLost`).
- Keys decode to their values at every cycle if and only if at most 2^20 different values came
  (`KeysDecode`, `CrowdedDictionary`): the dictionary is picked by the cycle of the value, while a key
  comes from the one that was current when its item was committed.
- `reset` of the heap leaves the lookup cache as it was (`ResetCache`).
- The levels of a hierarchy graph are wrong when a parent that has a parent comes after its child
  (`LevelsInOrder`, `ChildFirst`).

`DralDB::trackMoveItem` is documented to report whether all has gone well, but compares a boolean
with zero and reports success for unknown edges; the model follows the code. The `backpropagate`
argument of lookups is not looked at; the configuration and the trace version decide. A new heap
has the defaults of the configuration (`lib/libdraldb/src/DBConfig.cpp:90-93`).

Hypotheses, stated as preconditions: item ids are not reused in a run; item events come after the
first cycle; moves over tracked edges, and writes to forward vectors, come in the first 256 chunks
(2^20 cycles) from the first cycle on, beyond which the original runs out of its tables; no tag has
the id of the item id tag; the tracked edges together are at most 1024*256 positions wide; a live
item gets at most 2^18 tag values and 2^14 moves. Two more stand behind the model. At most 2^20 different values come, so that a key may
be represented by the value it stands for (`KeysDecode`). The reader of the trace hands over as many
events as it is asked for (4096, or one in the header) unless the trace ends. The number that a file
of shadows gives beyond its end is a parameter.

## Model

| member | source | states |
|---|---|---|
| TraceLoads.LoadTrace | lib/libdraldb/src/DralDB.cpp:205-239 | The whole load of a trace, from a new database over header, tracked edges and batches of 4096 events to the end: the events behind the first batch that ends badly are not read; what is held is what the events read say together with the deletions that the limit caused, the last cycle and, with auto purge, the deletion of exactly the items still live; without a limit everything is read if and only if no batch but the last ends badly (`Unbroken`, in terms of the events in `UnbrokenIs`); configuration and version stay |
| TraceEvents.UnbrokenIs | lib/libdraldb/src/DBListener.cpp:124-131 | The exact condition, on the events, for a trace to be read to its end: from the first cycle up to the last batch no cycle goes back, and no more items are deleted than the heap has room for |
| TraceEvents.OkIs | lib/libdraldb/src/DBListener.cpp:909-913 | From the first cycle on nothing has gone wrong if and only if no cycle was refused and the heap had room for all deleted items |
| TraceExamples.BrokenStops | lib/libdraldb/src/DralDB.cpp:232-237 | The failing trace: a cycle that goes back, some 4096 more events, and an item that is created, set and deleted in order but never read |
| TraceRuns.ProcessAllEvents | lib/libdraldb/src/DralDB.cpp:225-239 | The loop over batches of 4096 events: it stops exactly behind the first batch after which the flag is down, or at the end; what was read up to there comes to its events and the deletions of the limit |
| TraceRuns.ProcessNextEvent | lib/libdraldb/src/DralDB.cpp:234-234 | One batch is read, or nothing is left |
| TraceLoads.NewDatabase | lib/libdraldb/src/DralDB.cpp:74-89 | A new database can be loaded into; its version is 999, repeated values are dropped, and values do not propagate backwards |
| TraceLoads.ReadLoadedTag | lib/libdraldb/src/ItemTagHeap.cpp:648-682 | Whole-trace theorem for tags: after any trace and its end, with auto purge and no limit, every item created by the events read reads back, tag by tag and cycle by cycle, as its events say; items that were live at the end have the tag of the end of the trace with value 1 from the last cycle on (always, when values propagate backwards); of other ids nothing is found. Asked only of the tag that is looked up: that its sets lie in the 22 bit window, and that no other tag of the item has the same 12 bits |
| TraceLoads.ReadLoadedMove | lib/libdraldb/include/asim/TrackHeap.h:369-411 | Whole-trace theorem for moves: after any trace and its end a lookup finds an item exactly when some item made that move, and one that did; when no two moves coincide, exactly the one that did |
| TraceLoads.ClosingSays | lib/libdraldb/src/DBListener.cpp:498-563 | The end of the trace in terms of the events: moves and values stay, exactly the purged items become deleted and get the tag of the end of the trace |
| TraceRuns.ReadTag | lib/libdraldb/src/DBListener.cpp:243-261 | End to end, from events to answers, at any time: a tag of a deleted item has at every cycle the value that its last set event at or before that cycle gave it. Before the first set nothing is found when values do not propagate backwards and the version is 2 or later, and otherwise the value that the first cycle of the tag ended with. Of an item that was not deleted, and of a tag of more than 12 bits, nothing is found; a cycle before the first one is taken for one 2^32 cycles later. Only the sets of this tag on this item must lie in the 22 bit window, and only tags with its 12 bits matter |
| TraceRuns.ReadMove | lib/libdraldb/include/asim/TrackHeap.h:369-411 | End to end for moves, on every trace: the lookup of a position of an edge in a cycle gives the item that was the last to be deleted of those that made this move by the events, and nothing exactly when no deleted item made it; when no two moves coincide it gives exactly the item that made the move |
| TraceRuns.AgreesAlways | lib/libdraldb/src/DralDB.cpp:225-239 | What has been processed can be read back at any time, also before the end of the trace |
| TraceRuns.MoveReadable | lib/libdraldb/src/TagIdVec.cpp:37-91 | The exact condition, on the events, for the lookup of a move to meet no missing chunk: between the first and the last move of a deleted item at the place, some item moved there within the same 4096 cycles |
| TraceRuns.OneMoveEach | lib/libdraldb/src/DBListener.cpp:414-453 | When no two moves of a trace coincide, a track gets at most one move in a cycle, over all items |
| TraceEvents.SettledItem | lib/libdraldb/src/DBListener.cpp:875-947 | Once an item is deleted, by an event or by a purge, it reads by the events up to then, whatever comes after |
| TraceMoves.ApartNeat | lib/libdraldb/src/DBListener.cpp:111-141 | The exact condition for moves to coincide: no two moves of a trace share edge, position and cycle if and only if, for every tracked edge and cycle number, at most one stretch between the beginnings of cycles of that number places moves on the edge, and it places at most 256 |
| TraceMoves.CounterRows | lib/libdraldb/src/DBListener.cpp:391-425 | The position counter of an edge is the number of its moves since the cycle began, in eight bits |
| TraceMoves.MovesRows | lib/libdraldb/src/DBListener.cpp:414-453 | The moves of every item are those of the numbered list of all moves, each at the position that its number gives |
| TraceMoves.RisingApart | lib/libdraldb/src/DBListener.cpp:391-425 | When cycles go up and no tracked edge is wider than 255, no two moves coincide |
| TraceExamples.PositionsDiffer | lib/libdraldb/src/DBListener.cpp:391-425 | On all traces whose cycles go up, moves over an edge never coincide if and only if the edge is not wider than 255 |
| TraceExamples.CrowdedMeets | lib/libdraldb/src/DBListener.cpp:424-425 | The failing trace: 257 moves over a wide edge in one cycle give two items the same position |
| TraceExamples.AgainMeets | lib/libdraldb/src/DBListener.cpp:126-141 | The failing trace: a cycle number that comes again is accepted, positions start again, and two items get the same position in the same cycle |
| TraceExamples.SparseGap | lib/libdraldb/src/TagIdVec.cpp:58-60 | The failing trace: moves at one position in cycles 0 and 8192, and a lookup in cycle 5000 that meets a missing chunk |
| TraceRuns.SetUp | lib/libdraldb/src/DralDB.cpp:205-231 | From the header over the tracked edges to the counters: from then on the listener follows the events, with exactly the existing edges of the list tracked |
| TraceRuns.TrackEdges | lib/libdraldb/include/asim/DralDB.h:285-297 | Exactly the edges of the list that exist become tracked |
| TraceRuns.ProcessHeader | lib/libdraldb/src/DralDB.cpp:205-217 | Reads exactly up to the first cycle event; cycles of the header lead to the cycle and the first cycle that the events give |
| TraceLogs.WithMovesIs | lib/libdraldb/src/DBListener.cpp:414-453 | The listener gives positions exactly as the events say: in the order of the list, to live items, while there is room |
| TraceLogs.ToldMoves | lib/libdraldb/src/DBListener.cpp:379-455 | A move event keeps all logs of moves and all position counters in agreement with the events |
| TraceLogs.KeptDelete | lib/libdraldb/src/DBListener.cpp:463-488 | A deletion, also of an unknown item or when the heap is full, keeps the books in agreement with the events |
| TraceLogs.KeptPurges | lib/libdraldb/src/DBListener.cpp:523-546 | The purges at the end of the trace come to as many set and delete events |
| TraceLogs.GoneMade | lib/libdraldb/src/DBListener.cpp:997-1015 | The moves in the books are those of the events, of deleted and of all items |
| TraceRuns.FollowsHeader | lib/libdraldb/src/DralDB.cpp:225-231 | A listener that has seen only cycles, and whose tracks are set up, agrees with the events |
| DBListeners.DBListener.PropagateFirstCycle | lib/libdraldb/src/DBListener.cpp:195-200 | All position counters start |
| TraceRuns.ProcessEvents | lib/libdraldb/src/DralDB.cpp:234-234 | The events of one batch: whatever they are, every item is live or deleted as the events have it, with the deletions that the limit of live items caused, its logs of tags and moves say what they say, the flag is up exactly when nothing has gone wrong, and the invariant of the listener holds; without a limit there are no other deletions |
| TraceRuns.ProcessCycle | lib/libdraldb/src/DBListener.cpp:111-150 | A cycle, accepted or refused, comes to its event and the deletions that the limit caused in it |
| TraceRuns.ProcessNewItem | lib/libdraldb/src/DBListener.cpp:214-221 | The item becomes live and has no values |
| TraceRuns.ProcessSetTag | lib/libdraldb/src/DBListener.cpp:242-272 | The value counts for a live item and is ignored for others |
| TraceRuns.ProcessMoveItems | lib/libdraldb/src/DBListener.cpp:414-426 | Moves are logged for live items as the events have it, and touch no tag and no other item |
| TraceRuns.ProcessDeleteItem | lib/libdraldb/src/DBListener.cpp:470-486 | A live item is deleted with its log as it was; later sets do not reach it |
| TraceRuns.ProcessEnd | lib/libdraldb/src/DBListener.cpp:498-563 | The end of the trace comes to a last cycle and, with auto purge, the tagging and deletion of exactly the live items, each once; everything can be looked up afterwards |
| TraceLogs.LogExpected | lib/libdraldb/src/DBListener.cpp:917-946 | What the log of an item says is what the events say, backward propagation included |
| TraceLogs.LogWindow | lib/libdraldb/include/asim/ItemTagDef.h:29-50 | The values of a tag in the log of an item fit the 22 bits of stored cycles if and only if its set events of this tag came in the first 2^22 cycles |
| TraceLogs.LogBits | lib/libdraldb/include/asim/ItemTagDef.h:39-39 | A tag shares its 12 bits with no other in the log of an item if and only if it does not in the set events |
| TraceExamples.WideIdLost | lib/libdraldb/include/asim/ItemTagDef.h:39-39 | The failing trace: tag 4100 set on an item, whose bits are those of tag 4 |
| TraceLogs.TellsSet | lib/libdraldb/src/DBListener.cpp:250-260 | Logging a set event keeps the log in agreement with the events, at all tags and cycles |
| DBListeners.DBListener.GetItemTag | lib/libdraldb/src/ItemTagHeap.cpp:648-682 | End to end: for a deleted item, the value of a tag at a cycle is the one given by the last set event at or before that cycle; without one, nothing, or the first value when values propagate backwards by configuration or by a version before 2; nothing for a tag of more than 12 bits; cycles before the first one wrap around |
| TagLogs.CommittedAnswers | lib/libdraldb/src/DBListener.cpp:917-946 | The entries of a committed item answer every lookup of a tag, at every cycle, as its logged set events do, with and without compression of repeated values; asked only of this tag are its window and its own 12 bits |
| TagLogs.EarlyAnswers | lib/libdraldb/src/ItemTagHeap.cpp:521-521 | A lookup at a cycle before the first one wraps around, and is answered as one 2^32 cycles later |
| TraceEvents.ExpectedEarly | lib/libdraldb/src/ItemTagHeap.cpp:1041-1060 | Before the first cycle in which a tag was set: nothing, or with backward propagation the value that this cycle ended with |
| TraceEvents.CycleNumbers | lib/libdraldb/src/DBListener.cpp:124-131 | Cycle numbers are cut to 32 bits with a sign: those from 2^31 on are refused, but for the largest as long as no cycle has come |
| TagLogs.TagIdsFaithful | lib/libdraldb/include/asim/ItemTagDef.h:39-39 | The exact condition for stored tag ids (12 bits): all lookups in a committed item are answered as its log says if and only if all tags set on it have ids below 2^12 |
| TagLogs.TagIdFails | lib/libdraldb/include/asim/ItemTagDef.h:39-39 | The failing input: a value of tag 4100 is found under tag 4 and not under 4100 |
| TagLogs.LoggedSet | lib/libdraldb/src/DBListener.cpp:232-261 | Logging a set event makes its value the last one of its tag from its cycle on and changes nothing else |
| TagLogs.FirstSetIs | lib/libdraldb/src/ItemTagHeap.cpp:1035-1060 | What backward propagation shows is what the last set event of the first cycle of the tag has given it |
| TagLogs.StoredFaithful | lib/libdraldb/include/asim/ItemTagDef.h:29-50 | The exact condition for stored cycles (22 bits): a value set once on a committed item is found at exactly the cycles at which it should be if and only if it was set in the first 2^22 cycles of the trace |
| TagLogs.StoredFails | lib/libdraldb/include/asim/ItemTagDef.h:29-50 | The failing input: a value set in cycle 2^22 of the trace is found in its first cycle |
| DBListeners.DBListener.constructor | lib/libdraldb/src/DBListener.cpp:74-98 | The invariant of all books holds at the start |
| DBListeners.DBListener.NewItem | lib/libdraldb/src/DBListener.cpp:214-228 | An item becomes live with empty logs; the books are kept |
| DBListeners.DBListener.SetTagSingleValue | lib/libdraldb/src/DBListener.cpp:231-278 | A value is logged with its live item, sets of unknown items are ignored, and all of them when item tags are not tracked; the books are kept |
| TagLogs.HasTag | lib/libdraldb/include/asim/DBListener.h:497-540 | Finds the last standing value of the tag from another cycle, and marks exactly the values of this cycle behind it as superseded |
| TagLogs.LoggedOk | lib/libdraldb/src/DBListener.cpp:243-261 | Every run keeps: a node is marked used iff a later node sets its tag in its cycle, and a standing node is mutable iff its tag has a standing value in another cycle |
| DBListeners.DBListener.MoveItems | lib/libdraldb/src/DBListener.cpp:379-455 | Every live item of the list gets the next position of the edge below its bandwidth, in order; unknown items and items beyond the bandwidth are passed over; the books are kept |
| DBListeners.DBListener.LogMove | lib/libdraldb/src/DBListener.cpp:420-426 | One move is logged with its item and counted as pending on its track; the books are kept |
| DBListeners.DBListener.PlaceMoves | lib/libdraldb/src/DBListener.cpp:414-453 | The loop over the moved items, against the function of what they get |
| DBListeners.DBListener.DeleteItem | lib/libdraldb/src/DBListener.cpp:463-488 | A live item is committed and leaves the live items, with the flag as it was, as long as fewer than 2^28 items are committed; an unknown one is ignored |
| DBListeners.DBListener.ComputeDeleteItem | lib/libdraldb/src/DBListener.cpp:875-1021 | Succeeds exactly for a live item when fewer than 2^28 items are committed; then the item is last in the heap with its whole log, all its moves are on the tracks, and no move is refused; the flag goes down exactly when there is no room |
| DBListeners.DBListener.CommitItem | lib/libdraldb/src/DBListener.cpp:902-947 | The item is filed under the next index with all its standing tag values, exactly once, tag by tag in cycle order, when fewer than 2^28 items are committed; all other items stay |
| DBListeners.DBListener.CommitTags | lib/libdraldb/src/DBListener.cpp:917-946 | The loop over the log, with the used marks it sets on the way |
| DBListeners.DBListener.MutableTagDiscriminatorAdder | lib/libdraldb/src/DBListener.cpp:1023-1085 | All values of a mutable tag are sent at once and in order, and marked |
| DBListeners.DBListener.SendTag | lib/libdraldb/src/DBListener.cpp:1054-1056 | One value goes to the entries of the item that is being committed |
| DBListeners.DBListener.RecordMove | lib/libdraldb/src/DBListener.cpp:997-1015 | A logged move is recorded and stops being pending, or is refused and stays pending |
| DBListeners.DBListener.RecordMoves | lib/libdraldb/src/DBListener.cpp:984-1016 | All moves of the item are recorded, none is refused; pending counters stay exact |
| DBListeners.DBListener.Cycle | lib/libdraldb/src/DBListener.cpp:111-150 | Cycles do not go back, and one that would lowers the flag; positions start again; with room in the heap, more live items than the limit are brought down to nine tenths of it, the oldest first; every 4096 calls the tracks are compressed; the books are kept |
| DBListeners.DBListener.StartActivity | lib/libdraldb/src/DBListener.cpp:202-212 | The first cycle becomes cycle zero of listener and heaps |
| DBListeners.DBListener.Advance | lib/libdraldb/include/asim/DBListener.h:542-551 | All position counters start again; the books are kept in the new cycle |
| DBListeners.DBListener.Compress | lib/libdraldb/src/DBListener.cpp:144-147 | A compression round keeps the books |
| DBListeners.DBListener.BeginCycle | lib/libdraldb/src/DBListener.cpp:133-150 | What an accepted cycle brings: new positions, every 4096 calls a compression round, and the limit |
| DBListeners.DBListener.ForceMaxIfiPurge | lib/libdraldb/src/DBListener.cpp:1130-1166 | Removes exactly the number needed to reach nine tenths of the limit (or as many as fit the heap), one by one in cycle order; every survivor was created no earlier than every removed item, and each removed item is committed |
| DBListeners.DBListener.LimitItems | lib/libdraldb/src/DBListener.cpp:149-150 | The limit is checked, and kept |
| ListenerBooks.LimitKept | lib/libdraldb/src/DBListener.cpp:1130-1161 | With room in the heap, no more live items than the limit stay after a cycle |
| ListenerBooks.OldestGone | lib/libdraldb/src/DBListener.cpp:1146-1160 | The first items by cycle are the oldest, whatever the order of equal cycles |
| ListenerBooks.SortByCycle | lib/libdraldb/src/DBListener.cpp:1146-1147 | A permutation in cycle order |
| DBListeners.DBListener.EndSimulation | lib/libdraldb/src/DBListener.cpp:490-569 | Whether or not there is room, what is committed and what is dropped is what deleting the purged items one by one comes to; everything committed can be looked up afterwards; with auto purge and room every live item is committed and no move is pending anywhere; a second call changes nothing |
| DBListeners.DBListener.PurgeAll | lib/libdraldb/src/DBListener.cpp:523-546 | Every live item is tagged as purged at the end of the trace and committed, in any order, as long as there is room |
| DBListeners.DBListener.PurgeItem | lib/libdraldb/src/DBListener.cpp:530-531 | One live item gets the tag and is committed with it |
| DBListeners.DBListener.PurgeRest | lib/libdraldb/src/DBListener.cpp:509-556 | Items that the last cycle committed and those purged afterwards make up all live items |
| DBListeners.DBListener.Finish | lib/libdraldb/src/DBListener.cpp:558-563 | What is still live is dropped, and the tracks are packed for good; lookups stay possible, and with nothing dropped no move is pending |
| DBListeners.DBListener.SetTrackedEdges | lib/libdraldb/src/DBListener.cpp:1196-1217 | Every tracked edge gets a position counter of its own |
| DBListeners.DBListener.TrackMoveItem | lib/libdraldb/include/asim/DralDB.h:285-297 | The edge is tracked if it exists, and no other edge becomes tracked; the call reports success and registers the edge in any case; the books are kept |
| DBListeners.DBListener.AddEdge | lib/libdraldb/src/DBListener.cpp:582-596 | A new edge keeps the books of all moves |
| DBListeners.DBListener.GetMoveItem | lib/libdraldb/include/asim/TrackHeap.h:369-411 | The item that was the last to be deleted of those that made the move is found, or none when nobody did |
| ListenerBooks.BooksClosed | lib/libdraldb/src/DBListener.cpp:558-563 | After the last round the tracks hold what they held, and when nothing was dropped no move is pending |
| MoveLedgers.LedgerMove | lib/libdraldb/src/DBListener.cpp:422-425 | Logging a move keeps the whole ledger |
| MoveLedgers.LedgerRecord | lib/libdraldb/src/DBListener.cpp:997-1006 | Recording a logged move always succeeds and keeps the whole ledger |
| MoveLedgers.LedgerRound | lib/libdraldb/src/TrackHeap.cpp:410-420 | A compression round keeps the whole ledger: what the tracks hold, the counters, and that chunks with pending moves take values |
| MoveLedgers.PackedWhen | lib/libdraldb/src/TagVecItemIdx.cpp:55-91 | A round packs a chunk of a track exactly when no live item has moved there, it lies more than 4096 cycles behind, and fewer than 2047 of its slots are in use |
| MoveLedgers.RoundHolds | lib/libdraldb/src/TrackHeap.cpp:410-420 | Every round, the last one too, keeps all values, chunks and bounds of the tracks |
| MoveLedgers.LedgerGrown | lib/libdraldb/src/TrackHeap.cpp:227-261 | Tracking more edges and nodes keeps the whole ledger |
| MoveLedgers.TracksAnswer | lib/libdraldb/include/asim/TrackHeap.h:394-411 | A position of an edge in a cycle gives the item that was the last to be deleted of those that made the move, and nothing when nobody did |
| MoveLedgers.ReadableExactly | lib/libdraldb/src/TagIdVec.cpp:37-91 | The exact condition, on the logs, for such a lookup to meet no missing chunk |
| MoveLedgers.WithinBounds | lib/libdraldb/src/TagIdVec.cpp:44-53 | The bounds of a track are the first and the last cycle of the moves recorded on it |
| MoveLogs.LoggedConserved | lib/libdraldb/include/asim/TrackHeap.h:496-501 | Each pending counter equals the number of matching moves of live items, after one more move |
| MoveLogs.RecordedConserved | lib/libdraldb/src/DBListener.cpp:997-1006 | A chunk with a pending move is never packed, so recording succeeds and the counters stay exact |
| MoveLogs.RoundKeeps | lib/libdraldb/src/TagVecItemIdx.cpp:55-91 | A round packs no chunk that still expects values, so pending counters stay exact |
| MoveLogs.RecordSlot | lib/libdraldb/include/asim/TrackHeap.h:454-455 | Recording a move gives its slot the item and changes no other slot |
| MoveLogs.TracksDistinct | lib/libdraldb/src/TrackHeap.cpp:244-260 | Tracks of different positions or edges are different, and in range |
| ItemTagHeaps.ItemTagHeap.constructor | lib/libdraldb/src/ItemTagHeap.cpp:73-91 | An empty heap of the right shape, of version 999, without backward propagation |
| ItemTagHeaps.ItemTagHeap.Reset | lib/libdraldb/src/ItemTagHeap.cpp:108-114 | Empties the heap but not the lookup cache |
| ItemTagHeaps.ResetCache | lib/libdraldb/src/ItemTagHeap.cpp:108-114 | After a reset the cache agrees with the heap if and only if it was empty |
| ItemTagHeaps.ItemTagHeap.NewItemBlock | lib/libdraldb/include/asim/ItemTagHeap.h:196-214 | A new item without entries at the next index, or -1 when there are 2^28 items; all other items stay |
| ItemTagHeaps.ItemTagHeap.NewTag | lib/libdraldb/src/ItemTagHeap.cpp:152-235 | The entries of the item become those with the value added under the low 12 bits of the tag id, no other item changes, the shape of the heap is kept |
| ItemTagHeaps.ItemTagHeap.FindTag | lib/libdraldb/src/ItemTagHeap.cpp:164-176 | Stops at the first entry of the tag, or finds that there is none |
| ItemTagHeaps.ItemTagHeap.PassRun | lib/libdraldb/src/ItemTagHeap.cpp:189-210 | Ends behind the run of the tag and returns its last entry |
| ItemTagHeaps.ItemTagHeap.AddToRun | lib/libdraldb/src/ItemTagHeap.cpp:177-224 | Flags the tag as mutable, drops a repeated value if so configured, and adds the value behind the run |
| ItemTagHeaps.ItemTagHeap.AddBehindRun | lib/libdraldb/src/ItemTagHeap.cpp:213-231 | The gap behind the run is opened and filled, or the entry goes to the end |
| ItemTagHeaps.ItemTagHeap.NewTagSet | lib/libdraldb/src/ItemTagHeap.cpp:122-147 | One entry for every value of the set, under the low 12 bits of the tag id, at the end of the item |
| ItemTagHeaps.ItemTagHeap.AllocateNewSlot | lib/libdraldb/src/ItemTagHeap.cpp:1084-1135 | One more slot at the end of the chain, across chunks; chains stay rising, disjoint and full but for the last chunk |
| ItemTagHeaps.ItemTagHeap.LastChunkOf | lib/libdraldb/src/ItemTagHeap.cpp:1103-1110 | Following the links ends at the last chunk of the chain |
| ItemTagHeaps.ItemTagHeap.ShiftSlot | lib/libdraldb/src/ItemTagHeap.cpp:1143-1175 | Opens a gap: the first simple entry from the cursor on goes to the end, the mutable and set entries before it move up by one |
| TagHistory.OpenedHistory | lib/libdraldb/src/ItemTagHeap.cpp:1143-1175 | Opening a gap and filling it loses no entry: each tag keeps its values in their order, across the eviction |
| TagHistory.OpenedWellFormed | lib/libdraldb/src/ItemTagHeap.cpp:1143-1175 | A tag that was one contiguous run stays one, and a simple entry stays alone |
| TagHistory.WithTagWellFormed | lib/libdraldb/src/ItemTagHeap.cpp:152-235 | Kept for every tag that does not share its bits with the added one: the tag is one run, and an entry of it that is neither mutable nor in a set is its only one |
| TagHistory.WithTagHistory | lib/libdraldb/src/ItemTagHeap.cpp:152-235 | Adding a value extends exactly the history of its tag and leaves alone every other history of the item but those of tags with the same 12 bits |
| TagHistory.WithSetHistory | lib/libdraldb/src/ItemTagHeap.cpp:122-147 | A set that is added once becomes the run of its tag and leaves every other history alone |
| TagHistory.SetAnswer | lib/libdraldb/src/ItemTagHeap.cpp:518-526 | A set of values is found from its cycle on by its first value, before only with backward propagation |
| TagHistory.AnswerIsLatest | lib/libdraldb/src/ItemTagHeap.cpp:1035-1077 | The answer of the heap is the latest value of the history at or before the cycle |
| TagHistory.CompressionInvisible | lib/libdraldb/src/ItemTagHeap.cpp:187-211 | Dropping repeated values cannot be seen by any lookup of a value |
| ItemTagHeaps.ItemTagHeap.GetMutableTagValue | lib/libdraldb/src/ItemTagHeap.cpp:1035-1077 | The value and cycle of the answer of a mutable tag; before its first cycle found exactly with backward propagation or a version before 2 |
| ItemTagHeaps.ItemTagHeap.GetTagById | lib/libdraldb/src/ItemTagHeap.cpp:648-682 | The answer for a tag of an item at a cycle, over configuration and version; the item id is a tag of its own |
| ItemTagHeaps.ItemTagHeap.GetTagPosition | lib/libdraldb/src/ItemTagHeap.cpp:691-714 | The cursor ends at the first entry of the tag |
| ItemTagHeaps.ItemTagHeap.GetTag | lib/libdraldb/src/ItemTagHeap.cpp:496-538 | The answer for the tag under the cursor; before its first cycle found exactly with backward propagation or a version before 2 |
| ItemTagHeaps.ItemTagHeap.IsLast | lib/libdraldb/src/ItemTagHeap.cpp:780-800 | True at the last entry of the item, and at the id of an item without entries |
| ItemTagHeaps.ItemTagHeap.SkipToNextEntry | lib/libdraldb/src/ItemTagHeap.cpp:277-315 | One entry on, in the order of the chain; at the end the cursor is invalidated and stays |
| ItemTagHeaps.ItemTagHeap.SkipToNextTag | lib/libdraldb/src/ItemTagHeap.cpp:325-355 | On to the start of the next run |
| ItemTagHeaps.ItemTagHeap.DumpItem | lib/libdraldb/src/ItemHandler.cpp:50-70 | The walk from a cursor sees every entry behind it once, in order, and ends |
| ItemTagHeaps.ItemTagHeap.TagList | lib/libdraldb/src/ItemTagHeap.cpp:325-355 | The walk over tags sees the runs in order, and ends |
| ItemTagHeaps.RunTagsOnce | lib/libdraldb/src/ItemTagHeap.cpp:325-355 | In well-formed entries the runs are the tags of the item, each exactly once and in the order of the entries |
| ItemTagHeaps.ItemTagHeap.RewindToFirstTagValue | lib/libdraldb/src/ItemTagHeap.cpp:366-393 | Ends at the first entry of the tag, also when it does nothing |
| ItemTagHeaps.ItemTagHeap.ResetTagState | lib/libdraldb/src/ItemTagHeap.cpp:1185-1196 | The cursor points to the item id |
| ItemTagHeaps.ItemTagHeap.LookForItemId | lib/libdraldb/src/ItemTagHeap.cpp:403-440 | Finds what the cache has or what the linear search finds; with a cache in agreement these are the same |
| ItemTagHeaps.ItemTagHeap.LinearSearch | lib/libdraldb/src/ItemTagHeap.cpp:416-430 | The first item with the id |
| ItemTagHeaps.CacheKept | lib/libdraldb/include/asim/ItemTagHeap.h:196-214 | A new id keeps the cache in agreement with the linear search, whatever was evicted |
| ItemTagHeaps.ItemTagHeap.GetFirstItem | lib/libdraldb/src/ItemTagHeap.cpp:450-464 | The oldest item |
| ItemTagHeaps.ItemTagHeap.GetLastItem | lib/libdraldb/src/ItemTagHeap.cpp:473-487 | The newest item, when ids are not reused |
| ChunkChains.ChunkAllocated | lib/libdraldb/src/ItemTagHeap.cpp:1085-1135 | A fresh chunk keeps the shape and appends one slot to one item |
| ChunkChains.SlotAllocated | lib/libdraldb/src/ItemTagHeap.cpp:1112-1121 | A free slot of the last chunk keeps the shape and appends one slot to one item |
| ChunkChains.SlotWritten | lib/libdraldb/src/ItemTagHeap.cpp:216-231 | Writing a slot changes one entry of one item |
| ChunkChains.ItemAdded | lib/libdraldb/include/asim/ItemTagHeap.h:196-214 | A new item changes no other chain |
| ChunkChains.OpenedBehind | lib/libdraldb/src/ItemTagHeap.cpp:1158-1174 | The recursive step of opening a gap |
| TagLogs.SendingPlain | lib/libdraldb/src/DBListener.cpp:934-937 | A value that is not mutable is the only standing one of its tag, and is sent once |
| TagLogs.SendingFirst | lib/libdraldb/src/DBListener.cpp:1052-1056 | When a mutable node comes up, none of its tag has been sent |
| TagLogs.SendingMore | lib/libdraldb/src/DBListener.cpp:1063-1083 | Each further standing value of the tag is sent once, in order |
| TagLogs.SendingAll | lib/libdraldb/src/DBListener.cpp:1023-1085 | Afterwards the history of the tag is complete and no other has changed |
| TagIdVecs.ForwardAnswers | lib/libdraldb/src/TagIdVec.cpp:36-92 | A forward vector answers with the latest write at or before the cycle over all chunks, past the last write with the last one, whatever compression rounds came between the writes, as long as no chunk is missing |
| TagIdVecs.ForwardReadable | lib/libdraldb/src/TagIdVec.cpp:72-82 | The exact condition on the writes, among rounds, for a forward lookup to meet no missing chunk: the natural chunk has been written to, and if that was only after the cycle so has the one before it |
| TagIdVecs.ForwardGap | lib/libdraldb/src/TagIdVec.cpp:72-82 | The failing input: writes in cycles 0 and 8192 and a lookup in cycle 5000 |
| TagIdVecs.ExactAnswers | lib/libdraldb/src/TagIdVec.cpp:66-73 | A vector with a dictionary that is not forward, over any writes and rounds: a cycle that was not written gives nothing; a written one gives the first value written in it that does not repeat the one before it in its 4096 cycles, and nothing exactly when all do |
| TagIdVecs.ExactReadable | lib/libdraldb/src/TagIdVec.cpp:58-60 | The exact condition for such a lookup to meet no missing chunk: outside the bounds, or something was written in its 4096 cycles |
| TagIdVecs.ItemAnswers | lib/libdraldb/src/TagIdVec.cpp:37-91 | A vector of item indices, forward or not, over any writes and rounds: the last value written in exactly this cycle, in 31 bits; a forward one keeps that of its last cycle |
| TagIdVecs.PackedRound | lib/libdraldb/src/TagIdVec.cpp:163-196 | What a round packs: behind by more than a chunk (or in the last round), not write enabled, and fewer than 2047 of 4096 values; with a dictionary, left behind and fewer than 3072 words |
| TagIdVecs.CompressedAnswers | lib/libdraldb/src/TagIdVec.cpp:163-196 | Compression changes no answer of any vector at any cycle |
| TagIdVecs.EnsuredAnswers | lib/libdraldb/include/asim/TagIdVec.h:213-259 | A chunk that is put in place holds nothing, no other chunk changes, and no lookup that met no missing chunk changes |
| TagIdVecs.TagIdVecNode.GetTagValue | lib/libdraldb/src/TagIdVec.cpp:36-92 | The two-level lookup with its loop back over chunks |
| TagIdVecs.TagIdVecNode.AddTagValue | lib/libdraldb/include/asim/TagIdVec.h:152-170 | The bounds move and the value goes into its chunk, unless that is packed |
| TagIdVecs.TagIdVecNode.IncPendingCnt | lib/libdraldb/include/asim/TagIdVec.h:321-327 | One more pending move of the chunk of the cycle |
| TagIdVecs.TagIdVecNode.DecPendingCnt | lib/libdraldb/include/asim/TagIdVec.h:334-340 | One pending move less of the chunk of the cycle |
| TagIdVecs.TagIdVecNode.CompressYourSelf | lib/libdraldb/src/TagIdVec.cpp:163-196 | Exactly the chunks of the round are replaced by their compressed forms, none from 256 on |
| TagVecs.PackedSame | lib/libdraldb/src/TagVecDenseShortItemIdx.cpp:30-55 | A packed chunk holds exactly the used offsets and values if and only if all values fit its width |
| TagVecs.PackedRising | lib/libdraldb/src/TagVecDenseItemIdx.cpp:30-55 | Packed offsets are in order |
| TagVecs.FindUsed | lib/libdraldb/include/asim/TagVecItemIdx.h:149-163 | A slot of the direct form is the lookup of its cycle |
| TagVecs.TagVecItemIdx.constructor | lib/libdraldb/src/TagVecItemIdx.cpp:34-43 | An empty chunk |
| TagVecs.TagVecItemIdx.AddTagValue | lib/libdraldb/include/asim/TagVecItemIdx.h:99-110 | The slot of the cycle takes the value |
| TagVecs.ValueKept | lib/libdraldb/include/asim/TagVecItemIdx.h:99-110 | A value is given back as it was if and only if it has 31 bits |
| TagVecs.TagVecDense.AddTagValue | lib/libdraldb/include/asim/TagVecDenseItemIdx.h:95-99 | A packed chunk takes no value |
| TagVecs.TagVecItemIdx.GetTagValue | lib/libdraldb/include/asim/TagVecItemIdx.h:149-163 | The value of the slot, if it is used |
| TagVecs.TagVecItemIdx.IncPendingCnt | lib/libdraldb/include/asim/TagVec.h:113-120 | Counts up and enables writing |
| TagVecs.TagVecItemIdx.DecPendingCnt | lib/libdraldb/include/asim/TagVec.h:126-135 | Counts down; the last one disables writing |
| TagVecs.TagVecItemIdx.CompressYourSelf | lib/libdraldb/src/TagVecItemIdx.cpp:55-91 | Packs a cold chunk that has fewer than 2047 values, and no other, in 20 bits exactly when all values fit; the packed chunk has exactly the same values |
| TagVecs.TagVecDense.FromItems | lib/libdraldb/src/TagVecDenseItemIdx.cpp:30-55 | Counts and copies the used slots; the values are kept iff they fit |
| TagVecs.TagVecDense.FromDictionary | lib/libdraldb/src/TagVecDenseDictionary.cpp:37-58 | A copy of the entries in use |
| TagVecs.TagVecDense.GetTagValue | lib/libdraldb/include/asim/TagVecDenseItemIdx.h:139-157 | Exact lookup by scanning |
| TagVecs.TagVecDense.GetTagValueFwd | lib/libdraldb/include/asim/TagVecDenseDictionary.h:126-145 | The latest entry at or before the cycle, by scanning |
| TagVecs.ScanExact | lib/libdraldb/include/asim/TagVecDictionaryNF.h:82-100 | The first entry of exactly this cycle |
| TagVecs.ScanLatest | lib/libdraldb/include/asim/TagVecDictionary.h:176-194 | The last entry at or before this cycle |
| TagVecs.TagVecDictionary.AddTagValue | lib/libdraldb/include/asim/TagVecDictionary.h:96-118 | Appends the value unless it repeats the one before it |
| TagVecs.TagVecDictionary.GetTagValue | lib/libdraldb/include/asim/TagVecDictionaryNF.h:82-100 | Exact lookup in a dictionary chunk |
| TagVecs.TagVecDictionary.GetTagValueFwd | lib/libdraldb/include/asim/TagVecDictionary.h:176-194 | Forward lookup in a dictionary chunk |
| TagVecs.TagVecDictionary.CompressYourSelf | lib/libdraldb/src/TagVecDictionary.cpp:66-80 | Packs exactly a chunk that the simulation has left and that has fewer than 3072 entries |
| TagVecs.ExactLookups | lib/libdraldb/include/asim/TagVecDictionaryNF.h:82-100 | A dictionary chunk answers all exact lookups of cycles it was given if and only if no value was given twice in a row: the repeated one is dropped and not found |
| TagVecs.RepeatLost | lib/libdraldb/include/asim/TagVecDictionary.h:96-118 | The failing input: the same value in two cycles is kept once and not found at the second |
| Dictionaries.KeysDecode | lib/libdraldb/include/asim/Dict2064.h:131-176 | The exact condition for keys to stand for their values: every key that was given decodes to its value at every cycle if and only if at most 2^20 different values came |
| Dictionaries.CrowdedDictionary | lib/libdraldb/include/asim/Dict2064.h:137-147 | The failing input: 2^20 + 1 values in one cycle, after which the key of the first decodes, in that cycle, to the last |
| Dictionaries.OneDictionary | lib/libdraldb/include/asim/Dict2064.h:138-142 | A second dictionary is opened exactly when more than 2^20 different values came |
| Dictionaries.Dict2064.constructor | lib/libdraldb/src/Dict2064.cpp:67-72 | One empty dictionary from cycle 0 on |
| Dictionaries.Dict2064.GetKeyFor | lib/libdraldb/include/asim/Dict2064.h:131-150 | A value keeps its key in the current dictionary, gets the next one, or key 0 of a new dictionary that starts in its cycle when there are 2^20 values; the hash agrees with the current dictionary |
| Dictionaries.Dict2064.GetValueByCycle | lib/libdraldb/include/asim/Dict2064.h:159-176 | The value under the key in the last dictionary before the first that starts behind the cycle |
| TrackHeaps.TrackHeap.constructor | lib/libdraldb/src/TrackHeap.cpp:79-102 | No tracks |
| TrackHeaps.TrackHeap.Reset | lib/libdraldb/src/TrackHeap.cpp:319-332 | No tracks; the track of the cycle tags is still remembered |
| TrackHeaps.TrackHeap.AllocateTrack | lib/libdraldb/src/TrackHeap.cpp:142-149 | The next track id, with one owner |
| TrackHeaps.TrackHeap.TrackNodeTags | lib/libdraldb/src/TrackHeap.cpp:115-148 | A slot of a known node keeps its track or gets a new one; exactly this slot becomes tracked, of all slots of all nodes; every track id keeps exactly one owner |
| TrackHeaps.TrackHeap.TrackEnterNode | lib/libdraldb/src/TrackHeap.cpp:154-184 | A slot of a known node gets a new track, once; exactly this slot becomes tracked |
| TrackHeaps.TrackHeap.TrackExitNode | lib/libdraldb/src/TrackHeap.cpp:191-221 | A slot of a known node gets a new track, once; exactly this slot becomes tracked |
| TrackHeaps.TrackHeap.TrackTwoSlots | lib/libdraldb/src/TrackHeap.cpp:115-184 | Two slots get tracks of their own exactly when they are different slots of a node or slots of different nodes, for tags and for entering items |
| TrackHeaps.TrackHeap.KeysApart | lib/libdraldb/src/TrackHeap.cpp:125-126 | Slots have the same key exactly when node and slot list are the same |
| TrackHeaps.TrackHeap.TrackCycleTags | lib/libdraldb/src/TrackHeap.cpp:304-312 | A new track on every call; the latest is remembered |
| TrackHeaps.TrackHeap.TrackMoveItem | lib/libdraldb/src/TrackHeap.cpp:227-261 | A known edge gets one track for each position, once |
| TrackHeaps.SlotsApart | lib/libdraldb/src/TrackHeap.cpp:125-141 | Two slots of nodes share a track if and only if they are the same slot tracked for the same events |
| TrackHeaps.TrackHeap.IncPendingCnt | lib/libdraldb/include/asim/TrackHeap.h:496-501 | One more move is pending in the chunk of the cycle of that track, in no other, and no value changes |
| TrackHeaps.TrackHeap.DecPendingCnt | lib/libdraldb/include/asim/TrackHeap.h:509-514 | One move less is pending in the chunk of the cycle of that track, in no other, and no value changes |
| TrackHeaps.TrackHeap.AddMoveItem | lib/libdraldb/include/asim/TrackHeap.h:419-455 | Refuses exactly unknown edges, untracked edges and positions beyond the bandwidth |
| TrackHeaps.TrackHeap.GetMoveItem | lib/libdraldb/include/asim/TrackHeap.h:369-411 | A valid handler at the id of the item that the track gives, else an invalid one: for unknown or untracked edges, positions beyond the bandwidth, and all cycles outside the bounds of the track |
| TrackHeaps.TrackHeap.CompressYourSelf | lib/libdraldb/src/TrackHeap.cpp:410-420 | All tracks go through the round |
| DBGraphs.KeysInjective | lib/libdraldb/src/DBGraph.cpp:255-283 | Two slots have the same key if and only if node, instance and slot list are the same, for base names without braces |
| DBGraphs.KeySpelled | lib/libdraldb/src/DBGraph.cpp:255-283 | How keys are spelled: name, instance in braces, slots in braces with commas; a name without instance is that of instance 0 |
| DBGraphs.FetchSpelled | lib/libdraldb/src/DBGraph.cpp:255-283 | An example: slots 1 and 20 of fetch |
| DBGraphs.JoinedInjective | lib/libdraldb/src/DBGraph.cpp:275-281 | Different slot lists print differently |
| DBGraphs.NumberValue | lib/libdraldb/src/DBGraph.cpp:278-278 | A printed number reads back |
| DBGraphs.SlotedNodeName | lib/libdraldb/src/DBGraph.cpp:267-283 | The loop prints the key |
| DBGraphs.DecodeNodeSlot | lib/libdraldb/src/DBGraph.cpp:285-352 | The name before the semicolon, normalized, and all numbers after it in order; fails exactly when a number is too large |
| DBGraphs.ScanNumbers | lib/libdraldb/src/DBGraph.cpp:311-331 | The scan for runs of digits finds all numbers and ends |
| DBGraphs.SearchDigit | lib/libdraldb/src/DBGraph.cpp:316-317 | The search for the next run of digits skips no number |
| DBGraphs.ScanJoined | lib/libdraldb/src/DBGraph.cpp:311-331 | The scan of a printed slot list returns the list, and refuses it exactly when a number has more than 32 bits |
| DBGraphs.NumbersApart | lib/libdraldb/src/DBGraph.cpp:311-331 | Any character that is no digit separates numbers: those before it come before those behind |
| DBGraphs.DecodePrinted | lib/libdraldb/src/DBGraph.cpp:285-352 | Decoding a name and a printed slot list returns both, and refuses exactly slots of more than 32 bits |
| DBGraphs.DBGraph.AddNode | lib/libdraldb/src/DBGraph.cpp:177-209 | A node is added iff its id and its name are new; both node lists stay in agreement |
| DBGraphs.DBGraph.AddEdge | lib/libdraldb/src/DBGraph.cpp:218-253 | An edge is added iff its id is new and both ends are known |
| TreeLevels.NodeDB.ProduceTreeEdges | tools/vcgDreams/vcgdListener.cpp:182-220 | The levels are those of a tree if and only if every parent comes before its child or has no parent itself; they fit 16 bits |
| TreeLevels.NodeDB.AddNode | tools/vcgDreams/vcgdNode.cpp:64-74 | A node is added unless its id is taken, no other node changes, and the pass over the nodes can still be made |
| TreeLevels.LevelsInOrder | tools/vcgDreams/vcgdListener.cpp:198-216 | The exact condition under which one pass in the order of ids gives tree levels |
| TreeLevels.ChildFirst | tools/vcgDreams/vcgdListener.cpp:198-216 | The failing input: node 1 under 2 under 3 gets the level of 2 |
| TreeLevels.LevelIsDepth | tools/vcgDreams/vcgdListener.cpp:208-208 | In tree order so many steps up, and no fewer, end at a root |
| ColumnShadows.ColumnShadows.constructor | lib/libagt/src/ColumnShadows.cpp:26-34 | All columns clear |
| ColumnShadows.ColumnShadows.Resize | lib/libagt/src/ColumnShadows.cpp:41-59 | Columns that stay keep their flags, new ones are clear |
| ColumnShadows.ColumnShadows.ShadeColumn | lib/libagt/src/ColumnShadows.cpp:61-70 | One flag changes and no other; a column that is not there is ignored |
| ColumnShadows.ColumnShadows.GetShadeFlag | lib/libagt/src/ColumnShadows.cpp:72-74 | The flag of the column |
| ColumnShadows.ColumnShadows.Clear | lib/libagt/src/ColumnShadows.cpp:76-81 | The bytes that are cleared cover all flags |
| ColumnShadows.ColumnShadows.CountShadowedColumns | lib/libagt/src/ColumnShadows.cpp:83-92 | The number of shaded columns |
| ColumnShadows.ColumnShadows.SaveShadows | lib/libagt/src/ColumnShadows.cpp:94-112 | Magic number, count, and the shaded columns in order |
| ColumnShadows.ColumnShadows.LoadShadows | lib/libagt/src/ColumnShadows.cpp:114-140 | A file that does not start with 0xfedefed0, or has a negative count, changes nothing; otherwise exactly the listed columns are shaded on top; a file that ends early lists one and the same number for the rest |
| ColumnShadows.ColumnShadows.SaveAndLoad | lib/libagt/src/ColumnShadows.cpp:94-140 | Saving, clearing and loading the file restores all flags |
| ColumnShadows.BitSet | lib/libagt/src/ColumnShadows.cpp:66-69 | Masking and setting one bit of a byte changes that bit only |
| ColumnShadows.FlagsSet | lib/libagt/src/ColumnShadows.cpp:66-69 | Setting one packed flag sets one abstract flag |
| ColumnShadows.LoadedFlags | lib/libagt/src/ColumnShadows.cpp:133-139 | Loading shades exactly the listed columns besides those that were shaded |
| ColumnShadows.ShadedAll | lib/libagt/src/ColumnShadows.cpp:105-111 | Exactly the shaded columns are saved |
| ColumnShadows.ShadedInOrder | lib/libagt/src/ColumnShadows.cpp:105-111 | They are saved once each, in increasing order |
| ColumnShadows.SavedLoaded | lib/libagt/src/ColumnShadows.cpp:94-140 | Loading a saved list into any vector restores the columns both have |
| ColumnShadows.SavedRestored | lib/libagt/src/ColumnShadows.cpp:94-140 | Loading a saved list into a cleared vector of the same width restores it |

## Left out

- Tag names, their descriptions and their numbering: tag ids are given.
- String tags, and sets of values in logs: the listener rejects mutable sets; only single values are logged here. `NewTagSet` models the heap side of sets.
- Events that items enter or leave nodes, and the values of node and cycle tags on tracks: of the vectors of a track only the item indices of edges are kept.
- The counter of cycles across listeners: calls of `Cycle` are counted for each listener, not for all of them together.
- External listeners, progress dialogs and their cancel button, warnings, logs and statistics.
- The limits of the vectors of the heap, beyond which the original runs out of its tables.
- `DralDB::trackMoveItem` by names (`lib/libdraldb/include/asim/DralDB.h:478-486`): it tracks an edge without registering it, so that the edge shares the position counter of slot 0.
- Events of the graph behind the header, which put the flag of the last event up again.
- Aliasing of the vectors of tracks: `TrackHeap` holds them as values, and `TagIdVecs.TagIdVecNode` shows the same operations in place; chunk objects are likewise values inside a vector, and in place in `TagVecs`.
- The dictionary of values inside heap and chunks, which hold the values themselves: by `Dictionaries.KeysDecode` the same lookups while at most 2^20 different values came. The hash inside `Dict2064`, the string table, and the hashing of the item list and of the caches are maps and sequences with the same lookups, evicting as they like.
- Values that are stored in no entry of a dictionary: memory that was never written is `None`.
- The spare read one past the entries in use of dense chunks, whose result is not used.
- Searching items by value, the variants of `getTag` that also return descriptions, and `getTagByName`.
- Reading and writing of trace and shadow files: a saved shadow vector is a list of numbers.
- Negative column numbers, and node names with braces.
- Version events and the setters of the configuration: a new heap has the defaults, and what lookups give is stated for all values of the two fields that decide.
- Everything that draws, in `tools/vcgDreams/vcgdListener.cpp` too.
- DBListeners.DBListener.Cycle: does not model the purge of items by age, whose loop does not get past an item that is too young.
- DBListeners.DBListener.NewItem: does not model ids that come again, nor items before the first cycle.
- TraceRuns.ProcessEvents: is stated with item tags tracked, as the listener does unless it is told not to.
- DBListeners.DBListener.SetTrackedEdges: is called before any item is known, as `DralDB::processAllEvents` does.
