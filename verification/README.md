# Spider FM: modulation-routing graph and edit state machine

This project models the core of the Spider six-operator FM module. Its
operators modulate one another along the edges of a directed graph, and the
graph must stay free of cycles. The model covers:

- `ph::DirectedGraph` (`src/DirectedGraph.hpp`). It keeps a forward adjacency
  structure (`adjList`) and its transpose (`reverseAdjList`). Edges are added
  with a depth-first cycle check and rolled back on a cycle. Edges are removed
  with the erase-remove idiom. Toggling covers three cases. Kahn's algorithm
  gives the operator evaluation order.
- The operator button gesture of `Spider::processEdit` (`src/Spider.cpp`).
  A first press selects an operator. A second press on the same operator
  flips its carrier flag. A press on another operator toggles the edge from
  the selected operator, updates the connection-matrix light and recomputes
  the topological order. If the edge would close a cycle, the press aborts
  the pass and raises `cycleDetected`.
- The carrier mix and hard clip in `Spider::process`.
- The level and wave-position clamps of `processOperator`.
- `onReset`, together with the light helpers it uses.

There are three modules:

- `GraphTheory` holds value-level definitions and lemmas: paths, cycles,
  topological orders, order-preserving removal, occurrence counts and
  pending in-degrees.
- `DirectedGraphs` holds the class `DirectedGraph`. Its fields `adj` and
  `rev` are `seq<seq<nat>>` that the methods reassign. `IsCyclicHelper`
  works on `visited`/`recStack` arrays, and `TopologicalSort` on an
  `inDegree` array with a queue.
- `SpiderCore` holds the class `Spider`. It has the graph, a `carriers`
  array, a `lights` array, `topologicalOrder`, `selectedOperator` and
  `cycleDetected`.

Each method is proved against a specification:

- `DirectedGraph.AddEdge`, `RemoveEdge` and `ToggleEdge` produce exactly
  `AddEdgeSpec`, `RemoveEdgeSpec` and `ToggleEdgeSpec` of the old lists.
- `IsCyclic` returns true exactly when a directed cycle exists.
- `TopologicalSort` returns exactly `KahnOrder`, the output of a functional
  rendering of the same loop; on an acyclic graph that is a topological order.
- `Spider.ProcessEdit` returns, as ghost values, the sequence of states it
  passes through. Each step is one `PressStep`: the exact effect of one
  button press. The pressed operators are taken in increasing order, up to
  and including the first press that aborts.
- `Spider.Valid()` states that the graph is mirrored and acyclic, that the
  operator order is a topological order of the graph, and that the lights
  show the graph's edges and the carrier flags. The constructor establishes
  it; `Press`, `FlipCarrier`, `ToggleConnection`, `VisitOperator`,
  `ProcessEdit` and `OnReset` keep it. The light helpers
  `SetConnectionLights`, `SetCarrierLights`, `ClearConnectionLights` and
  `WriteEdgeLight` run on the states in between, so they neither require
  nor ensure it; their contracts state what they do to the lights.

Brightnesses, voltages and knob values are floats in the module; here they
are `real`. Button edges (the `BooleanTrigger`s) become the `pressed`
parameter of `ProcessEdit`, and the operator outputs become the `outs`
parameter of `MixOutput`.

The toggle semantics follow `src/DirectedGraph.hpp` as written. When the
reverse edge exists, `toggleEdge` only erases it and reports `REMOVED_REV`.
Two other places describe a swap instead:

- `src/Spider.cpp:128` names a `SWAPPED` result.
- `tests/test_DirectedGraph.cpp:128-160` expects a swap that restores the
  graph on a cycle.

The header defines neither, so the Spider branch at `src/Spider.cpp:128-130`
is read as the `REMOVED_REV` case.

## Model

| member | source | states |
|---|---|---|
| GraphTheory.EmptyLists | src/DirectedGraph.hpp:18-20 | n lists, all empty and in range: the graph a constructor builds |
| GraphTheory.Remove | src/DirectedGraph.hpp:47-53 | the erase-remove result: x no longer occurs, every other value occurs exactly when it did before, the list does not grow |
| GraphTheory.RemoveConcat | src/DirectedGraph.hpp:49-52 | removal distributes over concatenation, so the remaining entries keep their relative order |
| GraphTheory.RemoveAbsent | src/DirectedGraph.hpp:49-52 | erasing a value that does not occur leaves the list unchanged |
| GraphTheory.RemoveAppended | src/DirectedGraph.hpp:22-24 | appending a new value and erasing it gives back the original list |
| GraphTheory.Occ | src/DirectedGraph.hpp:90-94 | occurrence count of a vertex in a list: zero exactly when absent, at most the list length |
| GraphTheory.OccPrefix | src/DirectedGraph.hpp:107-111 | a prefix never holds more occurrences than the whole list |
| GraphTheory.PendingOutput | src/DirectedGraph.hpp:103-111 | outputting u lowers the pending in-degree of w by exactly u's edges into w |
| GraphTheory.PendingZero | src/DirectedGraph.hpp:108-110 | a vertex with no pending in-degree has every source already output |
| GraphTheory.PendingPositive | src/DirectedGraph.hpp:103-112 | a positive pending in-degree has a source that has not been output |
| GraphTheory.PendingNoEdges | src/DirectedGraph.hpp:86-100 | without edges every in-degree is zero |
| GraphTheory.DistinctBounded | src/DirectedGraph.hpp:85-115 | pigeonhole: a repetition-free list of ids below n has at most n entries |
| GraphTheory.TopologicalOrderLength | src/DirectedGraph.hpp:85-115 | a topological order has exactly n entries, so it is a permutation of 0..n-1 |
| GraphTheory.PathDescends | src/DirectedGraph.hpp:55-71 | along a closed finish order every path moves to earlier-finished vertices |
| GraphTheory.AcyclicWhenClosed | src/DirectedGraph.hpp:73-83 | a finish order that covers all vertices and in which every vertex points only to earlier ones rules out any cycle |
| GraphTheory.CycleFromStack | src/DirectedGraph.hpp:64-65 | an edge back to a vertex on the recursion stack closes a cycle |
| GraphTheory.CycleFromRepeat | src/DirectedGraph.hpp:85-115 | a path that revisits a vertex contains a cycle |
| GraphTheory.BackChain | src/DirectedGraph.hpp:103-112 | in a set where every vertex has a source inside the set, a backward path of any length exists |
| GraphTheory.StuckImpliesCycle | src/DirectedGraph.hpp:103-112 | if Kahn's loop leaves any vertex behind, the graph has a cycle |
| GraphTheory.IotaIsTopologicalOrder | src/DirectedGraph.hpp:85-115 | with no edges, 0, 1, ..., n-1 is a topological order |
| GraphTheory.DistinctDequeue | src/DirectedGraph.hpp:104-107 | moving the queue head to the output keeps output-then-queue the same repetition-free list |
| DirectedGraphs.SubgraphAcyclic | src/DirectedGraph.hpp:47-53 | removing edges cannot create a cycle |
| DirectedGraphs.AddEdgeSpecSound | src/DirectedGraph.hpp:22-33 | addEdge keeps the mirror; it reports CYCLE exactly when the appended edge closes a cycle, and then both lists are as before; otherwise the edge exists and the graph is acyclic |
| DirectedGraphs.RemoveEdgeSpecSound | src/DirectedGraph.hpp:47-53 | removeEdge keeps the mirror, deletes src -> dest, keeps every other edge, keeps acyclicity |
| DirectedGraphs.ToggleEdgeSpecSound | src/DirectedGraph.hpp:35-45 | REMOVED exactly when src -> dest existed, and it is gone; REMOVED_REV exactly when only dest -> src existed, and then neither edge remains; otherwise addEdge's outcome; mirror and acyclicity kept |
| DirectedGraphs.ToggleTwiceRestores | src/DirectedGraph.hpp:35-53 | toggling an edge in and toggling it again restores both lists exactly |
| DirectedGraphs.NoEdgesAcyclic | src/DirectedGraph.hpp:18-20 | a graph without edges is acyclic |
| DirectedGraphs.DirectedGraph.constructor | src/DirectedGraph.hpp:18-20 | n vertices, both structures n empty lists, valid |
| DirectedGraphs.DirectedGraph.Clear | src/Spider.cpp:379 | empties both structures, keeps n vertices, valid |
| DirectedGraphs.DirectedGraph.AddEdge | src/DirectedGraph.hpp:22-33 | result and new lists equal AddEdgeSpec of the old lists; mirror kept; a valid graph stays valid |
| DirectedGraphs.DirectedGraph.ToggleEdge | src/DirectedGraph.hpp:35-45 | result and new lists equal ToggleEdgeSpec of the old lists; mirror kept; a valid graph stays valid |
| DirectedGraphs.DirectedGraph.RemoveEdge | src/DirectedGraph.hpp:47-53 | new lists equal RemoveEdgeSpec of the old lists; mirror kept; a valid graph stays valid |
| DirectedGraphs.DirectedGraph.EnterVertex | src/DirectedGraph.hpp:56-58 | marking an unvisited vertex visited and on the stack extends the gray path and keeps the search state |
| DirectedGraphs.DirectedGraph.LeaveVertex | src/DirectedGraph.hpp:68-69 | once all its targets are finished, unmarking v pops it and appends it to the finish order, keeping the search state |
| DirectedGraphs.DirectedGraph.UnvisitedShrinks | src/DirectedGraph.hpp:56-61 | each recursive call starts with strictly fewer unvisited vertices, so the search terminates |
| DirectedGraphs.DirectedGraph.StackDetermined | src/DirectedGraph.hpp:55-71 | recStack is determined by the gray path, so it is restored when the helper returns false |
| DirectedGraphs.DirectedGraph.IsCyclicHelper | src/DirectedGraph.hpp:55-71 | true only when a cycle exists; false means v is finished, every vertex it reaches is finished before it, visited only grows and recStack is as on entry |
| DirectedGraphs.DirectedGraph.IsCyclic | src/DirectedGraph.hpp:73-83 | true exactly when the forward graph has a directed cycle; neither structure changes |
| DirectedGraphs.DirectedGraph.InDegrees | src/DirectedGraph.hpp:86-92 | inDegree[w] is the number of edges into w, and the array holds InitialDegrees |
| DirectedGraphs.DirectedGraph.ZeroInDegree | src/DirectedGraph.hpp:94-99 | the queue seed is ZeroSeq of the counts: exactly the vertices of in-degree zero, ascending; all of 0..n-1 when every in-degree is zero |
| DirectedGraphs.DirectedGraph.KahnDequeue | src/DirectedGraph.hpp:102-105 | dequeuing the head and outputting it keeps the loop state, with u's edges now to be released |
| DirectedGraphs.DirectedGraph.ReleaseStep | src/DirectedGraph.hpp:107-111 | releasing one edge out of u keeps the loop state; the target was not yet output and its count was positive |
| DirectedGraphs.DirectedGraph.ReleaseCount | src/DirectedGraph.hpp:107-108 | the decrement takes exactly one released edge off the target's pending count, which was positive |
| DirectedGraphs.DirectedGraph.ReleaseQueue | src/DirectedGraph.hpp:108-110 | enqueuing a target when its count reaches zero keeps the queue exactly the not-yet-output vertices of count zero, without repetition |
| DirectedGraphs.DirectedGraph.ReleasedAll | src/DirectedGraph.hpp:107-111 | after all of u's edges the loop state holds again |
| DirectedGraphs.DirectedGraph.KahnDone | src/DirectedGraph.hpp:102-114 | at an empty queue the output repeats nothing, has every edge forward, and covers all vertices unless there is a cycle |
| DirectedGraphs.DirectedGraph.OutputStep | src/DirectedGraph.hpp:103-105 | outputting a vertex of in-degree zero keeps every source before its target |
| DirectedGraphs.DirectedGraph.NotYetOutput | src/DirectedGraph.hpp:107-108 | a target of the vertex just output has not been output |
| DirectedGraphs.DirectedGraph.NotDoneShrinks | src/DirectedGraph.hpp:102-105 | each iteration outputs a new vertex, so the loop terminates |
| DirectedGraphs.DirectedGraph.ReleaseTargets | src/DirectedGraph.hpp:107-111 | decrements each target's in-degree and enqueues those reaching zero, re-establishing the loop state; the new counts and queue are Release of the old ones |
| DirectedGraphs.DirectedGraph.ReleaseEdge | src/DirectedGraph.hpp:107-111 | one turn of the inner loop: decrement the k-th target, enqueue it at zero, loop state kept with k + 1 edges released; Release of the remaining targets is unchanged |
| DirectedGraphs.DirectedGraph.KahnStart | src/DirectedGraph.hpp:94-101 | the seeded queue with an empty output satisfies the loop state |
| DirectedGraphs.DirectedGraph.KahnLoop | src/DirectedGraph.hpp:101-114 | from the seeded queue the while loop stops with an empty queue, the loop state holding, at most n vertices output, 0, 1, ..., n-1 with no edges, and counts, queue and output equal to KahnAfter after as many turns as vertices output |
| DirectedGraphs.DirectedGraph.OutputNext | src/DirectedGraph.hpp:102-111 | one turn of the while loop: outputs the queue head, keeps the loop state, marks one more vertex done, and advances counts, queue and output by exactly one KahnAfter turn |
| DirectedGraphs.DirectedGraph.KahnRoom | src/DirectedGraph.hpp:101-114 | output and queue together never hold more than n vertices |
| DirectedGraphs.DirectedGraph.TopologicalSort | src/DirectedGraph.hpp:85-115 | the result is exactly KahnOrder(adj); repetition-free, in range, every edge forward; on an acyclic graph a topological order with all n vertices; with no edges exactly 0, 1, ..., n-1 |
| DirectedGraphs.InitialDegrees | src/DirectedGraph.hpp:86-92 | the counts before the main loop: entry w is the number of edges into w, and it is zero exactly when no vertex has an edge to w |
| DirectedGraphs.InitialDegreeZeroIffNoSource | src/DirectedGraph.hpp:86-99 | with nothing output yet, a vertex's pending in-degree is zero exactly when it has no source, so the seed queue holds exactly the vertices without incoming edges |
| DirectedGraphs.DirectedGraph.SeedQueue | src/DirectedGraph.hpp:86-99 | the first two loops: a fresh count array holding InitialDegrees and the seed queue ZeroSeq of it, which satisfy the main loop's state; with no edges the queue is 0, 1, ..., n-1 |
| DirectedGraphs.ZeroSeq | src/DirectedGraph.hpp:94-99 | the seed queue scanned up to i: exactly the vertices below i whose count is zero |
| DirectedGraphs.ZeroSeqAscending | src/DirectedGraph.hpp:95-99 | the seed queue is in increasing order |
| DirectedGraphs.ZeroSeqAllZero | src/DirectedGraph.hpp:95-99 | with every count zero the seed queue is 0, 1, ..., i-1 |
| DirectedGraphs.Release | src/DirectedGraph.hpp:107-111 | the inner loop over a vertex's targets as a function; the counts keep their length |
| DirectedGraphs.KahnStep | src/DirectedGraph.hpp:102-111 | one turn of the main loop as a function; it outputs at most one vertex, and nothing once the queue is empty |
| DirectedGraphs.KahnAfter | src/DirectedGraph.hpp:101-114 | k turns of the main loop output at most k vertices |
| DirectedGraphs.KahnAfterStops | src/DirectedGraph.hpp:101 | once the queue has run dry, further turns change nothing |
| DirectedGraphs.KahnOrderReached | src/DirectedGraph.hpp:94-114 | a run from the seeded queue that stops within n turns with output order has order equal to KahnOrder |
| DirectedGraphs.KahnOrder | src/DirectedGraph.hpp:85-115 | the list topologicalSort returns: n turns of the main loop from the seeded queue; at most n vertices |
| DirectedGraphs.DirectedGraph.HasEdge | src/DirectedGraph.hpp:120-122 | hasEdge(src, dest) holds exactly when src is in the reverse list of dest |
| DirectedGraphs.DirectedGraph.HasReverseEdge | src/DirectedGraph.hpp:124-126 | hasReverseEdge(src, dest) holds exactly when dest -> src is a forward edge |
| DirectedGraphs.DirectedGraph.GetAdjacentVertices | src/DirectedGraph.hpp:117 | the consumers of v are exactly the vertices whose reverse list holds v |
| DirectedGraphs.DirectedGraph.GetAdjacentVerticesRev | src/DirectedGraph.hpp:118 | the modulators of v are exactly the sources of edges into v |
| SpiderCore.SelectLight | src/Spider.cpp:44 | operator i's carrier light is a multiple of 3 below the connection lights |
| SpiderCore.ConnectionLight | src/Spider.cpp:126-132 | the matrix light of a -> b lies among the connection lights and encodes a and b |
| SpiderCore.ConnectionLightsDistinct | src/Spider.cpp:44 | distinct edges have distinct lights, none of them a carrier light |
| SpiderCore.ToggleLightsAsWritten | src/Spider.cpp:126-133 | the light writes as written, keeping the light array's length |
| SpiderCore.ToggleLights | src/Spider.cpp:126-133 | the corrected light writes leave every select light unchanged |
| SpiderCore.ShowsEdgesUpdate | src/Spider.cpp:126-133 | one list change plus the matching light write keeps the matrix showing the edges |
| SpiderCore.ToggleLightsShowEdges | src/Spider.cpp:115-133 | after every toggle outcome the matrix shows exactly the new graph's edges |
| SpiderCore.ToggleLightsAsWrittenWrong | src/Spider.cpp:128-130 | counterexample: REMOVED_REV lights an edge that is not in the graph |
| SpiderCore.Clip | src/Spider.cpp:220-224 | the result lies in [-1, 1], equals the input inside it and saturates outside |
| SpiderCore.Clamp01 | src/Spider.cpp:244 | the result lies in [0, 1], equals the input inside it and saturates outside |
| SpiderCore.ResolveLevel | src/Spider.cpp:236-244 | the level lies in [0, 1] and is the raw knob-plus-CV value whenever that is in range |
| SpiderCore.ResolveWavePos | src/Spider.cpp:259-263 | the wave position lies in [0, 1] and is the raw value whenever that is in range |
| SpiderCore.CarrierSum | src/Spider.cpp:212-218 | the sum over the operators below k that are carriers of their channel-c output; zero when none of them is a carrier |
| SpiderCore.CarrierSumSilent | src/Spider.cpp:212-218 | when every carrier is silent on a channel, the sum is zero |
| SpiderCore.CarrierSumIgnoresModulators | src/Spider.cpp:214-217 | outputs of non-carrier operators do not affect the mix |
| SpiderCore.Spider.constructor | src/Spider.cpp:46-49 | no edges, no carriers, nothing selected, order 0..5, lights consistent |
| SpiderCore.Spider.SetConnectionLights | src/Spider.cpp:344-353 | every edge's light is on, other matrix lights unchanged, carrier lights show the carrier flags |
| SpiderCore.Spider.SetCarrierLights | src/Spider.cpp:355-360 | every carrier light shows its flag; nothing else changes |
| SpiderCore.Spider.ClearConnectionLights | src/Spider.cpp:362-370 | all carrier and matrix lights off; the other select lights unchanged |
| SpiderCore.Spider.Press | src/Spider.cpp:105-142 | the whole new state is PressStep of the old one: nothing selected: selects i; selected i: flips carriers[i] and its light, deselects; other selected: graph becomes ToggleEdgeSpec(selected, i), lights ToggleLights, order KahnOrder of the new graph, deselects; on CYCLE the order is unchanged and aborted and cycleDetected are raised; Valid kept |
| SpiderCore.Spider.FlipCarrier | src/Spider.cpp:109-113 | pressing the selected operator flips its carrier flag and light and deselects; nothing else changes; Valid kept |
| SpiderCore.Spider.ToggleConnection | src/Spider.cpp:115-137 | graph becomes ToggleEdgeSpec(sel, i), lights become ToggleLights of the old lights, order becomes KahnOrder of the new graph, deselects; aborted and cycleDetected raised exactly on CYCLE with the order unchanged; carriers unchanged; Valid kept |
| SpiderCore.Spider.WriteEdgeLight | src/Spider.cpp:126-133 | the light array becomes ToggleLights of the old one for the given result |
| SpiderCore.Spider.ProcessEdit | src/Spider.cpp:89-142 | the states passed through form a PressTrace from the old state to the new one over the pressed operators in increasing order, all of them unless a press aborts, and then exactly those up to the aborting one; Valid kept; with no press nothing changes; a newly raised cycleDetected leaves nothing selected |
| SpiderCore.Spider.VisitOperator | src/Spider.cpp:105-142 | one turn of the loop: an operator not pressed is skipped, a pressed one extends the trace by one press; without an abort the handled list becomes the pressed operators up to i + 1 and cycleDetected is unchanged; an abort ends with a non-empty prefix of all the presses and nothing selected |
| SpiderCore.PressTraceExtend | src/Spider.cpp:89-142 | a trace without an abort, followed by one more press, is a trace |
| SpiderCore.PressedUpToExact | src/Spider.cpp:89-105 | PressedUpTo, the order processEdit visits operators in, lists every pressed operator below i and nothing else, in strictly increasing order, so each is visited once and in index order |
| SpiderCore.NoPressNoneHandled | src/Spider.cpp:105 | with no press no operator is handled |
| SpiderCore.PressedPrefix | src/Spider.cpp:119-123 | the presses handled before an abort at operator i are a prefix of all the presses |
| SpiderCore.Spider.MixOutput | src/Spider.cpp:211-227 | channel c is 5 x Clip(sum of carrier outputs), in [-5, 5], and 0 with no carriers |
| SpiderCore.Spider.OnReset | src/Spider.cpp:372-386 | carriers false, graph empty, order 0..5, nothing selected, cycleDetected untouched, select lights 3i+1 and 3i+2 unchanged, Valid kept |

## Left out

- Oscillator numerics are not modelled. This covers the signal generators, the FM frequency arithmetic, feedback, `exp2_taylor5`, the sine table and the wavetables (`src/SignalGenerator.hpp`, `src/FMOperator.*`, `src/Wavetable.*`). It is float computation with no logical contract beyond tolerances, so the operator outputs enter `MixOutput` as a parameter.
- Float rounding is not modelled; brightness, voltages and knob values are reals. Rack's `clamp` is library code and is modelled as the minimum with the upper bound, then the maximum with the lower bound.
- The cycle-flash timer and the smoothed select light (`src/Spider.cpp:81-103`), tooltips (`updateTooltips`), the scope buffer, JSON persistence, `onRandomize` and all widgets are left out. They are timing, display, string, serialisation or random code. The invariant `ShowsCarriers` therefore does not describe the flashing period, during which the carrier lights are blanked.
- The per-operator `BooleanTrigger` debouncing is left out; `ProcessEdit` receives which buttons produced a rising edge.
- `reset()` of the signal generators called by `onReset` is left out (oscillator state).
- SpiderCore.Spider.WriteEdgeLight, SpiderCore.Spider.ToggleConnection and SpiderCore.Spider.Press implement the corrected `REMOVED_REV` light write from the Findings row: only the light of the erased edge i -> sel is switched off. The write as it stands at `src/Spider.cpp:128-130` is `SpiderCore.ToggleLightsAsWritten`.
- SpiderCore.Spider.ProcessEdit: the trace and the handled presses are ghost outputs. They describe the pass and are not something the module returns.
- DirectedGraphs.KahnOrder runs the functional loop for |adj| turns. That is enough because each vertex is output at most once (`KahnOrderReached`). `Release` and `KahnStep` pass over ids that have no count; a graph in range has none.
- `DirectedGraph::clear`, which `src/Spider.cpp:379` calls, is not defined in `src/DirectedGraph.hpp`. It is modelled as resetting both structures to n empty lists.
- Vertex ids are `nat`. Out-of-range ids, which are undefined behaviour in the source, are excluded by preconditions.
- The swap semantics expected by `tests/test_DirectedGraph.cpp:128-160` are not modelled. The header does not implement them.

## Findings

| source | as written | input that shows it | evidently intended | confidence | as-written member | corrected member |
|---|---|---|---|---|---|---|
| src/Spider.cpp:128-130 | the reverse-edge branch clears the light of i -> sel and switches on the light of sel -> i, but toggleEdge (src/DirectedGraph.hpp:39-41) only erases i -> sel | only the edge 1 -> 0, operator 0 selected, operator 1 pressed: the graph ends with no edges, yet the light of 0 -> 1 is on | the connection matrix shows exactly the graph's edges, so only the light of the erased edge changes | not executed; medium, because the branch names a SWAPPED result that the header does not define | SpiderCore.ToggleLightsAsWrittenWrong | SpiderCore.ToggleLightsShowEdges |
