# Sushi restaurant tour — a Dafny model

This project models `SushiSolution/main.swift`, a solution to a tree-walk problem.
N restaurants are joined by N-1 roads into a tree, and M of the restaurants serve
real sushi. The program looks for the shortest walk that visits every sushi
restaurant, and it searches breadth-first from each sushi restaurant in turn.
The model covers the program's four parts:

- `queue.dfy` (module `Queues`) models the generic linked FIFO `Queue<E>` and its
  iterator. `Queue<E>` is a class with the fields `first`, `last` and `count` over
  heap-allocated `Node<E>` cells. Ghost `Contents`, `Nodes` and `Repr` tie the
  linked list to the sequence of items it holds.
- `graph.dfy` (module `Graph`) models how the program builds and prunes the tree.
  It builds the adjacency lists from the edge list (lines 125-133). It then removes
  "fake" restaurants in a single pass (lines 135-158): dead ends of degree 1 that
  serve no sushi.
- `walk.dfy` (module `Sushi`) models the breadth-first search
  `findSmallestTravelTime` (lines 160-214) and the helper `containsAll`
  (lines 223-230). A state of the search is a `Restaurant` value: its node, the
  previous node, the set of nodes visited so far and the travel time.
- `solution.dfy` (module `Solution`) models the driver (lines 111-221). The answer
  starts at 2·N, and one search runs from every sushi restaurant, in list order,
  with the bound shared between the runs. The driver's ghost outputs `bounds` and
  `runs` record each search's bound and whole run; the answer is the last bound.

What is proved, in brief:

- The queue is FIFO: `Enqueue` appends, `Dequeue` removes the front or reports
  empty, and the iterator yields exactly the contents, front first.
- The adjacency lists hold each edge in both directions and nothing else.
- The pruning removes exactly the non-sushi dead ends. Each surviving list loses
  only those nodes and keeps its order, and every lookup the search makes into the
  pruned map succeeds.
- The filtering rules for neighbours hold:
  - at degree 2, the search never steps back to the previous node;
  - at degree 3 or more, it also skips nodes it has already visited;
  - a node is never enqueued once its pass counter exceeds its degree;
  - a dead end may step back.
- Every state in the queue is witnessed by a walk in the pruned graph. That walk
  starts at the start node and ends at the state's node. It has one node more
  than the travel time gained since the start. Its nodes before the last are
  exactly the ones the state has traveled, beyond those of the start.
- The queue stays sorted by travel time, and its travel times span at most two
  adjacent values.
- One turn of the loop is stated in full: what it dequeues, the pass counter
  it bumps, exactly when it stops, the queue it leaves and the bound it returns.
- A run is defined on values: from a queue and pass counters, each turn
  dequeues the front. A turn that does not stop enqueues the front's admitted
  neighbours. The run ends when the queue is empty or a turn stops. The search
  method's ghost output `dequeued` is that run, and a queue admits only one run.
  Along the run each pass counter equals the number of dequeued states at its
  restaurant, and the run is in non-decreasing travel time.
- The search terminates. The measure is the pair (bound − current layer + 1,
  number of queued states in the current layer).
- Any answer below its bound is the length of a covering walk found by the search.
  When the start alone already covers every target, the answer is the lesser of
  the bound and the start's travel time.
- The driver runs exactly one whole search per sushi restaurant. Each search
  starts under the bound the previous one left, and the bound never increases.
  These searches, and so the answer, are fixed by the input.
- The driver's result lies between 0 and 2·N:
  - any result below 2·N is the length of a walk along the input roads that
    starts at a sushi restaurant and visits all of them;
  - no sushi restaurant gives 2·N;
  - a single sushi restaurant, possibly listed several times, gives 0.

Fake dead ends are removed in a single pass (main.swift:141-158), not to a
fixed point, so a chain of several non-sushi nodes is shortened by only one node.

## Model

| member | source | states |
|---|---|---|
| Queues.Node.constructor | SushiSolution/main.swift:35-42 | a new cell holds the given item and successor |
| Queues.Queue.constructor | SushiSolution/main.swift:26-45 | a new queue is valid, owns only fresh objects, is empty and has count 0 |
| Queues.Queue.IsEmpty | SushiSolution/main.swift:48-50 | `first == nil` holds exactly when the queue holds no items |
| Queues.Queue.Peek | SushiSolution/main.swift:53-55 | none for an empty queue, otherwise the front item, which is the one least recently added |
| Queues.Queue.Enqueue | SushiSolution/main.swift:59-65 | the item is appended at the end, count grows by one, the list stays a null-terminated chain without repeated cells, and only fresh cells join the footprint |
| Queues.Queue.Dequeue | SushiSolution/main.swift:68-77 | on an empty queue it returns none and changes nothing; otherwise it returns the front item, the contents lose their first element and count drops by one; `last` is cleared once the queue is empty |
| Queues.Queue.MakeIterator | SushiSolution/main.swift:99-101 | a fresh iterator whose remaining items are the queue's contents |
| Queues.Queue.Elements | SushiSolution/main.swift:80-101 | iterating the queue to exhaustion yields exactly its contents, front first |
| Queues.QueueIterator.constructor | SushiSolution/main.swift:80-85 | the iterator starts at the given cell and will yield the chain's items |
| Queues.QueueIterator.Next | SushiSolution/main.swift:87-93 | returns the next item and advances by one cell, or returns none once the chain is exhausted |
| Graph.AddEdge | SushiSolution/main.swift:131-132 | definition: reading one edge appends each end to the other's list; the table keeps its length |
| Graph.Adjacency | SushiSolution/main.swift:125-133 | the adjacency table has one list per restaurant |
| Graph.AdjacencyExact | SushiSolution/main.swift:129-133 | `w` is in the list of `u` exactly when some edge joins `u` and `w`, in either direction |
| Graph.AdjacencySymmetric | SushiSolution/main.swift:129-133 | both ends of every edge list each other, and `w` is in the list of `u` exactly when `u` is in the list of `w` |
| Graph.AdjacencyInRange | SushiSolution/main.swift:129-133 | every listed neighbour is a restaurant number in range |
| Graph.BuildPaths | SushiSolution/main.swift:125-133 | the array filled edge by edge equals the adjacency table of the edge list |
| Graph.IsFakeDeadEnd | SushiSolution/main.swift:142 | definition: a restaurant in range with exactly one neighbour that serves no sushi |
| Graph.FakeDeadEnds | SushiSolution/main.swift:142 | definition: the set of all such restaurants, the ones the first pruning loop removes |
| Graph.Without | SushiSolution/main.swift:150-157 | definition: a neighbour list with the removed restaurants dropped, the rest kept in order |
| Graph.Pruned | SushiSolution/main.swift:135-158 | definition: the pruned map, with a key for every restaurant that is not a fake dead end and its list stripped of the fake dead ends |
| Graph.WithoutMembers | SushiSolution/main.swift:149-158 | an entry survives the filter exactly when it was in the list and was not removed |
| Graph.WithoutConcat | SushiSolution/main.swift:149-158 | the filter keeps the original order: it distributes over concatenation |
| Graph.WithoutNothing | SushiSolution/main.swift:149-158 | a list that meets no removed node is left unchanged |
| Graph.WithoutShorter | SushiSolution/main.swift:149-158 | filtering never lengthens a list |
| Graph.RemoveFakeDeadEnds | SushiSolution/main.swift:135-158 | the removed list holds each non-target node of degree 1 exactly once; the resulting map keeps every other node, with its list stripped of the removed nodes, whatever order the dictionaries are iterated in |
| Graph.TargetsSurvive | SushiSolution/main.swift:141-147 | no sushi restaurant is ever removed |
| Graph.PrunedKeys | SushiSolution/main.swift:141-147 | a node survives exactly when it is in range and is not a non-target node of degree 1 |
| Graph.PrunedClosed | SushiSolution/main.swift:141-158 | every neighbour left in the pruned map is itself a key, so each force-unwrapped lookup succeeds |
| Graph.PrunedSubgraph | SushiSolution/main.swift:149-158 | pruning only deletes: a surviving neighbour was a neighbour before and was not removed |
| Graph.PrunedUntouched | SushiSolution/main.swift:149-158 | a surviving node none of whose neighbours was removed keeps its list unchanged |
| Graph.PrunedDegree | SushiSolution/main.swift:149-158 | a surviving node's list is no longer than its original list |
| Graph.PrunedSplit | SushiSolution/main.swift:150-157 | the surviving list keeps neighbour order: the survivors of any prefix of the original list come before those of the rest |
| Sushi.Visit | SushiSolution/main.swift:170-172 | definition: the dequeued state with its own restaurant added to the traveled set |
| Sushi.Skipped | SushiSolution/main.swift:193-206 | definition: the degree rule; a dead end skips nothing, degree 2 skips the previous restaurant, degree 3 or more also skips traveled ones |
| Sushi.Admitted | SushiSolution/main.swift:193-210 | definition: a neighbour is enqueued when the degree rule does not skip it and its pass counter does not exceed its degree |
| Sushi.Child | SushiSolution/main.swift:211 | definition: the enqueued state, one step further, coming from the visited restaurant with its traveled set |
| Sushi.Expansion | SushiSolution/main.swift:190-212 | definition: the children of the admitted neighbours, in neighbour-list order |
| Sushi.Stops | SushiSolution/main.swift:175-188 | definition: the three break conditions: all targets covered, all N restaurants traveled, or travel time above the bound |
| Sushi.Bump | SushiSolution/main.swift:173 | definition: one more pass through the given restaurant, no other counter changed |
| Sushi.Rest | SushiSolution/main.swift:165-212 | definition: the queue after a turn that goes on; the old tail followed by the expansion of the visited front |
| Sushi.Step | SushiSolution/main.swift:165-212 | definition: one turn on values; it exists exactly when the queue's front is the given state and the turn does not stop, and it yields the rest of the queue and the bumped counters |
| Sushi.After | SushiSolution/main.swift:165-212 | definition: the queue and counters after the turns that dequeue the given states in order |
| Sushi.Explores | SushiSolution/main.swift:165-212 | definition: the given states are a whole run; the loop ends after them because the queue is empty or the last turn stops |
| Sushi.ContainsAll | SushiSolution/main.swift:223-230 | true exactly when every listed value is in the set |
| Sushi.ExpansionShape | SushiSolution/main.swift:190-212 | every enqueued state is a one-step extension of the visited state to an admitted neighbour, and there are at most as many states as neighbours |
| Sushi.ExpansionComplete | SushiSolution/main.swift:190-212 | a neighbour's state is enqueued exactly when the neighbour passes the degree rule and the pass cap |
| Sushi.NeighbourFiltering | SushiSolution/main.swift:193-210 | at degree 2 no state returns to the previous node; at degree 3 or more none returns to the previous node or to an already visited node; every enqueued node is in the map and within its pass cap |
| Sushi.DeadEndBacktracks | SushiSolution/main.swift:193-195 | at a dead end the sole neighbour, even the previous node, is enqueued exactly when its pass counter does not exceed its degree |
| Sushi.WitnessStep | SushiSolution/main.swift:170-172 | extending a witnessing walk by a neighbour witnesses the child state: the walk is one node longer, the travel time one higher and the visited set gains the node |
| Sushi.ExpansionWitnessed | SushiSolution/main.swift:190-212 | every state enqueued from a visited state is witnessed by that state's walk plus one node |
| Sushi.LayeredStep | SushiSolution/main.swift:165-211 | dequeuing the front and enqueuing states one unit longer keeps the queue sorted within two adjacent travel times |
| Sushi.OrderedSorted | SushiSolution/main.swift:165-166 | a sequence ordered link by link is sorted by travel time pairwise |
| Sushi.QueueInvAll | SushiSolution/main.swift:161-211 | the recursive queue invariant holds exactly when every state is witnessed by its walk and the queue is layered |
| Sushi.QueueFront | SushiSolution/main.swift:166-172 | the front state is witnessed and lies in the current layer or the next |
| Sushi.QueueExpand | SushiSolution/main.swift:166-212 | replacing the front by its expansion keeps the queue invariant at the front's travel time, and the number of queued states at that travel time strictly drops |
| Sushi.EnqueueNeighbours | SushiSolution/main.swift:190-212 | the loop leaves the queue holding its old contents followed by exactly the admitted neighbours' states, in neighbour-list order |
| Sushi.Lowered | SushiSolution/main.swift:175-179 | the bound after the turn that dequeues the last state never rises, and it drops exactly when that state covers every target and is faster than the bound, to that state's travel time |
| Sushi.VisitFront | SushiSolution/main.swift:166-212 | one turn dequeues the front and bumps exactly its pass counter. It stops exactly when the visited state covers every target, has traveled all N restaurants, or is longer than the bound. A stopping turn leaves the queue's tail behind. A turn that goes on leaves the tail followed by the admitted neighbours' states. The bound drops to the front's travel time only when the front covers every target. Going on keeps the queue invariant and lowers the termination measure |
| Sushi.Zeros | SushiSolution/main.swift:163 | the initial pass counters: one zero per restaurant |
| Sushi.AfterPrefix | SushiSolution/main.swift:165-212 | every prefix of a run the loop can make is one it can make |
| Sushi.AfterAgree | SushiSolution/main.swift:165-168 | each turn dequeues the front, so two runs of the same length from the same queue and counters are equal |
| Sushi.AfterNext | SushiSolution/main.swift:165-168 | every state of a whole run is the front of the queue that the turns before it leave |
| Sushi.ExploresEnds | SushiSolution/main.swift:165-188 | after a whole run the queue is empty or the last turn stopped |
| Sushi.RunsAgree | SushiSolution/main.swift:165-212 | two whole runs from the same queue and counters agree on their common prefix |
| Sushi.ExploresNoLonger | SushiSolution/main.swift:165-212 | neither of two whole runs from the same queue and counters is longer than the other |
| Sushi.ExploresUnique | SushiSolution/main.swift:165-212 | the search is deterministic: a queue and counters admit exactly one whole run |
| Sushi.AfterCounts | SushiSolution/main.swift:163-173 | after a run, each pass counter has grown by the number of dequeued states at its restaurant |
| Sushi.RunGoesOn | SushiSolution/main.swift:166-212 | a turn that does not stop extends the run by its front, and the counters still count passes |
| Sushi.RunStops | SushiSolution/main.swift:175-188 | a turn that stops completes the run with its front |
| Sushi.QueueInvReached | SushiSolution/main.swift:161-212 | every queue the run reaches satisfies the queue invariant at the last front's travel time |
| Sushi.Turn | SushiSolution/main.swift:165-212 | one loop turn seen as a step of the run. A stopping turn completes the run and sets the bound from its front. Any other turn extends the run by one front with the counters still counting passes, keeps the fronts in non-decreasing travel time, and lowers the termination measure |
| Sushi.FindSmallestTravelTime | SushiSolution/main.swift:160-214 | `dequeued` is the one whole run from the queue holding the start state and zero counters. The result is the bound lowered to the last front's travel time exactly when that front covers every target, so it never exceeds the bound. A smaller result is the length of a walk in the pruned graph that starts at the start node and covers every target. A start that already covers everything returns the lesser of the bound and its own travel time. The run starts with the start state and is in non-decreasing travel time |
| Solution.PrunedWalkJoined | SushiSolution/main.swift:129-158 | a walk in the pruned graph is a walk along the input roads |
| Solution.SearchGraph | SushiSolution/main.swift:137-158 | the pruned graph built from the input is closed and has every sushi restaurant as a key |
| Solution.Start | SushiSolution/main.swift:217-218 | definition: the state each search starts from; the target itself, no previous restaurant, nothing traveled, no time spent |
| Solution.Searched | SushiSolution/main.swift:218 | definition: one search; from the given target under the given bound it makes exactly the given whole run and leaves the bound its last state gives |
| Solution.Drives | SushiSolution/main.swift:216-219 | definition: the searches the driver runs; the bound starts at 2·N, and the k-th search starts from the k-th target under the k-th bound, makes the whole run `runs[k]` and leaves the next bound |
| Solution.DrivesExtend | SushiSolution/main.swift:216-219 | one more whole search from the next target, under the last bound, extends the chain of searches |
| Solution.DrivesLowers | SushiSolution/main.swift:176-178 | the shared bound never increases from one search to the next |
| Solution.CoveringRoadWalk | SushiSolution/main.swift:129-158 | a covering walk a search finds in the pruned graph is a walk along the input roads from its start through every target, one node longer than the answer |
| Solution.DrivesAgree | SushiSolution/main.swift:216-219 | two chains of searches of the same length agree on every prefix |
| Solution.DrivesUnique | SushiSolution/main.swift:216-219 | the driver is deterministic: the input fixes every search and every bound, and so the answer |
| Solution.Solution | SushiSolution/main.swift:123-219 | the driver runs one whole search per sushi restaurant in list order, each under the bound the previous one left, and the answer is the last bound. The bound never increases. The answer lies in 0..2·N. An answer below 2·N is the length of a road walk from a sushi restaurant through all of them. No sushi restaurant gives 2·N, and a single one gives 0 |

## Left out

- Reading input with `readLine` (lines 119-121, 130) is left out, and so is the final `print` (line 220). The driver takes N, the target list and the edge list as parameters and returns the answer.
- `Queue.description` (lines 104-108) is left out: it only formats text for printing.
- The `Sequence` and `IteratorProtocol` conformances and `__consuming` are left out. The iterator is a class, not a struct, and `Elements` stands in for a `for … in` loop over the queue. An iterator is not followed across later changes to its queue.
- The force-unwraps of parsed numbers on lines 120-121 and 131-132 fail only on malformed text, which the model does not read. The array subscripts `paths[…]` on lines 131-132 trap on an edge end out of range. These, with the loop bound of line 129, become requirements on the driver's input: N-1 edges, edge ends in range, targets in range. The force-unwraps on lines 166, 168 and 208 become proved facts inside the search: the dequeue succeeds and the map lookups succeed. The model does not require the edges to form a tree.
- Swift's trapping on `Int` overflow is not modelled, because the integers are unbounded. All quantities are bounded by about 2·N and the pass counters.
- Dictionary iteration order is unspecified in Swift. The model takes keys in an arbitrary order (`:|`) and proves that the result does not depend on it.
- The body of the search loop is split into the methods `VisitFront` and `EnqueueNeighbours`, and `Turn` wraps `VisitFront` with the ghost bookkeeping of the run. The `break` statements become a `stop` result that breaks the loop. The shared `smallestTravelTime`, a captured variable, is passed in and returned. `numberOfTimesPassed` is a Swift value-type array, so it is a `seq`.
- `Queues.Queue.Enqueue` tests `first == null` directly where the source calls `isEmpty()`, since the invariant is broken at that point.
- Sushi.FindSmallestTravelTime: it does not state that the result is the shortest covering walk. The pass cap and the revisit ban can cut the search, so the heuristic need not find the optimum.
- Solution.Solution: it does not state that the answer is the shortest covering walk, for the same reason. It states that the answer is the bound left by the chain of searches, which `DrivesUnique` shows is fixed by the input, and that the answer is achieved by a covering walk.
