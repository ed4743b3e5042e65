# Graph algorithms over array-linked adjacency stores

This project models the core of a set of C and C++ graph-algorithm programs in Dafny and proves properties of the model. The programs share one representation. A graph is a set of parallel integer arrays: `first[u]` is the first edge out of vertex `u`, `next[e]` is the next edge in the same chain, and `vertex[e]` (or `pixel[e]`, `edge[e].v`) is the edge's head. Edge 0 is the null edge that ends every chain. On top of this store the programs run several algorithms:

- **Marker stack and queue** (`common/src/Stack.c`, `common/Queue.c`, and the copies inside the exercises). These are fixed-size containers with an optional `in_stack`/`in_queue` flag per vertex. Push skips a vertex that is already flagged, and Reset clears the flags.
- **Kahn's topological sort** (`proj/2016-2017/p1`). It reads `V E` and the edges, queues the vertices of in-degree 0, and removes them one at a time. It reports `Incoerente` when a vertex never frees, `Insuficiente` when one removal frees two vertices at once (the order is then not unique), and otherwise prints the unique order.
- **Tarjan's strongly connected components and the condensation graph** (`proj/2017-2018/p1`, in C and in C++). A recursive DFS with `disc`/`low` numbers and a vertex stack labels each vertex with the smallest vertex of its component. The program then connects component heads along every arc that crosses components.
- **The undirected/directed store with duplicate-arc rejection** (`proj/2018-2019/p2`). The same code is also in `proj/2020-2021/p1/src/proj.c`.
- **Longest path through a DAG** (`proj/2020-2021/p1`, in C and in C++). An iterative DFS yields a finishing order, a dynamic-programming pass assigns distances along it, and the program reports the number of vertices with distance 0 and the largest distance plus one.
- **Edmonds–Karp maximum flow** twice:
  - an image-segmentation network on an `m × n` pixel grid, with source 0, sink `m·n + 1`, and terminal arcs only for the larger of the two pixel weights (`proj/2017-2018/p2`);
  - a network of `N` vertices with paired reverse edges (`proj/2020-2021/p2`).

Each store the source updates in place is a Dafny `class` whose fields are the source's arrays. Each of these classes carries a ghost abstraction: the chain of edges of each vertex, and the adjacency lists `Adj()` those chains spell out. The methods are proved against pure specification functions on these lists (`ConnectSpec`, `ConnectAll`, `EdgeLists`, `Relax`, `Dfs`, `Crossings`), and the functions' properties are proved as lemmas. Reading input becomes parameters: the edge list, the grid weights, the terminal weights.

## Model

| member | source | states |
|---|---|---|
| MarkerStack.Stack.New | common/src/Stack.c:18-24 | a fresh stack is empty, its flag array has the requested size, and every flag is clear |
| MarkerStack.Push | common/src/Stack.c:26-32 | on a null stack nothing happens; otherwise `u` is appended and flagged exactly when it was not flagged, and the stack is unchanged when it was |
| MarkerStack.Pop | common/src/Stack.c:34-41 | returns 0 for a null stack; otherwise returns the top element, removes it and clears its flag |
| MarkerStack.Contains | common/src/Stack.c:48 | false for a null stack, otherwise true exactly when `u` is on the stack |
| MarkerStack.Size | common/src/Stack.c:47 | the number of elements held |
| MarkerStack.IsEmpty | common/src/Stack.c:49 | true exactly when the stack holds nothing |
| MarkerStack.Sort | common/src/Stack.c:43-46 | the held elements end in descending order and are a permutation of those held before |
| MarkerStack.Reset | common/src/Stack.c:51-54 | the stack becomes empty; the flags are cleared by index `0..idx-1`, not by the vertices held |
| MarkerStack.ResetLeavesStaleMark | common/src/Stack.c:51-54 | after pushing vertex 5 and resetting, vertex 5 is still flagged while the stack is empty, so a later push of 5 is silently dropped |
| MarkerStack.ResetHeld | common/src/Stack.c:51-54 | a reset that clears the flags of the vertices held leaves an empty stack with every flag clear |
| MarkerQueue.Queue.New | common/Queue.c:18-22 | an empty queue with `size + 1` slots, and a flag array with every flag clear exactly when reference counting is asked for |
| MarkerQueue.Queue.InQueue | common/Queue.c:28 | false without flags, otherwise true exactly when the vertex is held |
| MarkerQueue.Queue.Push | common/Queue.c:29-33 | a flagged vertex is skipped; otherwise it is appended at the back and flagged |
| MarkerQueue.Queue.Pop | common/Queue.c:34-38 | returns the front element, removes it and clears its flag |
| MarkerQueue.Queue.Size | common/Queue.c:40 | the number of elements between front and back |
| MarkerQueue.Queue.IsEmpty | common/Queue.c:41 | true exactly when nothing is held |
| MarkerQueue.Queue.Reset | common/Queue.c:42-45 | the queue becomes empty; the flags are cleared by index `0..back-1` |
| MarkerQueue.ResetAfterPopLeavesStaleMark | common/Queue.c:42-45 | after pushing 3 and 5 and popping 3, a reset leaves vertex 5 flagged in an empty queue |
| MarkerQueue.Queue.ResetHeld | common/Queue.c:42-45 | clearing the flags of the held vertices leaves an empty queue with every flag clear |
| MarkerQueue.Queue.Sort | common/Queue.c:46-49 | as written: sorts the first `back - front` slots from index 0, whatever `front` is |
| MarkerQueue.SortWrongWindow | common/Queue.c:46-49 | with data `[3, 7, 5]` and front 1, the as-written sort orders slots 0 and 1 instead of the live window, which becomes `[3, 5]`: not descending, and holding the popped 3 in place of 7 |
| MarkerQueue.Queue.SortLive | common/Queue.c:46-49 | sorting the live window `front..back` leaves it descending and a permutation of the held elements |
| MarkerQueue.SortedPair | common/Queue.c:46-49 | a descending permutation of two distinct elements is the larger followed by the smaller |
| VertexStacks.VertexStack.New | proj/2017-2018/p1/src/proj.c:45-50 | an empty stack with `size + 1` slots and every flag clear |
| VertexStacks.VertexStack.Push | proj/2017-2018/p1/src/proj.c:52-56 | `u` is appended and flagged unconditionally; the stack stays consistent when `u` was not already held |
| VertexStacks.VertexStack.Pop | proj/2017-2018/p1/src/proj.c:58-63 | returns the top element, removes it and clears its flag |
| VertexStacks.VertexStack.Contains | proj/2017-2018/p1/src/proj.c:65 | true exactly when `u` is held |
| VertexStacks.VertexStack.IsEmpty | proj/2017-2018/p1/src/proj.c:66 | true exactly when nothing is held |
| ArcStore.FindTail | proj/2016-2017/p1/src/proj.c:64-74 | the walk along `next` from `first[u]` returns the last edge of `u`'s chain |
| ArcStore.ChainedRead | proj/2016-2017/p1/src/proj.c:64-74 | a consistent store spells out each vertex's target list from its chain |
| ArcStore.ChainedAppend | proj/2016-2017/p1/src/proj.c:64-74 | linking a new edge at the tail of `u`'s chain appends its head to `u`'s list and changes no other list |
| ArcStore.ChainedEmpty | proj/2016-2017/p1/src/proj.c:85-87 | zeroed arrays spell out the empty graph |
| LinkedGraph.FindTarget | proj/2018-2019/p2/src/proj.c:68 | the search finds `v` exactly when `v` is already a target of `u`; when it does not, it stops on the chain's last edge |
| LinkedGraph.WalkChain | proj/2017-2018/p1/src/proj.c:153-155 | walking a chain collects exactly the vertex's target list |
| LinkedGraph.ConnectAllArcs | proj/2018-2019/p2/src/proj.c:99-112 | the arcs after loading edges into a directed graph are the arcs before together with exactly the edges read |
| LinkedGraph.ConnectArcs | proj/2018-2019/p2/src/proj.c:59-80 | one connection adds the arc `u→v`, and `v→u` too when the graph is undirected and `u→v` was new |
| LinkedGraph.AddArcs | proj/2018-2019/p2/src/proj.c:64-75 | adding a target adds exactly that arc |
| LinkedGraph.ConnectKeepsSymmetric | proj/2018-2019/p2/src/proj.c:59-80 | undirected connections keep a symmetric graph symmetric |
| LinkedGraph.ConnectIdempotent | proj/2018-2019/p2/src/proj.c:59-80 | connecting the same pair twice changes nothing the second time |
| LinkedGraph.Graph.New | proj/2018-2019/p2/src/proj.c:83-96 | a new graph has `V + 1` empty lists, no edges, and an edge array of `2E + 1` slots when undirected and `E + 1` otherwise |
| LinkedGraph.Graph.Connect | proj/2018-2019/p2/src/proj.c:59-80 | the lists become `ConnectSpec` of the old ones, and the edge count grows by the number of arcs added |
| LinkedGraph.Graph.LinkArc | proj/2018-2019/p2/src/proj.c:61-75 | the arc is added exactly when `v` was not already a target of `u`, and the lists become `Add` of the old ones |
| LinkedGraph.Graph.Unlink | proj/2018-2019/p2/src/proj.c:70-73 | undoing the slot written for a duplicate arc leaves a consistent store whose target lists are those before the attempt |
| LinkedGraph.Graph.LinkTail | proj/2018-2019/p2/src/proj.c:64-75 | linking after the found tail appends `v` to `u`'s list |
| LinkedGraph.Graph.Neighbours | proj/2017-2018/p1/src/proj.c:153-155 | the walk returns `u`'s target list |
| LinkedGraph.Graph.Rewrite | proj/2017-2018/p1/src/proj.c:160-164 | writing a list back into the chain's slots replaces `u`'s targets and nothing else |
| LinkedGraph.Graph.Sort | proj/2017-2018/p1/src/proj.c:142-169 | every target list ends sorted ascending (`SortEach` of the old lists) |
| LinkedGraph.Graph.Init | proj/2018-2019/p2/src/proj.c:99-112 | the lists become `ConnectAll` of the old ones over the edges read |
| LinkedGraph.Graph.Reset | proj/2018-2019/p2/src/proj.c:114-120 | the graph becomes the empty graph on the same vertices with no edges |
| LinkedGraph.Memset | proj/2018-2019/p2/src/proj.c:116-118 | a range of an array is zeroed and nothing else changes |
| Kahn.Queue.New | proj/2016-2017/p1/src/proj.c:27 | an empty queue of the requested size |
| Kahn.Queue.IsEmpty | proj/2016-2017/p1/src/proj.c:30 | true exactly when nothing is queued |
| Kahn.Queue.Enqueue | proj/2016-2017/p1/src/proj.c:28 | appends at the rear |
| Kahn.Queue.Dequeue | proj/2016-2017/p1/src/proj.c:29 | returns and removes the front element |
| Kahn.Graph.New | proj/2016-2017/p1/src/proj.c:79-110 | after reading the edges, the lists are those of the edges in input order and each in-degree counts the arcs into its vertex; the status is Incoerente |
| Kahn.Graph.Load | proj/2016-2017/p1/src/proj.c:92-101 | the edge loop builds `EdgeLists` of the edges read and the matching in-degrees |
| Kahn.Graph.Connect | proj/2016-2017/p1/src/proj.c:59-76 | appends `b` to `a`'s list and increments the in-degree of `b` |
| Kahn.Graph.EnqueueOrphans | proj/2016-2017/p1/src/proj.c:103-108 | the queue holds the vertices of in-degree 0 in increasing order |
| Kahn.Graph.Sort | proj/2016-2017/p1/src/proj.c:143-174 | as written: the result lists vertices in an order that respects every arc among them; Correct means all `V` were listed, Incoerente that the removal got stuck with vertices left, and Insufficient that some removal freed two vertices at once |
| Kahn.Graph.SortUnique | proj/2016-2017/p1/src/proj.c:143-174 | with the uniqueness test also applied to the initial orphans, a Correct status means the listing is the only topological order |
| Kahn.Graph.Run | proj/2016-2017/p1/src/proj.c:146-169 | the loop's outcome is the pure pass `Pass` over the queue's contents |
| Kahn.Graph.Take | proj/2016-2017/p1/src/proj.c:147-168 | one turn of the loop: the front vertex is listed and its targets released |
| Kahn.Graph.Pop | proj/2016-2017/p1/src/proj.c:147-148 | the front vertex is dequeued and stored in the result |
| Kahn.Graph.Release | proj/2016-2017/p1/src/proj.c:151-167 | decrementing along `u`'s chain behaves as the pure `Drain` of its target list |
| Kahn.Graph.Drop | proj/2016-2017/p1/src/proj.c:155-160 | one decrement; the target is queued exactly when its in-degree reaches 0 |
| Kahn.Message | proj/2016-2017/p1/src/proj.c:121-140 | the message is empty exactly for the Correct status |
| Kahn.MessageDistinct | proj/2016-2017/p1/src/proj.c:121-140 | distinct statuses give distinct messages |
| Kahn.SolveAsWritten | proj/2016-2017/p1/src/proj.c:177-192 | as written: the whole run on the edges read gives the outcome described for `Kahn.Graph.Sort`, and an Insufficient status comes with a listed vertex whose removal left two of its targets free to come next |
| Kahn.Solve | proj/2016-2017/p1/src/proj.c:177-192 | corrected: the same run with `Kahn.Graph.SortUnique`, so a Correct order is also the unique topological order |
| KahnOrder.StuckNoOrder | proj/2016-2017/p1/src/proj.c:171-173 | when the removal stops before listing every vertex, no topological order of the graph exists |
| KahnOrder.ForcedUnique | proj/2016-2017/p1/src/proj.c:162-166 | a full listing in which every step had a single free vertex is the only topological order |
| KahnOrder.AmbiguousOrders | proj/2016-2017/p1/src/proj.c:162-166 | when two vertices are free at once, two different topological orders exist |
| KahnOrder.OrphansNotCompared | proj/2016-2017/p1/src/proj.c:103-108 | on input `2 0` both vertices start free, the run reports Correct, yet both `[1, 2]` and `[2, 1]` are topological orders |
| KahnPass.Settle | proj/2016-2017/p1/src/proj.c:162-173 | a finished pass fixes the status as described for `Kahn.Graph.Sort` |
| KahnPass.SettleUnique | proj/2016-2017/p1/src/proj.c:162-173 | a finished pass with forced steps and a full listing gives a unique order |
| KahnState.EdgeListsOut | proj/2016-2017/p1/src/proj.c:92-101 | the list of `u` holds the heads of the edges out of `u`, in input order |
| KahnState.CountsInDegree | proj/2016-2017/p1/src/proj.c:62 | the counted in-degree equals the number of arcs into the vertex |
| KahnState.ZerosMember | proj/2016-2017/p1/src/proj.c:103-108 | a vertex is an initial orphan exactly when its in-degree is 0 |
| Tarjan.Search.New | proj/2017-2018/p1/src/proj.c:233-243 | nothing discovered, every head 0, an empty stack, no components and discovery time 0 |
| Tarjan.Search.Discover | proj/2017-2018/p1/src/proj.c:197-198 | `u` gets the next discovery number as both `disc` and `low` and is pushed |
| Tarjan.Search.MoveComponent | proj/2017-2018/p1/src/proj.c:219-223 | the stack above `u`'s position, `u` included, moves to the temporary stack with the same elements, and the vertex returned is the smallest of them |
| Tarjan.Search.AssignHeads | proj/2017-2018/p1/src/proj.c:224-227 | every vertex moved gets the vertex returned by the move as its head, and the temporary stack ends empty |
| Tarjan.Search.PopComponent | proj/2017-2018/p1/src/proj.c:215-228 | the stack is cut at `u`'s position; every vertex above it gets the smallest of them as head, every other head is kept, and the component count grows by one |
| Tarjan.Search.Begin | proj/2017-2018/p1/src/proj.c:196-200 | after `u` is numbered and pushed, the loop state over `u`'s targets holds at the first target: `u` sits on top of the old stack with `disc[u] = low[u]` the next number, and `u` reaches itself |
| Tarjan.Search.Visit | proj/2017-2018/p1/src/proj.c:189-229 | `u` gets the next discovery number; older numbers and other vertices' `low` values are kept; `u` leaves the undiscovered set; the stack only grows, and a visit begun on an empty stack ends on one; every vertex left stacked above the old stack reaches `u`, and all of their targets are numbered and either still stacked with a number at least `low[u]` or already assigned to a component |
| Tarjan.Search.ExploreAll | proj/2017-2018/p1/src/proj.c:200-212 | the loop over `u`'s targets keeps the loop state from the first target to past the last |
| Tarjan.Search.Explore | proj/2017-2018/p1/src/proj.c:201-211 | one target moves the loop state on by one: the targets seen so far are settled, `low[u]` stays between the number of the bottom of the stack and `disc[u]` and is the number of a stacked vertex that `u` reaches |
| Tarjan.Search.Descend | proj/2017-2018/p1/src/proj.c:204-207 | recursing into an undiscovered target and taking the smaller `low` keeps the loop state; the target is reached from every stacked vertex when the recursion starts |
| Tarjan.Search.Lower | proj/2017-2018/p1/src/proj.c:206-210 | `low[u]` alone is overwritten (lines 206 and 210) and the search state stays valid |
| Tarjan.Search.Close | proj/2017-2018/p1/src/proj.c:215-228 | the root test ends the visit: with `low[u] == disc[u]` the stack is cut at `u`, otherwise `u` stays stacked with a lower `low[u]` whose vertex `u` reaches |
| Tarjan.Search.Run | proj/2017-2018/p1/src/proj.c:246-250 | after the outer loop every vertex is discovered, the heads form a partition in which each vertex's head is at most the vertex and is its own head, the component count is the number of heads, and two vertices have the same head exactly when each reaches the other |
| Reachability.ReachTrans | proj/2017-2018/p1/src/proj.c:200-212 | walks compose: reaching `y` from `x` and `z` from `y` reaches `z` from `x` |
| Reachability.ClosedReach | proj/2017-2018/p1/src/proj.c:215-228 | a vertex set that no arc leaves contains everything reached from it |
| SearchReach.DiscoverKeepsTracked | proj/2017-2018/p1/src/proj.c:197-198 | pushing a vertex that every stacked vertex reaches keeps the reachability invariant |
| SearchReach.PopKeepsTracked | proj/2017-2018/p1/src/proj.c:215-228 | popping the vertices above a root that reach it and whose targets are settled keeps the popped set closed under arcs and keeps "same head exactly when mutually reachable" among popped vertices |
| SearchReach.TrackedFinished | proj/2017-2018/p1/src/proj.c:246-250 | once every vertex is popped, two vertices have the same head exactly when each reaches the other |
| SearchReach.LoopStart | proj/2017-2018/p1/src/proj.c:196-200 | numbering and pushing `u` establishes the loop state at the first target |
| SearchReach.ExploreChild | proj/2017-2018/p1/src/proj.c:204-207 | the state after the recursion into `v` and `low[u] = min(low[u], low[v])` is the loop state at the next target |
| SearchReach.ExploreStacked | proj/2017-2018/p1/src/proj.c:209-211 | `low[u] = min(low[u], disc[v])` for a stacked `v` gives the loop state at the next target |
| SearchReach.ExploreAssigned | proj/2017-2018/p1/src/proj.c:200-212 | a target already assigned to a component needs no update |
| SearchReach.ChildDone | proj/2017-2018/p1/src/proj.c:204-207 | after the recursion, the vertices stacked above `u` still reach `u`, and the vertex whose number is the new `low[u]` is stacked and reached from `u` |
| SearchReach.StackedTarget | proj/2017-2018/p1/src/proj.c:209-211 | a stacked target reached by an arc from `u` is a valid witness for the lowered `low[u]` |
| SearchReach.Closing | proj/2017-2018/p1/src/proj.c:215 | with `low[u] == disc[u]` every vertex above `u` reaches `u` and all their targets are settled, which the pop needs |
| SearchReach.Remains | proj/2017-2018/p1/src/proj.c:215 | with `low[u] < disc[u]`, `u` stays stacked and reaches a vertex below it |
| SearchReach.ClosePopped | proj/2017-2018/p1/src/proj.c:215-228 | popping down to `u` ends the visit state |
| SearchReach.CloseKept | proj/2017-2018/p1/src/proj.c:215 | leaving `u` stacked ends the visit state |
| SearchState.RootsAreHeads | proj/2017-2018/p1/src/proj.c:224-227 | a vertex counts as a component head exactly when it is its own head |
| SearchState.AssignComponent | proj/2017-2018/p1/src/proj.c:224-227 | assigning the popped vertices keeps every discovered vertex consistently assigned and adds exactly one new component head, the root |
| SccLinked.CrossingsMember | proj/2017-2018/p1/src/proj.c:253-263 | a pair is collected exactly when some arc joins two different components with those heads |
| SccLinked.CrossesJoinsHeads | proj/2017-2018/p1/src/proj.c:253-263 | every collected pair joins two different component heads |
| SccLinked.Condense | proj/2017-2018/p1/src/proj.c:253-263 | the condensation store becomes `ConnectAll` of its old lists over the crossing pairs |
| SccLinked.ConnectCrossing | proj/2017-2018/p1/src/proj.c:255-262 | one crossing arc connects the two heads |
| SccLinked.Components | proj/2017-2018/p1/src/proj.c:241-250 | the search yields a partition of `1..V`, counts its heads, and two vertices share a head exactly when each reaches the other |
| SccLinked.CrossesReach | proj/2017-2018/p1/src/proj.c:259-260 | each condensation arc leads from a head to a head it reaches |
| SccLinked.CondensedWalkReach | proj/2017-2018/p1/src/proj.c:253-263 | a walk of condensation arcs ends at a vertex its start reaches |
| SccLinked.CondensationAcyclic | proj/2017-2018/p1/src/proj.c:253-263 | no walk of one or more condensation arcs returns to its start |
| SccLinked.CondensedArcs | proj/2017-2018/p1/src/proj.c:253-263 | the condensation's arcs are the old arcs together with the crossing pairs |
| SccLinked.SccFind | proj/2017-2018/p1/src/proj.c:231-271 | the component graph has one vertex per component head; two vertices share a head exactly when each reaches the other; `a→b` is one of its arcs exactly when some arc of the graph goes from component `a` to component `b`; and those arcs form no cycle |
| SccLists.Max | proj/2017-2018/p1/src/proj.cpp:227 | the larger of two integers |
| SccLists.ListGraph.New | proj/2017-2018/p1/src/proj.cpp:74-79 | `V + 1` empty lists and no vertex marked |
| SccLists.ListGraph.HasConnection | proj/2017-2018/p1/src/proj.cpp:118-123 | true exactly when `v` is in `u`'s list |
| SccLists.ListGraph.Connect | proj/2017-2018/p1/src/proj.cpp:125-141 | a new arc is appended and counted; both endpoints are marked, and the vertex count grows by the number of newly marked endpoints |
| SccLists.ListGraph.Mark | proj/2017-2018/p1/src/proj.cpp:128-135 | marking counts a vertex once |
| SccLists.ListGraph.Init | proj/2017-2018/p1/src/proj.cpp:80-93 | after the edges are read, the lists are `ConnectAll` over them and the vertex count is the number of endpoints seen |
| SccLists.ListGraph.Sort | proj/2017-2018/p1/src/proj.cpp:143-150 | every list ends sorted ascending |
| SccLists.CondenseLists | proj/2017-2018/p1/src/proj.cpp:214-224 | the condensation receives exactly the crossing pairs, in scan order |
| SccLists.Fits | proj/2017-2018/p1/src/proj.cpp:193-195 | true exactly when every target of the lists `0..nr_vertices` is an id in `1..nr_vertices`, so `disc[v]` stays within the `nr_vertices + 1` slots |
| SccLists.SccFindAsWritten | proj/2017-2018/p1/src/proj.cpp:191-233 | as written: the run fails (an error outcome, `scc` untouched) exactly when a searched list names an id past `nr_vertices`; otherwise the search runs over `1..nr_vertices` (the endpoints seen), heads are shared exactly by mutually reachable vertices, the condensation gets the crossing pairs, and the component count is the number of endpoints of crossing arcs, at least 1 |
| SccLists.CondenseWritten | proj/2017-2018/p1/src/proj.cpp:213-227 | as written: `scc` gains exactly the crossing pairs of the search result and its vertex count, raised by the endpoints newly marked, is at least 1 |
| SccLists.EndpointCountTooSmall | proj/2017-2018/p1/src/proj.cpp:128-135 | on input `3 1 / 1 3` the graph counts 2 vertices while vertex 1 lists vertex 3: the search from 1 recurs into 3 past the 3-slot arrays, the error outcome of `SccFindAsWritten` |
| SccLists.TwoCyclesCountedOnce | proj/2017-2018/p1/src/proj.cpp:227 | on input `4 4 / 1 2 / 2 1 / 3 4 / 4 3` there are two components and no crossing arc, yet the count reported is 1 |
| SccLists.AsWrittenCountBelow | proj/2017-2018/p1/src/proj.cpp:214-227 | the as-written count never exceeds the true number of components |
| SccLists.SccFind | proj/2017-2018/p1/src/proj.cpp:191-233 | corrected: the search covers every vertex, the count is the number of component heads, two vertices share a head exactly when each reaches the other, `a→b` is an arc of the condensation exactly when some arc goes from component `a` to component `b`, and the condensation has no cycle |
| DfsWalk.DfsCovers | proj/2020-2021/p1/src/proj.c:199-238 | every vertex is visited; the order holds exactly the vertices `1..V`, each once and `V` in all when finished vertices are guarded |
| DfsWalk.SearchVisited | proj/2020-2021/p1/src/proj.c:208-234 | after the search every vertex is visited |
| PathDp.Relaxed | proj/2020-2021/p1/src/proj.c:194 | the as-written rule sets `d[v]` to `d[u] + 1`; the corrected rule raises it to that value when it is larger |
| PathDp.RelaxRealised | proj/2020-2021/p1/src/proj.c:186-197 | every distance the pass assigns is realised by a path with that many arcs ending at the vertex |
| PathDp.LiftLongest | proj/2020-2021/p1/src/proj.c:186-197 | with the corrected rule and a topological pop order, every distance is realised and no path to a vertex is longer |
| PathDp.ZeroIffUnreached | proj/2020-2021/p1/src/proj.c:253 | a vertex keeps distance 0 exactly when no vertex of the pop order has an arc into it |
| PathDp.NrPathsCountsSources | proj/2020-2021/p1/src/proj.c:253 | the number of vertices at distance 0 is the number of vertices with no incoming arc |
| PathDp.LongestRealised | proj/2020-2021/p1/src/proj.c:254-256 | some path has as many vertices as the largest distance plus one |
| PathDp.LiftReportsLongest | proj/2020-2021/p1/src/proj.c:252-256 | under the corrected rule and a topological order, the reported length is the number of vertices of a longest path |
| TopoC.DFS | proj/2020-2021/p1/src/proj.c:199-238 | the order stack and the visited flags are those of the value-level search `Dfs` |
| TopoC.Visit | proj/2020-2021/p1/src/proj.c:209-233 | the search from one source follows the value-level search of one round |
| TopoC.Advance | proj/2020-2021/p1/src/proj.c:214-232 | one pop of the search stack follows the value-level `Step` |
| TopoC.PushTargets | proj/2020-2021/p1/src/proj.c:226-232 | the unvisited targets of `u` are pushed in chain order |
| TopoC.DP | proj/2020-2021/p1/src/proj.c:186-197 | the distances are `Relax` over the order stack popped from the top, and the stack ends empty |
| TopoC.Summarise | proj/2020-2021/p1/src/proj.c:252-256 | the path count is the number of vertices at distance 0 and the length is the largest distance plus one |
| TopoC.DfsReports | proj/2020-2021/p1/src/proj.c:240-262 | the reported count is the number of sources and some path has the reported length |
| TopoC.TopologicalSort | proj/2020-2021/p1/src/proj.c:240-262 | the count of paths is the number of vertices without an incoming arc; the length is the largest distance plus one and is realised by a path; with the corrected rule and a topological order it bounds every path |
| TopoCpp.ConnectionsMember | proj/2020-2021/p1/src/proj.cpp:41-45 | `v` is a target of `u` exactly when some edge read is `(u, v)` |
| TopoCpp.Skipped | proj/2020-2021/p1/src/proj.cpp:82 | the pass pops every vertex of the order except the first one pushed, the vertex the `idx > 0` test leaves out |
| TopoCpp.PeakMax | proj/2020-2021/p1/src/proj.cpp:133-136 | the tally's length is the largest distance plus one |
| TopoCpp.ListReports | proj/2020-2021/p1/src/proj.cpp:128-137 | the tally's length is realised by a path; when the skipped vertex has no targets, the count is the number of sources, and with the corrected rule and a topological order no path is longer than the length |
| TopoCpp.Graph.constructor | proj/2020-2021/p1/src/proj.cpp:65-69 | an empty graph |
| TopoCpp.Connect | proj/2020-2021/p1/src/proj.cpp:71-77 | appends `v` to `u`'s list, and `u` to `v`'s when bidirectional |
| TopoCpp.ConnectEdges | proj/2020-2021/p1/src/proj.cpp:41-45 | starting from empty lists, the lists become `EdgeLists` of the edges read, in input order |
| TopoCpp.Graph.Read | proj/2020-2021/p1/src/proj.cpp:32-48 | `V + 1` lists holding the edges read, in input order |
| TopoCpp.Graph.DFS | proj/2020-2021/p1/src/proj.cpp:93-126 | the order and visited flags are those of the value-level search without the finished-vertex guard |
| TopoCpp.Graph.DP | proj/2020-2021/p1/src/proj.cpp:79-91 | the distances are `Relax` over the order without its last vertex |
| TopoCpp.Graph.Tally | proj/2020-2021/p1/src/proj.cpp:133-136 | counts the vertices at distance 0 and takes the largest distance |
| TopoCpp.Graph.TopologicalSort | proj/2020-2021/p1/src/proj.cpp:128-137 | the order is that of the value-level search without the finished-vertex guard, the distances are the pass over it, and the count and length are their tally |
| TopoCpp.Solve | proj/2020-2021/p1/src/proj.cpp:139-154 | on the edges read, some path has the reported length; when the skipped vertex has no targets the count is the number of sources; under the corrected rule and a topological order no path is longer |
| DfsTraces.AssignReportsShort | proj/2020-2021/p1/src/proj.c:194 | on input `4 3 / 2 3 / 3 4 / 1 4`, the as-written run reports 2 while the path `2 → 3 → 4` has 3 vertices |
| DfsTraces.LiftReportsChain | proj/2020-2021/p1/src/proj.c:194 | on the same input the corrected rule reports 3 |
| DfsTraces.OrderNotTopological | proj/2020-2021/p1/src/proj.c:199-238 | on input `4 4 / 1 2 / 1 3 / 3 2 / 2 4` the popped order is `[1, 2, 4, 3]`, which puts 2 before its predecessor 3 on the path `1 → 3 → 2 → 4`; even the corrected rule then reports 3 for a path of 4 vertices |
| DfsTraces.CrossFixed | proj/2020-2021/p1/src/proj.c:199-238 | the same input has no cycle, and with the `dfs` stack made plain the corrected run reports at least the 4 vertices of `1 → 3 → 2 → 4` |
| DfsTopo.ScanFresh | proj/2020-2021/p1/src/proj.c:226-232 | corrected: with a plain `dfs` stack, every entry the target loop pushes is a target of `u` not yet visited |
| DfsTopo.ScanAll | proj/2020-2021/p1/src/proj.c:226-232 | corrected: with a plain `dfs` stack, every unvisited target of `u` is pushed, even one already waiting lower on the stack |
| DfsTopo.NoBackArc | proj/2020-2021/p1/src/proj.c:221-232 | on an acyclic graph, a target already visited when `u` is opened is already in `order` |
| DfsTopo.StepSound | proj/2020-2021/p1/src/proj.c:214-232 | corrected: one pop keeps the search invariant: `order` lists distinct vertices, each after all its targets; a visited vertex is listed or on the stack; a vertex under way has each target listed or above it and reaches every entry above its topmost one |
| DfsTopo.FixedTopological | proj/2020-2021/p1/src/proj.c:199-238 | corrected: on every acyclic graph with no arc out of vertex 0, popping `order` gives a topological order: each vertex `1..V` once, after every source of its in-arcs |
| DfsTopo.TopologicalAcyclic | proj/2020-2021/p1/src/proj.c:199-238 | the converse: a graph with a topological order has no cycle, so acyclicity is exactly the hypothesis the corrected search needs |
| DfsTopo.FixedReportsLongest | proj/2020-2021/p1/src/proj.c:240-262 | corrected: the corrected search and the corrected pass report, on every nonempty acyclic graph, the vertex count of a longest path: some path has it and none is longer |
| DfsTraces.DuplicateOrder | proj/2020-2021/p1/src/proj.cpp:93-126 | without the finished-vertex guard, a vertex reached twice is listed twice: `[2, 3, 2, 1]` |
| PixelQueue.Queue.constructor | proj/2017-2018/p2/src/proj.c:45-49 | an empty queue of the requested size, with a clear flag array exactly when reference counting is asked for |
| PixelQueue.Queue.Push | proj/2017-2018/p2/src/proj.c:55-58 | appends at the rear and sets the flag |
| PixelQueue.Queue.Pop | proj/2017-2018/p2/src/proj.c:59-63 | returns and removes the front element and clears its flag |
| PixelQueue.Queue.Size | proj/2017-2018/p2/src/proj.c:65 | the number held |
| PixelQueue.Queue.InQueue | proj/2017-2018/p2/src/proj.c:66 | false without flags, otherwise the flag |
| PixelQueue.Queue.IsEmpty | proj/2017-2018/p2/src/proj.c:67 | true exactly when nothing is held |
| PixelQueue.Queue.Reset | proj/2017-2018/p2/src/proj.c:68-71 | empty, with the first `rear` flags cleared |
| PixelGraph.Graph.constructor | proj/2017-2018/p2/src/proj.c:101-125 | no edges, weight 0, every pixel segment `'P'`, sink `m·n + 1`, and room for every arc `graph_init` can add |
| PixelGraph.Graph.Connect | proj/2017-2018/p2/src/proj.c:154-170 | the new edge is appended at the tail of `u`'s chain and recorded as the next arc |
| PixelGraph.Graph.GetEdge | proj/2017-2018/p2/src/proj.c:146-151 | the first edge of `u` whose head is `v`, or 0 |
| PixelGraph.Graph.GetFWeight | proj/2017-2018/p2/src/proj.c:232-234 | in a simple network, the capacity of the arc `u→v`, or that of the null edge when there is none |
| PixelGraph.Graph.GetLWeight | proj/2017-2018/p2/src/proj.c:235 | the same for the arc from the source |
| PixelGraph.Graph.GetCWeight | proj/2017-2018/p2/src/proj.c:236 | the same for the arc into the sink |
| PixelGraph.Graph.ConnectTerminals | proj/2017-2018/p2/src/proj.c:185-199 | per pixel, one terminal arc for the difference of its two weights, and the weight grows by the smaller of the two |
| PixelGraph.Graph.ConnectRows | proj/2017-2018/p2/src/proj.c:202-214 | an arc each way between horizontal neighbours with a positive weight, row by row |
| PixelGraph.Graph.ConnectColumns | proj/2017-2018/p2/src/proj.c:216-228 | an arc each way between vertical neighbours with a positive weight, row by row |
| PixelGraph.Graph.Init | proj/2017-2018/p2/src/proj.c:173-229 | the arcs are `InitArcs` in call order, they form a simple network, and the weight grows by the sum of `min(l, c)` |
| PixelGrid.InitShape | proj/2017-2018/p2/src/proj.c:173-229 | every initial arc has positive capacity, leaves a vertex other than the sink for a vertex other than the source, is no loop and no source-to-sink arc; no endpoint pair repeats; there are at most `MaxArcs` arcs, and exactly that many when no weight rules an arc out |
| PixelGrid.InitCount | proj/2017-2018/p2/src/proj.c:173-229 | at most one terminal arc per pixel and two arcs per positive neighbour pair, `m·n + 2·m·(n−1) + 2·(m−1)·n` in all, reached when no weight rules an arc out |
| PixelGrid.NumEShort | proj/2017-2018/p2/src/proj.c:104 | `num_e` falls short of the arcs `graph_init` can add exactly when `(m−1)(n−1) > 3`; a 3×3 grid can need 33 arcs while `num_e` is 32 |
| PixelNet.FirstToSimple | proj/2017-2018/p2/src/proj.c:146-151 | in a simple network the walk returns the unique arc `u→v`, and 0 exactly when there is none |
| PixelNet.UniqueEdge | proj/2017-2018/p2/src/proj.c:146-151 | two arcs of a simple network with the same ends are the same edge |
| PixelNet.SumUpdate | proj/2017-2018/p2/src/proj.c:363-366 | changing one residual changes the sum over a set of edges by the same amount when the edge is in it |
| PixelSearch.Min | proj/2017-2018/p2/src/proj.c:19 | the smaller of two integers |
| PixelSearch.ClosedWalk | proj/2017-2018/p2/src/proj.c:333 | a reached set closed under positive residual arcs holds the end of every residual walk that starts in it |
| PixelSearch.TreeWalk | proj/2017-2018/p2/src/proj.c:333 | every vertex of a search tree has a residual walk from `s` whose every edge has residual at least the bottleneck |
| PixelSearch.SearchAnswer | proj/2017-2018/p2/src/proj.c:333 | the search's answer is true exactly when a residual walk from `s` to `t` exists |
| PixelFlow.ClearParents | proj/2017-2018/p2/src/proj.c:310 | every parent entry becomes NIL |
| PixelFlow.AttainedVisit | proj/2017-2018/p2/src/proj.c:326 | after a vertex gets its parent, the new bottleneck is still the starting value or the residual of a tree edge |
| PixelFlow.Visit | proj/2017-2018/p2/src/proj.c:321-329 | the head of the arc gets its parent when it was unreached and the residual is positive; the scan stops exactly when that head is `t`; the bottleneck only drops and stays positive, and it stays the starting value or the residual of a tree edge |
| PixelFlow.ScanChain | proj/2017-2018/p2/src/proj.c:320-330 | the scan of `u`'s chain keeps the search invariant, and the bottleneck only drops and stays positive |
| PixelFlow.Drain | proj/2017-2018/p2/src/proj.c:316-331 | the queue loop ends with the queue empty and the search invariant kept; the bottleneck only drops and stays positive |
| PixelFlow.Bfs | proj/2017-2018/p2/src/proj.c:306-334 | the answer is true exactly when `t` has a parent, exactly when a residual walk from `s` to `t` exists; when false, the reached set is closed under positive residual arcs; when true, the parents form a tree whose every edge has residual at least the bottleneck; the bottleneck is the starting value or the residual of the tree edge into some reached vertex |
| PixelFlow.BackStepAt | proj/2017-2018/p2/src/proj.c:362-366 | one step: the residual array becomes the old one with the tree edge into `v` lowered by the bottleneck and the edge from `v` back to its parent (slot 0 exactly when the network has none) raised by it |
| PixelAugment.PushedElsewhere | proj/2017-2018/p2/src/proj.c:361-367 | a residual that no step of the backtrack names keeps its value |
| PixelAugment.BackPathStep | proj/2017-2018/p2/src/proj.c:361-367 | a backtrack step from `v` to its parent extends the walked path and the residual fold by that one step |
| PixelFlow.Augment | proj/2017-2018/p2/src/proj.c:361-367 | corrected backtrack: the new residual array is the old one with, for each vertex of the tree path from `t` down to `s` (the one leaving `s` included), the tree edge into it lowered by the bottleneck and its reverse (slot 0 when there is none) raised by it, in path order; the residual out of `s` and that into `t` each drop by the bottleneck |
| PixelFlow.AugmentAsWritten | proj/2017-2018/p2/src/proj.c:361-367 | as written: the same fold along the tree path from `t`, but the path stops at the vertex whose parent is `s`, so the edge leaving `s` keeps its residual |
| PixelFlow.MarkCut | proj/2017-2018/p2/src/proj.c:381-386 | a pixel becomes `'C'` exactly when the last search reached it; the others keep their segment |
| PixelFlow.Round | proj/2017-2018/p2/src/proj.c:355-374 | one turn keeps the two total equations (the flow equals what the arcs out of `s` have lost and what the arcs into `t` have lost) and non-negative residuals; a turn that ends the loop leaves the search settled, and any other turn strictly lowers the residual into `t` |
| PixelFlow.EdmondsKarp | proj/2017-2018/p2/src/proj.c:336-392 | corrected: the residuals stay non-negative; the flow equals what the arcs out of `s` and those into `t` have each lost; at the end no residual walk reaches `t`, or the last tree has an unbounded bottleneck; and the pixels reached by the last search are marked `'C'` |
| PixelFlow.RoundAsWritten | proj/2017-2018/p2/src/proj.c:355-374 | as written, one turn keeps only the equation on the arcs into `t` |
| PixelFlow.EdmondsKarpAsWritten | proj/2017-2018/p2/src/proj.c:336-392 | as written: the flow equals what the arcs into `t` have lost, while every arc out of `s` keeps its full capacity |
| PixelAugment.SecondPathAsWritten | proj/2017-2018/p2/src/proj.c:361 | on the 1×2 image `5 0 / 0 10 / 20`, the first path already carries the whole capacity 5 out of `s`, yet the as-written backtrack leaves the source arc at its full residual, so every finished search reaches `t` again and the flow reported exceeds the cut of 5 |
| PixelAugment.StopsCorrected | proj/2017-2018/p2/src/proj.c:361 | with the corrected backtrack, the same network has no augmenting path left after flow 5 |
| PixelAugment.FlowBound | proj/2017-2018/p2/src/proj.c:369 | the flow never exceeds the total capacity into `t` nor that out of `s` |
| PixelFlow.UpdateWeightsAsWritten | proj/2017-2018/p2/src/proj.c:394-411 | as written: the weight grows by the flow of `PixelFlow.EdmondsKarpAsWritten`, what the arcs into `t` have lost (every arc out of `s` keeps its capacity), between 0 and the total capacity into `t` |
| PixelFlow.UpdateWeights | proj/2017-2018/p2/src/proj.c:394-411 | corrected: the weight grows by the flow of the corrected `PixelFlow.EdmondsKarp`, which equals what the arcs out of `s` and those into `t` have each lost and lies between 0 and the total capacity into `t` |
| FlowNet.Same | proj/2020-2021/p2/src/proj.cpp:31-33 | two edges compare equal exactly when their tails and heads agree, whatever their residuals |
| FlowNet.Differ | proj/2020-2021/p2/src/proj.cpp:28-30 | the exact negation of `Same` |
| FlowNet.ReplaySymmetric | proj/2020-2021/p2/src/proj.cpp:130-155 | bidirectional connections keep the adjacency symmetric |
| FlowNet.BuiltShape | proj/2020-2021/p2/src/proj.cpp:86-98 | the network read has symmetric adjacency, and the source and the sink each list exactly the vertices `1..N` |
| FlowNet.FindEdge | proj/2020-2021/p2/src/proj.cpp:137-138 | the search finds `v` exactly when `v` is a target of `u`, and otherwise stops on the chain's last edge |
| FlowNet.Network.ConnectAsWritten | proj/2020-2021/p2/src/proj.cpp:130-155 | as written: the result is true exactly when `v` was not yet a target of `u`; the lists become `ConnectSpec` of the old ones, the new edges are appended, the reverse edge records the forward edge in `prev` and the forward edge keeps `prev` 0 |
| FlowNet.Network.Connect | proj/2020-2021/p2/src/proj.cpp:130-155 | corrected: the same result, lists and edges, but the two edges of a bidirectional connection record each other in `prev` |
| FlowNet.Network.PairFirst | proj/2020-2021/p2/src/proj.cpp:150 | corrected: the forward edge gets its reverse, the last edge, as `prev`; the store stays valid and the lists unchanged |
| FlowNet.PairConserved | proj/2020-2021/p2/src/proj.cpp:148-151 | corrected: after a connection stored both edges, pushing any amount along either edge moves it to the other, so the pair's residual total is unchanged |
| FlowNet.PairLostAsWritten | proj/2020-2021/p2/src/proj.cpp:148-151 | as written: the forward edge's `prev` is 0, so pushing `df` along it lowers the pair's residual total by `df` |
| FlowNet.Network.LinkOne | proj/2020-2021/p2/src/proj.cpp:132-146 | one directed arc, added exactly when it is new |
| FlowNet.Network.Load | proj/2020-2021/p2/src/proj.cpp:61-98 | the network read is the replay, with the corrected `Connect`, of the terminal and inner connections, in input order |
| FlowNet.Network.ConnectTerminals | proj/2020-2021/p2/src/proj.cpp:86-91 | the source and sink connections of every vertex, in order |
| FlowNet.Network.ConnectInner | proj/2020-2021/p2/src/proj.cpp:94-98 | the inner connections, in order |
| FlowNet.Network.BFS | proj/2020-2021/p2/src/proj.cpp:162-200 | true exactly when a residual walk from the source reaches the sink; then `parent` holds the tree edges of a search tree reaching the sink, and otherwise the reached set is closed |
| FlowNet.Network.PathFlow | proj/2020-2021/p2/src/proj.cpp:216-224 | the bottleneck is positive, at most every residual on the path, and equal to one of them (or INT_MAX) |
| FlowNet.PrevPathStep | proj/2020-2021/p2/src/proj.cpp:228-238 | a step of the walk from `v` to its parent extends the walked path and the residual fold by that one step |
| FlowNet.Network.Augment | proj/2020-2021/p2/src/proj.cpp:228-238 | the new residual array is the old one with, for each vertex of the tree path from the sink down to `s`, its tree edge lowered by the bottleneck and the edge `prev` names for that tree edge (its reverse after the corrected `Connect`; slot 0 where `prev` is 0) raised by it, in path order; the adjacency is unchanged |
| FlowNet.Network.GetMaxFlow | proj/2020-2021/p2/src/proj.cpp:203-245 | at the end no residual walk reaches the sink, the value returned equals what the edges out of the source, and those into the sink, have lost, and the value lies between 0 and the total residual out of the source |
| FlowSearch.SearchMarks | proj/2020-2021/p2/src/proj.cpp:166-173 | the initial marks: only the source visited, with parent entry −1 |
| FlowSearch.WalkStep | proj/2020-2021/p2/src/proj.cpp:219-223 | one step of the bottleneck walk adds the tree edge into `v` and lowers the bottleneck to its residual when smaller |
| FlowSearch.WalkEnd | proj/2020-2021/p2/src/proj.cpp:218 | a finished walk is a tree to the sink whose every edge carries at least the bottleneck |

## Left out

- Input and output: `scanf`/`cin`, `printf`/`cout`, `graph_print`, `Graph_Print`, the `operator<<` printers, the printing half of `examine_graph`, and the parsing in the `main` functions are not modelled; `Kahn.Solve` and `TopoCpp.Solve` model only the calls `main` makes. Reading becomes method parameters (an edge list, the terminal and neighbour weights), and output becomes results or fields.
- The `destroy`/`free`/destructor functions are not modelled; Dafny's memory is managed.
- Integer width: every count, distance, capacity and flow is an unbounded `int`. `INT_MAX` is modelled as the constant `INF`, and 32-bit overflow of a flow or weight sum is not modelled.
- MarkerStack.Pop: requires a non-empty stack. On an empty stack the source reads `data[0]`, a slot no push writes (pushes start at index 1), decrements the unsigned `idx` to `SIZE_MAX`, and clears the flag of whatever value it read, so nothing about that case is defined.
- MarkerQueue.Queue.Pop: requires a non-empty queue, as the source reads past `back` otherwise.
- MarkerStack.Size: takes a non-null stack; the source dereferences it without a test.
- MarkerStack.IsEmpty: takes a non-null stack; the source dereferences it without a test.
- VertexStacks: the C++ `Stack` class of `proj/2017-2018/p1/src/proj.cpp` (lines 28-46) is the same structure as the C stack and is not modelled separately.
- Kahn.Message: only the returned string of `examine_graph` is modelled, not the order it prints.
- LinkedGraph: `Graph_New`, `Graph_Init`, `Graph_Connect` and `Graph_Reset` of `proj/2020-2021/p1/src/proj.c` are the same code as the `proj/2018-2019/p2` functions and share their model.
- PixelGraph.Graph.constructor: the arrays are sized for every arc `graph_init` can add (`MaxArcs + 1`), not at the source's `num_e + 1`; see Findings.
- PixelFlow: `residual` and `capacity` are one array in the source (`g->residual = g->capacity`), so the model keeps one array. After `edmonds_karp` the capacities read by `graph_get_f_weight` are the residuals.
- SccLists.SccFindAsWritten: reading `disc[v]` past the end of the arrays is undefined behaviour in C++; the model stops with an error outcome before the search instead of continuing with whatever memory holds. A list naming vertex id 0, which no input in the `1..V` format produces, also counts as the error outcome, although the source would search vertex 0.
- SccLists.ListGraph.New: the constructor starts every `in_graph` mark cleared. `new bool[num_v+1]` (proj/2017-2018/p1/src/proj.cpp:77) leaves the marks uninitialised, so the source's vertex count is only defined when that memory happens to be zero.
- PixelFlow.Round: states the new residuals of one turn exactly only through `PixelFlow.Augment`; across turns it keeps only the two totals (out of `s`, into `t`) and non-negativity, not flow conservation at each pixel.
- PixelFlow.EdmondsKarp: proves that the residuals stay non-negative, that the flow equals what the arcs out of `s` and into `t` have lost, and that no augmenting path is left; it does not prove conservation at each pixel (the residuals need not describe a valid flow), nor that the flow equals the minimum cut.
- FlowNet.Network.GetMaxFlow: the same: conservation at each vertex and max-flow equals min-cut are not proved. It runs on the network the corrected `Connect` builds; on the network as written the flow returned can fall short of the minimum cut (see Findings). It also requires non-negative residuals; the source accepts negative weights from its input.
- FlowNet.Network.Connect: the recursive `Connect(v, u, weight, false)` call is modelled as a call of the non-recursive `LinkOne`, which is what the recursion does with `is_bidir` false.
- TopoC.TopologicalSort: the results are returned rather than stored in `g->nr_paths` and `g->longest_path`.
- TopoC.DFS: models the search as written, whose order is not topological on some acyclic inputs (see Findings). The corrected search `DfsTopo.FixedDfs` is a function on values; no method over the marker stacks runs it.
- TopoC.TopologicalSort: the bound on every path needs the reversed DFS order to be topological, which the as-written search does not give (see Findings); it holds for the corrected search (`DfsTopo.FixedReportsLongest`).
- TopoC.DfsReports: states the path count and a realised length, not that the length is the longest path.
- TopoCpp.Graph.TopologicalSort: requires at least one vertex, since `order.size() - 1` wraps around on an empty graph.
- TopoCpp.Solve: its count of sources needs the skipped vertex to have no targets (`adj[FirstDone] == []`), and its bound needs a topological order. Neither is proved for a DAG.
- TopoCpp.ListReports: the same two hypotheses.
- PathDp.LiftLongest: the corrected relaxation is proved optimal over any topological pop order. That order is proved for the corrected C search (`DfsTopo.FixedReportsLongest`), not for the searches as written.

## Findings

| source | as written | input that shows it | evidently intended | confidence | as-written member | corrected member |
|---|---|---|---|---|---|---|
| common/src/Stack.c:51-54 | `Stack_Reset` clears `in_stack[0..idx-1]`, the slots by position, not the vertices held | push 5 on a stack of size 6, then reset: the stack is empty but vertex 5 is still flagged, so the next push of 5 is dropped | clear the flag of every vertex held | not executed; a reset after pushes of vertices other than `0..idx-1` shows it | MarkerStack.ResetLeavesStaleMark | MarkerStack.ResetHeld |
| common/Queue.c:42-45 | `Queue_Reset` clears `in_queue[0..back-1]` by position | push 3 and 5, pop 3, reset: vertex 5 stays flagged in an empty queue | clear the flags of the vertices held | not executed | MarkerQueue.ResetAfterPopLeavesStaleMark | MarkerQueue.Queue.ResetHeld |
| common/Queue.c:46-49 | `Queue_Sort` sorts `data[0..size-1]` from index 0, not the live window from `front` (it also calls an undeclared `Queue_size`) | data `[3, 7, 5]` with front 1: the live window becomes `[3, 5]` | sort `data[front..back-1]` | not executed | MarkerQueue.SortWrongWindow | MarkerQueue.Queue.SortLive |
| proj/2017-2018/p1/src/proj.cpp:128-135 | `nr_vertices` counts the endpoints seen, and `SCC_find` sizes `disc`, `low` and `head` at `nr_vertices + 1` and searches `1..nr_vertices` | `3 1 / 1 3`: 2 vertices counted; the search from vertex 1 recurs into vertex 3 and reads `disc[3]` past the 3-slot arrays | size the arrays and search by the vertex count `V` | not executed | SccLists.EndpointCountTooSmall | SccLists.SccFind |
| proj/2017-2018/p1/src/proj.cpp:227 | the component count is the number of endpoints of crossing arcs, at least 1 | `4 4 / 1 2 / 2 1 / 3 4 / 4 3`: two components, count 1 | count the component heads | not executed | SccLists.TwoCyclesCountedOnce | SccLists.SccFind |
| proj/2016-2017/p1/src/proj.c:103-108 | the uniqueness test runs only on vertices freed by a removal, never on the initial orphans | `2 0`: both vertices start free and the run reports a unique order | report Insuficiente when two orphans start in the queue | not executed | KahnOrder.OrphansNotCompared | Kahn.Graph.SortUnique |
| proj/2017-2018/p2/src/proj.c:361 | the backtrack stops when the parent is `s`, so the arc leaving `s` is never reduced | the 1×2 image `5 0 / 0 10 / 20`: after the first path carries all 5 units out of `s`, a residual path to `t` remains, so the flow reported exceeds the minimum cut of 5 | walk back to and including the arc out of `s` | not executed | PixelAugment.SecondPathAsWritten | PixelAugment.StopsCorrected |
| proj/2017-2018/p2/src/proj.c:104 | `num_e = m(n−1) + (m−1)n + 2·num_v` counts one arc per neighbour pair, but two are added per pair | a 3×3 grid with every weight positive needs 33 arcs; `num_e` is 32 | `2·(m(n−1) + (m−1)n) + m·n` | not executed; `sizeof(g->pixel)` is the size of a pointer, which at least doubles the allocation on 64-bit builds and masks the shortfall there | PixelGrid.NumEShort | PixelGraph.Graph.constructor |
| proj/2020-2021/p2/src/proj.cpp:148-151 | only the reverse edge of a bidirectional connection gets a `prev`; the forward edge keeps `prev` 0, so what it loses in an augmentation is credited to the unused slot 0 and its reverse never gains it | `4 3 / 1 0 / 0 1 / 2 0 / 0 2 / 1 2 1 / 3 2 2 / 1 4 2`: by a hand trace the flow reported is 2 while the minimum cut is 3, since a third path, s→3→2→1→4→t, needs the unit that 1→2 should have handed to 2→1 | set `prev` of the forward edge to the reverse edge as well | not executed; the hand trace of the whole run is not part of the proofs, which show the lost residual on one pair | FlowNet.PairLostAsWritten | FlowNet.PairConserved |
| proj/2020-2021/p1/src/proj.c:194 | `dist[v] = dist[u] + 1` overwrites a longer distance with a shorter one (also `proj.cpp:88`) | `4 3 / 2 3 / 3 4 / 1 4`: reports 2 where `2 → 3 → 4` has 3 vertices | `dist[v] = max(dist[v], dist[u] + 1)` | not executed | DfsTraces.AssignReportsShort | DfsTraces.LiftReportsChain |
| proj/2020-2021/p1/src/proj.c:226-232 | `DFS` pushes targets with `Stack_Push`, which refuses a vertex already on the stack (`common/src/Stack.c:29`), so a vertex reached again from a vertex visited later stays at its lower slot and finishes after that vertex | `4 4 / 1 2 / 1 3 / 3 2 / 2 4`, a DAG: the pops are `1 2 4 3`, which puts 2 before 3 although `3 → 2`, and even the corrected pass reports 3 where `1 → 3 → 2 → 4` has 4 vertices | push every unvisited target on a plain `dfs` stack, keeping `order` a marker stack so each vertex is listed once | not executed | DfsTraces.OrderNotTopological | DfsTopo.FixedTopological |
