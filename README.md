# gliph in Dafny

A model of the core of gliph, a PHP library of object-vertex graphs and
graph algorithms, with the properties its code promises proved by Dafny.

gliph keeps a graph as an `SplObjectStorage` that maps each vertex to the
set of its neighbours. The model has five parts.

- **Vertex store.** `AdjacencyStore.Store` holds the vertices in insertion
  order, with a map from each vertex to its neighbour set. A set is a
  duplicate-free sequence: `Attach` appends an element that is absent, and
  `Detach` removes one.
- **Graph classes.** The current adjacency lists (`AdjacencyLists`) and the
  older classes of the `Gliph` namespace (`LegacyGliph`) and of the `Graph`
  namespace (`LegacyGraph`) are Dafny classes. Each has a `vertices` field,
  and each mutator states the whole new store. The oldest class,
  `Gliph\Graph`, is a multigraph over PHP arrays (`MultiGraph`).
- **Algorithms.** Each algorithm is first written as functions on values:
  Tarjan's strongly connected components (`TarjanSpec`), the depth-first
  search with its event trace (`DfsSpec`), and the topological sort
  (`TopSortSpec`). The imperative classes are then proved equal to those
  functions: `ConnectedComponent`, `LegacyTarjan`, `DepthFirstSearch` and
  `TopologicalSort`.
- **Traversal and visitors.** The static traversal of `Gliph\Gliph` and
  the visitors (`Visitors`) consume the event trace.
- **What the results mean.** `TarjanReach` proves that the components are
  exactly the classes of mutual reachability. `DfsCycles` proves that a
  back edge means a cycle, and that a search with no back edge leaves no
  cycle among the vertices it reaches. `TarjanScenarios` and
  `DfsScenarios` then work out the runs on the graphs of the test suite,
  step by step, and prove the results those tests expect.

A callback that the PHP code hands to `eachVertex`, `eachAdjacent` or
`eachEdge` is modelled by returning the sequence of its arguments.
`SplObjectStorage::offsetGet` throws `UnexpectedValueException` for an
object the storage does not hold. The model writes this as
`Err(UnexpectedValue)` or `Fail(UnexpectedValue)`.

## Model

| member | source | states |
|---|---|---|
| Common.Attach | src/Gliph/Graph/DirectedAdjacencyList.php:22 | attaching to an object set adds exactly x, appends it only when absent, and keeps the set duplicate-free |
| Common.Detach | src/Gliph/Graph/DirectedAdjacencyList.php:43 | detaching removes exactly x, changes nothing when x is absent, and shrinks a duplicate-free set by one when x is present |
| AdjacencyStore.Insert | src/Gliph/Graph/AdjacencyList.php:15-23 | the vertex is present afterwards, every earlier vertex keeps its set, and no other vertex appears |
| AdjacencyStore.InsertValid | src/Gliph/Graph/AdjacencyList.php:15-23 | adding a vertex keeps the store well formed: keys and order agree, sets are duplicate-free, and every neighbour is a vertex |
| AdjacencyStore.AddVertex | src/Gliph/Graph/AdjacencyList.php:15-23 | a non-object is refused with InvalidVertexType; an object is accepted and the vertex set grows by exactly that object |
| AdjacencyStore.AddVertexIdempotent | src/Gliph/Graph/AdjacencyList.php:20 | adding a vertex the store already holds leaves the store unchanged |
| AdjacencyStore.AddVertexFresh | src/Gliph/Graph/AdjacencyList.php:20-22 | a new vertex gets an empty set at the end of the insertion order, and no other set changes |
| AdjacencyStore.Adjacent | src/Gliph/Graph/AdjacencyList.php:25-29 | eachAdjacent succeeds exactly for a vertex of the graph and yields its neighbour set; otherwise offsetGet throws |
| AdjacencyStore.EntriesExactlyOnce | src/Gliph/Graph/AdjacencyList.php:31-35 | eachVertex yields each vertex exactly once, together with its own neighbour set |
| AdjacencyStore.EntriesInInsertionOrder | src/Gliph/Graph/AdjacencyList.php:31-35 | eachVertex yields the vertices in insertion order: a new vertex comes last, with an empty set |
| AdjacencyStore.ArcListIsArcs | src/Gliph/Graph/DirectedAdjacencyList.php:49-57 | eachEdge lists exactly the arcs of the graph, each once, as many as the arc count |
| AdjacencyStore.ArcsFromOrdered | src/Gliph/Graph/DirectedAdjacencyList.php:49-57 | eachEdge is tail-major: arcs come in tail insertion order, then in head order within a tail |
| AdjacencyStore.ArcsFromMembers | src/Gliph/Graph/DirectedAdjacencyList.php:50-54 | an arc is listed exactly when its tail is scanned and its head is in the tail's set |
| AdjacencyStore.AddArcEffect | src/Gliph/Graph/DirectedAdjacencyList.php:16-23 | addDirectedEdge adds exactly the arc (tail, head); each endpoint is appended to the order if new, tail first; every other set is unchanged |
| AdjacencyStore.AddArcIdempotent | src/Gliph/Graph/DirectedAdjacencyList.php:16-23 | adding the same arc twice is the same as adding it once |
| AdjacencyStore.AddArcCount | src/Gliph/Graph/DirectedAdjacencyList.php:18-20 | the arc count grows by one exactly when the arc is new |
| AdjacencyStore.DetachArcEffect | src/Gliph/Graph/DirectedAdjacencyList.php:42-44 | removeEdge removes exactly the arc (tail, head), keeps every vertex, and changes no other set |
| AdjacencyStore.RemoveVertexValid | src/Gliph/Graph/DirectedAdjacencyList.php:28-37 | removeVertex keeps the store well formed and drops v from the order, from the keys and from every remaining set |
| AdjacencyStore.RemoveVertexEffect | src/Gliph/Graph/DirectedAdjacencyList.php:28-37 | after removeVertex, v is not a vertex, no set names it, and the arcs left are exactly those not touching v |
| AdjacencyStore.RemoveVertexCount | src/Gliph/Graph/DirectedAdjacencyList.php:28-37 | removing a vertex never raises the arc count |
| AdjacencyStore.UnsetThenDetach | src/Gliph/DirectedAdjacencyGraph.php:28-35 | unsetting v and then detaching it from the remaining sets gives the same store as the other order |
| AdjacencyStore.RemoveAbsent | src/Gliph/DirectedAdjacencyGraph.php:28-35 | removing a vertex the graph does not hold changes nothing |
| AdjacencyStore.AddReversedEffect | src/Gliph/Graph/DirectedAdjacencyList.php:62-69 | the transpose loop adds exactly the reversal of each listed arc, and exactly its endpoints as vertices |
| AdjacencyStore.TransposedEffect | src/Gliph/Graph/DirectedAdjacencyList.php:62-69 | transpose is well formed, its arcs are the reversed arcs, and its vertices are the endpoints of arcs |
| AdjacencyStore.TransposeTwice | src/Gliph/Graph/DirectedAdjacencyList.php:62-69 | transposing twice gives back the arcs of the graph; only vertices on no arc are lost |
| AdjacencyStore.PredecessorsAreTails | src/Gliph/Graph/DirectedAdjacencyList.php:96-109 | the vertices inDegree counts are exactly the tails of arcs into v, each once |
| UndirectedStore.AddEdgeIsTwoArcs | src/Gliph/Graph/UndirectedAdjacencyList.php:12-20 | addEdge is the arc each way: first (from, to), then (to, from) |
| UndirectedStore.AddEdgeEffect | src/Gliph/Graph/UndirectedAdjacencyList.php:12-20 | addEdge adds exactly the two arcs of the edge, and each endpoint once, in order |
| UndirectedStore.AddEdgeSym | src/Gliph/Graph/UndirectedAdjacencyList.php:12-20 | addEdge keeps every edge stored both ways |
| UndirectedStore.SymArcs | src/Gliph/Graph/UndirectedAdjacencyList.php:18-19 | stored both ways means the arc set is closed under reversal |
| UndirectedStore.EdgeBothWays | src/Gliph/Graph/UndirectedAdjacencyList.php:18-19 | in an undirected store u neighbours w exactly when w neighbours u |
| UndirectedStore.RemoveEdgeEffect | src/Gliph/Graph/UndirectedAdjacencyList.php:39-42 | removeEdge fails with UnexpectedValue exactly when an endpoint is missing; otherwise it removes exactly the two arcs and keeps the symmetry |
| UndirectedStore.RemoveNeighbourEffect | src/Gliph/Graph/UndirectedAdjacencyList.php:25-34 | removing v through its own neighbour set leaves a symmetric store in which v is neither a vertex nor a neighbour |
| UndirectedStore.RemoveNeighbourIsRemoveVertex | src/Gliph/Graph/UndirectedAdjacencyList.php:25-34 | detaching v only from its neighbours is the same as detaching it from every set, because the store is symmetric |
| UndirectedStore.DetachFromEachValues | src/Gliph/Graph/UndirectedAdjacencyList.php:30-32 | the removeVertex loop detaches v from the set of each of its neighbours and from no other set |
| UndirectedStore.FreshPairsMembers | src/Gliph/Graph/UndirectedAdjacencyList.php:51-55 | one eachEdge step yields (v, w) exactly for the neighbours w of v not yet completed |
| UndirectedStore.EdgeListIsEarlierFirst | src/Gliph/Graph/UndirectedAdjacencyList.php:47-59 | the undirected eachEdge yields exactly the arcs whose tail comes no later than the head in vertex order, each once |
| UndirectedStore.EachEdgeOnce | src/Gliph/Graph/UndirectedAdjacencyList.php:47-59 | every edge is yielded in one of its two directions, and never in both |
| StoreScans.EachVertex | src/Gliph/Graph/AdjacencyList.php:31-35 | the eachVertex loop yields the entries of the store in insertion order |
| StoreScans.EachAdjacentScan | src/Gliph/Graph/AdjacencyList.php:25-29 | the eachAdjacent loop yields the neighbour set, or fails for a missing vertex |
| StoreScans.DetachAll | src/Gliph/Graph/DirectedAdjacencyList.php:33-35 | the eachVertex loop of removeVertex detaches v from every set |
| StoreScans.CollectArcs | src/Gliph/Graph/DirectedAdjacencyList.php:49-57 | the nested loops of eachEdge collect exactly the tail-major arc list |
| StoreScans.CollectFresh | src/Gliph/Graph/UndirectedAdjacencyList.php:51-55 | the inner loop of the undirected eachEdge collects the pairs with a neighbour not yet completed |
| StoreScans.CollectEdges | src/Gliph/Graph/UndirectedAdjacencyList.php:47-59 | the undirected eachEdge loops collect the edge list, each edge once |
| StoreScans.CountPredecessors | src/Gliph/Graph/DirectedAdjacencyList.php:101-106 | the inDegree loop counts exactly the vertices that have v in their set |
| StoreScans.DetachNeighbours | src/Gliph/Graph/UndirectedAdjacencyList.php:30-32 | the removeVertex loop detaches v from each of its neighbours' sets |
| AdjacencyLists.DirectedAdjacencyList.constructor | src/Gliph/Graph/AdjacencyList.php:11-13 | a new graph has no vertex and a size of 0 |
| AdjacencyLists.DirectedAdjacencyList.AddVertex | src/Gliph/Graph/AdjacencyList.php:15-23 | a non-object throws InvalidVertexType and changes nothing; an object is inserted if absent; size is unchanged |
| AdjacencyLists.DirectedAdjacencyList.HasVertex | src/Gliph/Graph/AdjacencyList.php:37-39 | true exactly for a vertex of the graph |
| AdjacencyLists.DirectedAdjacencyList.EachAdjacent | src/Gliph/Graph/AdjacencyList.php:25-29 | yields the vertex's successor set, or fails with UnexpectedValue for a missing vertex |
| AdjacencyLists.DirectedAdjacencyList.EachVertex | src/Gliph/Graph/AdjacencyList.php:31-35 | yields each vertex once, in insertion order, with its successor set |
| AdjacencyLists.DirectedAdjacencyList.AddDirectedEdge | src/Gliph/Graph/DirectedAdjacencyList.php:16-23 | a non-object tail changes nothing; with a non-object head only the tail is added; otherwise the arc is added, and size grows by one exactly when the arc is new |
| AdjacencyLists.DirectedAdjacencyList.RemoveVertex | src/Gliph/Graph/DirectedAdjacencyList.php:28-37 | a missing vertex throws NonexistentVertex and changes nothing; otherwise v and every arc touching it are removed |
| AdjacencyLists.DirectedAdjacencyList.RemoveEdge | src/Gliph/Graph/DirectedAdjacencyList.php:42-44 | a missing tail fails with UnexpectedValue and changes nothing; otherwise exactly the arc is removed; size is unchanged |
| AdjacencyLists.DirectedAdjacencyList.EachEdge | src/Gliph/Graph/DirectedAdjacencyList.php:49-57 | yields the arc list: every arc once, tail-major |
| AdjacencyLists.DirectedAdjacencyList.Transpose | src/Gliph/Graph/DirectedAdjacencyList.php:62-69 | a fresh graph holding the transposed store, whose size is the arc count of the original |
| AdjacencyLists.DirectedAdjacencyList.AddReversedArcs | src/Gliph/Graph/DirectedAdjacencyList.php:64-66 | the transpose loop adds each listed arc reversed, and size counts the listed arcs |
| AdjacencyLists.DirectedAdjacencyList.IsAcyclic | src/Gliph/Graph/DirectedAdjacencyList.php:74-83 | true exactly when the graph has a source and the depth-first search from its sources reports no back edge |
| DfsScenarios.IsAcyclicTest | tests/Gliph/Graph/DirectedAdjacencyListTest.php:150-157 | the answer is TRUE on the path a→b→c and FALSE once c→a closes it |
| DfsCycles.BackEdgeMeansCycle | src/Gliph/Graph/DirectedAdjacencyList.php:74-83 | a back edge in the search means the graph has a cycle, so a FALSE caused by a back edge is never wrong |
| DfsCycles.NoBackEdgeNoReachableCycle | src/Gliph/Graph/DirectedAdjacencyList.php:74-83 | when the search reports no back edge, no cycle is reachable from any source |
| DfsCycles.NoSourceMeansCycle | src/Gliph/Graph/DirectedAdjacencyList.php:74-83 | a graph with vertices but no source has a cycle, so a FALSE caused by an empty queue is right on any nonempty graph |
| DfsCycles.AsWrittenMissesUnreachedCycle | src/Gliph/Graph/DirectedAdjacencyList.php:74-83 | the answer is TRUE on a graph whose only cycle no source reaches |
| DfsCycles.AsWrittenRefusesEmpty | src/Gliph/Graph/DirectedAdjacencyList.php:74-83 | the answer is FALSE on the empty graph, which has no cycle |
| DfsCycles.WholeAcyclicCorrect | src/Gliph/Graph/Digraph.php:98-103 | a search that also requires every vertex to be reached answers TRUE exactly when the graph has no cycle, the empty graph included |
| AdjacencyLists.DirectedAdjacencyList.GetCycles | src/Gliph/Graph/DirectedAdjacencyList.php:88-91 | the strongly connected components of more than one vertex |
| TarjanScenarios.GetCyclesPathTest | tests/Gliph/Graph/DirectedAdjacencyListTest.php:166-171 | on the path a→b→c every component is a single vertex, so getCycles finds none |
| TarjanScenarios.GetCyclesLoopTest | tests/Gliph/Graph/DirectedAdjacencyListTest.php:166-175 | once c→a closes the path, getCycles finds the one cycle [c, b, a] |
| AdjacencyLists.DirectedAdjacencyList.InDegree | src/Gliph/Graph/DirectedAdjacencyList.php:96-109 | a missing vertex throws NonexistentVertex; otherwise the number of vertices with an arc into v |
| AdjacencyLists.DirectedAdjacencyList.OutDegree | src/Gliph/Graph/DirectedAdjacencyList.php:114-120 | a missing vertex throws NonexistentVertex; otherwise the size of v's successor set |
| AdjacencyLists.UndirectedAdjacencyList.constructor | src/Gliph/Graph/AdjacencyList.php:11-13 | a new graph has no vertex and a size of 0 |
| AdjacencyLists.UndirectedAdjacencyList.AddVertex | src/Gliph/Graph/AdjacencyList.php:15-23 | a non-object throws InvalidVertexType; an object is inserted if absent; symmetry is kept |
| AdjacencyLists.UndirectedAdjacencyList.HasVertex | src/Gliph/Graph/AdjacencyList.php:37-39 | true exactly for a vertex of the graph |
| AdjacencyLists.UndirectedAdjacencyList.EachAdjacent | src/Gliph/Graph/AdjacencyList.php:25-29 | yields the neighbour set, or fails with UnexpectedValue for a missing vertex |
| AdjacencyLists.UndirectedAdjacencyList.EachVertex | src/Gliph/Graph/AdjacencyList.php:31-35 | yields each vertex once, in insertion order, with its neighbour set |
| AdjacencyLists.UndirectedAdjacencyList.AddEdge | src/Gliph/Graph/UndirectedAdjacencyList.php:12-20 | non-object endpoints are refused, `from` first; otherwise the edge is stored both ways, and size grows by one exactly when the edge is new |
| AdjacencyLists.UndirectedAdjacencyList.RemoveVertex | src/Gliph/Graph/UndirectedAdjacencyList.php:25-34 | a missing vertex throws NonexistentVertex and changes nothing; otherwise v leaves the sets of its neighbours and is unset |
| AdjacencyLists.UndirectedAdjacencyList.RemoveEdge | src/Gliph/Graph/UndirectedAdjacencyList.php:39-42 | a missing endpoint fails with UnexpectedValue and changes nothing; otherwise both directions of the edge are removed |
| AdjacencyLists.UndirectedAdjacencyList.EachEdge | src/Gliph/Graph/UndirectedAdjacencyList.php:47-59 | yields each edge once, tail no later than head in vertex order |
| AdjacencyLists.UndirectedAdjacencyList.InDegree | src/Gliph/Graph/UndirectedAdjacencyList.php:64-70 | a missing vertex throws NonexistentVertex; otherwise the number of neighbours |
| AdjacencyLists.UndirectedAdjacencyList.OutDegree | src/Gliph/Graph/UndirectedAdjacencyList.php:75-81 | a missing vertex throws NonexistentVertex; otherwise the number of neighbours |
| TarjanSpec.PopUntil | src/Gliph/Algorithm/ConnectedComponent.php:50-53 | the do/while pop stops at the topmost occurrence of v; the component is the popped part of the stack, in pop order |
| TarjanSpec.PopLoop | src/Gliph/Algorithm/ConnectedComponent.php:50-53 | the imperative pop loop computes what PopUntil describes |
| TarjanSpec.Visit | src/Gliph/Algorithm/ConnectedComponent.php:32-55 | a visit numbers v, keeps every earlier number, and only extends the stack it was given |
| TarjanSpec.Succs | src/Gliph/Algorithm/ConnectedComponent.php:38-46 | the loop over v's successors numbers vertices without losing any earlier number |
| TarjanSpec.MultiVertex | src/Gliph/Tarjan.php:82-84 | the components kept are exactly those of more than one vertex |
| TarjanSpec.VisitInv | src/Gliph/Algorithm/ConnectedComponent.php:32-55 | a visit preserves the invariant (indices distinct and below the counter, stack in index order, found components disjoint and off the stack) and settles v: either it closes a component ending in v, or v stays on the stack with a lower low-link |
| TarjanSpec.SuccsInv | src/Gliph/Algorithm/ConnectedComponent.php:38-46 | the successor loop preserves the invariant and only lowers v's low-link, never below the stack bottom's index |
| TarjanSpec.DriveInv | src/Gliph/Algorithm/ConnectedComponent.php:57-61 | the outer loop over the vertices leaves the stack empty and numbers every vertex it passes |
| TarjanSpec.RunFacts | src/Gliph/Algorithm/ConnectedComponent.php:25-64 | after the run, every vertex is numbered with a low-link no higher than its index, the indices are distinct, and the components partition the vertex set |
| TarjanReach.VisitReach | src/Gliph/Algorithm/ConnectedComponent.php:32-55 | a visit keeps the reachability invariant: each stack vertex reaches every vertex above it and a vertex at or below it whose index is its low-link, every component found is strongly connected, and a finished arc never leads to a later component |
| TarjanReach.RunReach | src/Gliph/Algorithm/ConnectedComponent.php:25-64 | after the run every vertex lies in exactly one component, each component is strongly connected, and no arc leads to a later component |
| TarjanReach.PathComponents | src/Gliph/Algorithm/ConnectedComponent.php:25-64 | a path never leads from a component to a later one |
| TarjanReach.ComponentsAreSccs | src/Gliph/Algorithm/ConnectedComponent.php:25-64 | the components are the strongly connected components: two vertices share one exactly when each reaches the other, and they come in reverse topological order |
| TarjanReach.CyclesAreSccs | src/Gliph/Graph/DirectedAdjacencyList.php:88-91 | a vertex lies in a component that getCycles keeps exactly when it and some other vertex reach each other |
| ConnectedComponent.SccSearch.constructor | src/Gliph/Algorithm/ConnectedComponent.php:26-30 | the search starts with counter 0, an empty stack and no index |
| ConnectedComponent.SccSearch.Visit | src/Gliph/Algorithm/ConnectedComponent.php:32-55 | the closure $visit changes the counter, stack, indices, low-links and components exactly as TarjanSpec.Visit says |
| ConnectedComponent.SccSearch.Successors | src/Gliph/Algorithm/ConnectedComponent.php:38-46 | the successor loop changes the state exactly as TarjanSpec.Succs says |
| ConnectedComponent.SccSearch.Successor | src/Gliph/Algorithm/ConnectedComponent.php:39-45 | one successor: visit it and take the minimum of the low-links, or, when it is on the stack, take the minimum with its index |
| ConnectedComponent.SccSearch.PopComponent | src/Gliph/Algorithm/ConnectedComponent.php:48-54 | popping up to v moves the popped vertices, in pop order, into a new component |
| ConnectedComponent.TarjanScc | src/Gliph/Algorithm/ConnectedComponent.php:25-64 | tarjan_scc returns the components of the specification run, which partition the vertices |
| TarjanScenarios.TarjanSccTest | tests/Gliph/Algorithm/ConnectedComponentTest.php:21-57 | on the eight-vertex test graph the components are [c, b, d, a], [e], [h, g, f] in that order, and the multi-vertex ones [c, b, d, a], [h, g, f] |
| LegacyTarjan.KeptAppend | src/Gliph/Tarjan.php:82-84 | a popped component is kept when it has more than one vertex or storeNonCycles is set |
| LegacyTarjan.Tarjan.constructor | src/Gliph/Tarjan.php:28 | a new Tarjan object does not store single-vertex components |
| LegacyTarjan.Tarjan.GetCycles | src/Gliph/Tarjan.php:30-53 | getCycles returns the components of the run, filtered by the storeNonCycles flag |
| LegacyTarjan.Tarjan.Reset | src/Gliph/Tarjan.php:31-44 | getCycles starts from counter 0, an empty stack and no index |
| LegacyTarjan.Tarjan.StrongConnect | src/Gliph/Tarjan.php:55-86 | strongconnect changes the state exactly as TarjanSpec.Visit says |
| LegacyTarjan.Tarjan.EachAdjacent | src/Gliph/Tarjan.php:62-73 | the eachAdjacent callback loop changes the state exactly as TarjanSpec.Succs says |
| LegacyTarjan.Tarjan.Adjacent | src/Gliph/Tarjan.php:63-72 | one callback: recurse into an unindexed successor and lower the low-link, or lower it by the index of one on the stack |
| LegacyTarjan.Tarjan.PopComponent | src/Gliph/Tarjan.php:75-80 | the pop loop moves the vertices popped up to v into the component |
| LegacyTarjan.Tarjan.Keep | src/Gliph/Tarjan.php:82-84 | a component is appended to the stored list and nothing else changes |
| DfsSpec.Visit | src/Gliph/Traversal/DepthFirstSearch.php:64-86 | a vertex being visited reports a back edge and nothing else changes; any other vertex is visited afterwards; visited and the trace only grow |
| DfsSpec.Succs | src/Gliph/Traversal/DepthFirstSearch.php:74-77 | after the eachAdjacent loop every successor is visited or was reported as a back edge |
| DfsSpec.Drive | src/Gliph/Traversal/DepthFirstSearch.php:28-32 | the queue loop of walk visits every queued vertex |
| DfsSpec.SourcesAmong | src/Gliph/Traversal/DepthFirstSearch.php:50-59 | the queue holds exactly the listed vertices that have no incoming arc, in order and without repeats |
| DfsSpec.InitEvents | src/Gliph/Traversal/DepthFirstSearch.php:50-59 | one onInitializeVertex per vertex, in vertex order, with TRUE exactly for a source |
| DfsSpec.SourcesAreSources | src/Gliph/Traversal/DepthFirstSearch.php:35-62 | findSources queues a vertex exactly when no arc ends at it, each source once |
| DfsSpec.VisitInv | src/Gliph/Traversal/DepthFirstSearch.php:64-86 | a visit keeps the post-order invariant: a finished vertex comes after every successor it finished with, and the visited list is the list of finish events |
| DfsSpec.FinishInv | src/Gliph/Traversal/DepthFirstSearch.php:79-84 | finishing v and moving it to visited keeps the invariant once every successor is visited or was a back edge |
| DfsSpec.SearchFacts | src/Gliph/Traversal/DepthFirstSearch.php:23-33 | a search ends with nothing in visiting, starts its trace with the init events, visits every source, and closes visited under successors; with no back edge, every successor of a visited vertex precedes it |
| DfsSpec.WalkTopological | src/Gliph/Traversal/DepthFirstSearch.php:23-33 | walk on the transpose visits only vertices on an arc; with no back edge, every tail of an arc into a visited vertex is visited before it, so the visited order is a topological order |
| DfsSpec.SearchToposort | src/Gliph/Visitor/DepthFirstToposortVisitor.php:22-34 | the toposort visitor throws exactly when the search reports a back edge; otherwise its list is the visited list of the search |
| DfsCycles.VisitSound | src/Gliph/Traversal/DepthFirstSearch.php:64-86 | every back edge a visit reports closes a path of vertices being visited into a cycle |
| DfsScenarios.AcyclicTraversalTest | tests/Gliph/Traversal/DepthFirstTest.php:37-46 | on the test graph the search makes four calls each to onInitializeVertex, onStartVertex, onExamineEdge and onFinishVertex, and none to onBackEdge |
| DfsScenarios.DirectCycleTraversalTest | tests/Gliph/Traversal/DepthFirstTest.php:48-55 | once d→b closes a cycle, the search makes exactly one onBackEdge call |
| DfsScenarios.DeliveredCount | src/Gliph/Traversal/DepthFirstSearch.php:118-126 | a visitor with a handler for one kind receives one call per event of that kind |
| DepthFirstSearch.DepthFirstSearch.constructor | src/Gliph/Traversal/DepthFirstSearch.php:19-21 | the search holds the graph and has made no call yet |
| DepthFirstSearch.DepthFirstSearch.Emit | src/Gliph/Traversal/DepthFirstSearch.php:118-126 | emit calls the handler of the event's kind when one is set, and makes no call otherwise |
| DepthFirstSearch.DepthFirstSearch.FindSources | src/Gliph/Traversal/DepthFirstSearch.php:35-62 | findSources returns the sources in vertex order and emits an onInitializeVertex for every vertex |
| DepthFirstSearch.DepthFirstSearch.PrimeQueue | src/Gliph/Traversal/DepthFirstSearch.php:50-59 | the eachVertex pass queues exactly the vertices missing from $incomings and emits their init events |
| DepthFirstSearch.DepthFirstSearch.Visit | src/Gliph/Traversal/DepthFirstSearch.php:64-86 | visit changes visiting, visited and the trace exactly as DfsSpec.Visit says |
| DepthFirstSearch.DepthFirstSearch.NextVertex | src/Gliph/Traversal/DepthFirstSearch.php:99-101 | nextVertex shifts the head of the queue |
| DepthFirstSearch.DepthFirstSearch.Traverse | src/Gliph/Traversal/DepthFirstSearch.php:25-32 | queueing the sources and draining the queue performs the specification search, and handlers see exactly its delivered events |
| DepthFirstSearch.DepthFirstSearch.Begin | src/Gliph/Traversal/DepthFirstSearch.php:25-26 | the search starts with empty lists and the init events |
| DepthFirstSearch.DepthFirstSearch.Walk | src/Gliph/Traversal/DepthFirstSearch.php:23-33 | walk searches the transpose from its sources, and the handlers receive exactly the delivered events of that walk |
| DepthFirstSearch.Incomings | src/Gliph/Traversal/DepthFirstSearch.php:40-47 | $incomings has a key exactly for the head of some arc eachEdge yields |
| DepthFirstSearch.HeadsAreNotSources | src/Gliph/Traversal/DepthFirstSearch.php:40-59 | a vertex is a source exactly when no arc yielded by eachEdge ends at it |
| Visitors.Delivered | src/Gliph/Traversal/DepthFirstSearch.php:118-126 | exactly the events of a kind that has a handler reach one |
| Visitors.Finishes | src/Gliph/Visitor/DepthFirstToposortVisitor.php:32-34 | the finishing list has exactly the vertices of the finish events |
| Visitors.DeliveredBackEdges | src/Gliph/Traversal/DepthFirstSearch.php:65-68 | an onBackEdge handler is called exactly when the trace has a back edge |
| Visitors.EnqueueAll | src/Gliph/Visitor/DepthFirstBasicVisitor.php:49-53 | the examine-edge loop appends `to` to the path of every active vertex and to no other path |
| Visitors.Hook | src/Gliph/Visitor/DepthFirstToposortVisitor.php:22-34 | the no-op visitor ignores every event; toposort and basic throw on a back edge and append a finished vertex to their list, and change nothing else |
| Visitors.NoOpNeverAborts | src/Gliph/Visitor/DFSNoOpVisitor.php:6-10 | the no-op visitor never aborts a traversal and never changes |
| Visitors.ToposortCollects | src/Gliph/Visitor/DepthFirstToposortVisitor.php:22-43 | the toposort visitor throws exactly when a back edge is reported; otherwise it collects the vertices in finishing order |
| Visitors.BasicHookKeeps | src/Gliph/Visitor/DepthFirstBasicVisitor.php:38-57 | every hook except onBackEdge succeeds; active vertices stay active, only a started vertex joins them, and paths only grow |
| Visitors.BasicRun | src/Gliph/Visitor/DepthFirstBasicVisitor.php:34-57 | over a trace without back edges the basic visitor never throws and its list is the finishing order |
| Visitors.ToposortVisitor.constructor | src/Gliph/Visitor/DepthFirstToposortVisitor.php:20 | a new toposort visitor has an empty list |
| Visitors.ToposortVisitor.OnBackEdge | src/Gliph/Visitor/DepthFirstToposortVisitor.php:22-24 | onBackEdge throws a RuntimeException |
| Visitors.ToposortVisitor.OnInitializeVertex | src/Gliph/Visitor/DepthFirstToposortVisitor.php:26 | the hook leaves the visitor as it is |
| Visitors.ToposortVisitor.OnStartVertex | src/Gliph/Visitor/DepthFirstToposortVisitor.php:28 | the hook leaves the visitor as it is |
| Visitors.ToposortVisitor.OnExamineEdge | src/Gliph/Visitor/DepthFirstToposortVisitor.php:30 | the hook leaves the visitor as it is |
| Visitors.ToposortVisitor.OnFinishVertex | src/Gliph/Visitor/DepthFirstToposortVisitor.php:32-34 | the finished vertex is appended to the list |
| Visitors.ToposortVisitor.GetTsl | src/Gliph/Visitor/DepthFirstToposortVisitor.php:41-43 | getTsl returns the list collected so far |
| Visitors.BasicVisitor.constructor | src/Gliph/Visitor/DepthFirstBasicVisitor.php:28-32 | a new basic visitor has no active vertex, no path and an empty list |
| Visitors.BasicVisitor.OnBackEdge | src/Gliph/Visitor/DepthFirstBasicVisitor.php:34-36 | onBackEdge throws a RuntimeException |
| Visitors.BasicVisitor.OnInitializeVertex | src/Gliph/Visitor/DepthFirstBasicVisitor.php:38-40 | v gets a fresh, empty path queue, and the visitor invariant is kept |
| Visitors.BasicVisitor.OnStartVertex | src/Gliph/Visitor/DepthFirstBasicVisitor.php:42-47 | v becomes active and gets a path queue unless it has one |
| Visitors.BasicVisitor.OnExamineEdge | src/Gliph/Visitor/DepthFirstBasicVisitor.php:49-53 | `to` is enqueued on the path of every active vertex |
| Visitors.BasicVisitor.OnFinishVertex | src/Gliph/Visitor/DFSBasicVisitor.php:34-36 | the finished vertex is appended to the list |
| Gliph.FindSources | src/Gliph/Gliph.php:62-86 | find_sources queues exactly the sources in vertex order and reports onInitializeVertex for every vertex |
| Gliph.PrimeQueue | src/Gliph/Gliph.php:74-83 | the eachVertex pass queues exactly the vertices that no arc ends at |
| Gliph.PrimeOne | src/Gliph/Gliph.php:75-82 | one vertex is queued exactly when it is a source, with TRUE in its init event exactly then |
| Gliph.Expand | src/Gliph/Gliph.php:32-42 | one expansion: onStartVertex, one onExamineEdge per neighbour, onFinishVertex; visiting is restored |
| Gliph.VisitAsWritten | src/Gliph/Gliph.php:28-43 | $visit as written: a vertex in visiting reports a back edge; only a vertex already visited is expanded; any other vertex is skipped |
| Gliph.DepthFirstTraverseAsWritten | src/Gliph/Gliph.php:20-52 | as written, with no queue only the init events happen before the fatal error; with a queue, no hook is ever called |
| Gliph.Visit | src/Gliph/Gliph.php:28-43 | the corrected $visit: a vertex in visiting reports a back edge, a visited one is skipped, and any other vertex is expanded and becomes visited |
| Gliph.DepthFirstTraverse | src/Gliph/Gliph.php:20-52 | the corrected traversal: the init events, then the expansions over the queue given or found |
| Gliph.Drain | src/Gliph/Gliph.php:47-50 | the queue loop of the corrected traversal |
| Gliph.ShallowFresh | src/Gliph/Gliph.php:28-50 | a queue of distinct vertices, none visited yet, is expanded vertex by vertex |
| Gliph.ExpansionsNoBackEdge | src/Gliph/Gliph.php:37-39 | the closure never recurses, so its expansions report no back edge |
| Gliph.TraverseFromSources | src/Gliph/Gliph.php:20-52 | from the sources, the corrected traversal expands each source once and reports no back edge |
| Gliph.FirstQueuedStarts | src/Gliph/Gliph.php:30-33 | the corrected traversal's first hook for a queued vertex is onStartVertex, where the code as written calls none |
| MultiGraph.Values | src/Gliph/Graph.php:36-40 | a PHP array's values in key insertion order |
| MultiGraph.AddVertexFacts | src/Gliph/Graph.php:14-18 | addVertex adds a vertex with an empty list when it is new; adding again changes nothing; no other vertex changes |
| MultiGraph.AddArcAppends | src/Gliph/Graph.php:20-25 | addDirectedEdge appends the head to the tail's list, one more occurrence each time, and changes no other list |
| MultiGraph.AddArcAddsPair | src/Gliph/Graph.php:20-25 | every addDirectedEdge adds one more copy of the arc: the graph is a multigraph |
| MultiGraph.ArcMultiplicity | src/Gliph/Graph.php:48-62 | eachEdge yields an arc as often as its head occurs in the tail's list |
| MultiGraph.RemoveVertexFacts | src/Gliph/Graph.php:27-29 | removeVertex drops only v's key; every other list is unchanged, and arcs into v stay |
| MultiGraph.RemoveEdgeFacts | src/Gliph/Graph.php:31-34 | the corrected removeEdge removes the first occurrence of the head from the tail's list, or changes nothing when there is none |
| MultiGraph.RemoveEdgeAsWrittenWhenFound | src/Gliph/Graph.php:31-34 | when the head is in the tail's list, removeEdge as written agrees with the corrected one |
| MultiGraph.RemoveEdgeAsWrittenLosesFirstArc | src/Gliph/Graph.php:33 | as written, removing an absent head from [a] unsets key 0 and leaves []; the corrected removal leaves [a] |
| MultiGraph.HasVertexHistory | src/Gliph/Graph.php:64-66 | after a history of operations, v is a vertex exactly when some later add has not been followed by a removal of v |
| MultiGraph.Search | src/Gliph/Graph.php:33 | array_search finds the position of the first occurrence, or reports that there is none |
| MultiGraph.Graph.constructor | src/Gliph/Graph.php:10-12 | a new graph is empty |
| MultiGraph.Graph.AddVertex | src/Gliph/Graph.php:14-18 | the graph state becomes WithVertex of the old one |
| MultiGraph.Graph.AddDirectedEdge | src/Gliph/Graph.php:20-25 | the graph state becomes WithArc of the old one: both endpoints added, then the head appended |
| MultiGraph.Graph.RemoveVertex | src/Gliph/Graph.php:27-29 | the graph state becomes Without of the old one |
| MultiGraph.Graph.RemoveEdge | src/Gliph/Graph.php:31-34 | the first occurrence of the head is removed from the tail's list |
| MultiGraph.Graph.EachAdjacent | src/Gliph/Graph.php:36-40 | yields v's list in order, duplicates included |
| MultiGraph.Graph.EachVertex | src/Gliph/Graph.php:42-46 | yields the vertices in insertion order |
| MultiGraph.Graph.EachEdge | src/Gliph/Graph.php:48-62 | yields every arc of every list, tail-major, duplicates included |
| MultiGraph.Graph.HasVertex | src/Gliph/Graph.php:64-66 | true exactly for a vertex of the graph |
| TopSortSpec.Visit | src/Gliph/Traversal/TopologicalSort.php:103-118 | a visit only extends visited and the solution; it fails only with a RuntimeException, and a successful visit leaves v visited |
| TopSortSpec.Succs | src/Gliph/Traversal/TopologicalSort.php:110 | when the eachAdjacent loop succeeds, every listed successor is visited |
| TopSortSpec.Drain | src/Gliph/Traversal/TopologicalSort.php:95-98 | when the pop loop succeeds, every vertex that was waiting is visited |
| TopSortSpec.Nonzero | src/Gliph/Traversal/TopologicalSort.php:88-93 | exactly the vertices with a nonzero count are pushed |
| TopSortSpec.AdjacentInUniverse | src/Gliph/Traversal/TopologicalSort.php:110 | every vertex reached through eachAdjacent belongs to the graph's vertices or lists |
| TopSortSpec.CycleFound | src/Gliph/Traversal/TopologicalSort.php:104-106 | reaching a vertex on the visiting path closes a cycle |
| TopSortSpec.VisitInv | src/Gliph/Traversal/TopologicalSort.php:103-118 | a visit keeps visiting a path and the solution a post-order without repeats; when it throws, a cycle of the graph exists |
| TopSortSpec.SuccsInv | src/Gliph/Traversal/TopologicalSort.php:110 | the successor loop keeps the invariant; when it throws, a cycle exists |
| TopSortSpec.DrainInv | src/Gliph/Traversal/TopologicalSort.php:95-98 | the pop loop keeps the invariant; when it throws, a cycle exists |
| TopSortSpec.VisitWithin | src/Gliph/Traversal/TopologicalSort.php:103-118 | a visit of a vertex reached from a pushed vertex adds to visited only vertices reached from a pushed vertex |
| TopSortSpec.SuccsWithin | src/Gliph/Traversal/TopologicalSort.php:110 | the successor loop adds to visited only vertices reached from a pushed vertex |
| TopSortSpec.DrainWithin | src/Gliph/Traversal/TopologicalSort.php:95-98 | the pop loop over pushed vertices adds to visited only vertices reached from a pushed vertex |
| TopSortSpec.SolutionExact | src/Gliph/Traversal/TopologicalSort.php:88-101 | a post-order list that holds every pushed vertex and only what they reach holds exactly the vertices reached from a pushed vertex, all of them vertices of the graph or of its lists |
| TopSortSpec.SortFacts | src/Gliph/Traversal/TopologicalSort.php:70-101 | the sort throws only when the graph has a cycle; otherwise every vertex appears at most once, after every vertex its list names; every vertex with a nonempty list appears; and a vertex appears exactly when a path leads to it from a vertex with a nonempty list, so nothing outside the graph does |
| TopologicalSort.TopologicalSort.constructor | src/Gliph/Traversal/TopologicalSort.php:35-38 | the sorter holds the graph it was given |
| TopologicalSort.TopologicalSort.GetIterator | src/Gliph/Traversal/TopologicalSort.php:70-101 | getIterator returns what the specification sort returns: the solution, or the RuntimeException |
| TopologicalSort.TopologicalSort.DrainWaiting | src/Gliph/Traversal/TopologicalSort.php:95-98 | the pop-and-visit loop computes the specification drain |
| TopologicalSort.TopologicalSort.CountDegrees | src/Gliph/Traversal/TopologicalSort.php:78-86 | every vertex gets a count, in vertex order; the count is the length of its own list |
| TopologicalSort.TopologicalSort.Visit | src/Gliph/Traversal/TopologicalSort.php:103-118 | visit changes visiting, visited and the solution exactly as the specification visit does |
| TopologicalSort.TopologicalSort.Successors | src/Gliph/Traversal/TopologicalSort.php:110 | the eachAdjacent loop of visit, left at the first exception |
| TopologicalSort.PushNonzero | src/Gliph/Traversal/TopologicalSort.php:88-93 | the loop over the counts pushes exactly the vertices with a nonzero count, in key order |
| LegacyGliph.DirectedAdjacencyGraph.constructor | src/Gliph/DirectedAdjacencyGraph.php:12-14 | a new graph is empty |
| LegacyGliph.DirectedAdjacencyGraph.HasVertex | src/Gliph/DirectedAdjacencyGraph.php:69-71 | true exactly for a vertex of the graph |
| LegacyGliph.DirectedAdjacencyGraph.AddVertex | src/Gliph/DirectedAdjacencyGraph.php:16-20 | a new vertex gets an empty set; adding a vertex again changes nothing |
| LegacyGliph.DirectedAdjacencyGraph.AddDirectedEdge | src/Gliph/DirectedAdjacencyGraph.php:22-26 | the arc is added along with both endpoints, tail first; a repeated arc changes nothing |
| LegacyGliph.DirectedAdjacencyGraph.RemoveVertex | src/Gliph/DirectedAdjacencyGraph.php:28-35 | v and every arc touching it are removed; for a vertex the graph does not hold nothing changes |
| LegacyGliph.DirectedAdjacencyGraph.RemoveEdge | src/Gliph/DirectedAdjacencyGraph.php:37-39 | a missing tail fails with UnexpectedValue and changes nothing; otherwise exactly the arc is removed |
| LegacyGliph.DirectedAdjacencyGraph.EachAdjacent | src/Gliph/DirectedAdjacencyGraph.php:41-45 | yields the successor set, or fails with UnexpectedValue for a missing vertex |
| LegacyGliph.DirectedAdjacencyGraph.EachVertex | src/Gliph/DirectedAdjacencyGraph.php:47-51 | yields each vertex once, in insertion order, with its set |
| LegacyGliph.DirectedAdjacencyGraph.EachEdge | src/Gliph/DirectedAdjacencyGraph.php:53-67 | yields every arc once, tail-major, all collected before any callback |
| LegacyGliph.DirectedAdjacencyGraph.Transpose | src/Gliph/DirectedAdjacencyGraph.php:90-97 | a fresh graph holding the transposed store |
| LegacyGliph.DirectedAdjacencyGraph.AddReversedArcs | src/Gliph/DirectedAdjacencyGraph.php:92-94 | the transpose loop adds every listed arc reversed |
| LegacyGliph.DirectedAdjacencyGraph.GetCycles | src/Gliph/DirectedAdjacencyGraph.php:99-103 | the components of more than one vertex, or FALSE exactly when there is none |
| LegacyGliph.IncidenceGraph.constructor | src/Gliph/IncidenceGraph.php:9-11 | a new graph is empty |
| LegacyGliph.IncidenceGraph.HasVertex | src/Gliph/IncidenceGraph.php:67-69 | true exactly for a vertex of the graph |
| LegacyGliph.IncidenceGraph.AddVertex | src/Gliph/IncidenceGraph.php:13-17 | a new vertex gets an empty set; symmetry is kept |
| LegacyGliph.IncidenceGraph.AddEdge | src/Gliph/IncidenceGraph.php:19-24 | the edge is stored both ways and symmetry is kept |
| LegacyGliph.IncidenceGraph.RemoveVertex | src/Gliph/IncidenceGraph.php:26-31 | a missing vertex fails with UnexpectedValue and nothing changes; otherwise v leaves its neighbours' sets and is unset |
| LegacyGliph.IncidenceGraph.RemoveEdge | src/Gliph/IncidenceGraph.php:33-36 | a missing endpoint fails with UnexpectedValue and nothing changes; otherwise both directions are removed |
| LegacyGliph.IncidenceGraph.EachAdjacent | src/Gliph/IncidenceGraph.php:38-42 | yields the neighbour set, or fails for a missing vertex |
| LegacyGliph.IncidenceGraph.EachVertex | src/Gliph/IncidenceGraph.php:44-48 | yields each vertex once, in insertion order |
| LegacyGliph.IncidenceGraph.EachEdge | src/Gliph/IncidenceGraph.php:50-65 | yields each edge once |
| LegacyGraph.DirectedAdjacencyGraph.constructor | src/Gliph/Graph/DirectedAdjacencyGraph.php:7 | a new graph is empty |
| LegacyGraph.DirectedAdjacencyGraph.AddDirectedEdge | src/Gliph/Graph/DirectedAdjacencyGraph.php:9-19 | each endpoint is added if missing and the arc is added; a repeated arc changes nothing |
| LegacyGraph.DirectedAdjacencyGraph.RemoveVertex | src/Gliph/Graph/DirectedAdjacencyGraph.php:21-32 | a missing vertex throws OutOfBounds and nothing changes; otherwise v and every arc touching it are removed |
| LegacyGraph.DirectedAdjacencyGraph.RemoveEdge | src/Gliph/Graph/DirectedAdjacencyGraph.php:34-36 | a missing tail fails with UnexpectedValue; otherwise exactly the arc is removed |
| LegacyGraph.DirectedAdjacencyGraph.EachEdge | src/Gliph/Graph/DirectedAdjacencyGraph.php:38-49 | yields every arc once, tail-major |
| LegacyGraph.DirectedAdjacencyGraph.Transpose | src/Gliph/Graph/DirectedAdjacencyGraph.php:61-68 | a fresh graph holding the transposed store |
| LegacyGraph.DirectedAdjacencyGraph.AddReversedArcs | src/Gliph/Graph/DirectedAdjacencyGraph.php:63-65 | the transpose loop adds every listed arc reversed |
| LegacyGraph.DirectedAdjacencyGraph.GetCycles | src/Gliph/Graph/DirectedAdjacencyGraph.php:70-74 | the components of more than one vertex, or FALSE exactly when there is none |
| LegacyGraph.UndirectedAdjacencyGraph.constructor | src/Gliph/Graph/UndirectedAdjacencyGraph.php:5 | a new graph is empty |
| LegacyGraph.UndirectedAdjacencyGraph.AddEdge | src/Gliph/Graph/UndirectedAdjacencyGraph.php:7-12 | the edge is stored both ways and symmetry is kept |
| LegacyGraph.UndirectedAdjacencyGraph.RemoveVertex | src/Gliph/Graph/UndirectedAdjacencyGraph.php:14-23 | a missing vertex throws OutOfRange and nothing changes; otherwise v leaves its neighbours' sets and is unset |
| LegacyGraph.UndirectedAdjacencyGraph.RemoveEdge | src/Gliph/Graph/UndirectedAdjacencyGraph.php:25-28 | a missing endpoint fails with UnexpectedValue; otherwise both directions are removed |
| LegacyGraph.UndirectedAdjacencyGraph.EachEdge | src/Gliph/Graph/UndirectedAdjacencyGraph.php:30-45 | yields each edge once |
| LegacyGraph.IncidenceGraph.constructor | src/Gliph/Graph/IncidenceGraph.php:9-11 | a new graph is empty |
| LegacyGraph.IncidenceGraph.HasVertex | src/Gliph/Graph/IncidenceGraph.php:75-77 | true exactly for a vertex of the graph |
| LegacyGraph.IncidenceGraph.AddVertex | src/Gliph/Graph/IncidenceGraph.php:13-21 | a non-object throws OutOfBounds and nothing changes; an object is inserted if absent |
| LegacyGraph.IncidenceGraph.AddEdge | src/Gliph/Graph/IncidenceGraph.php:23-28 | a non-object `from` changes nothing; a non-object `to` adds only `from`; otherwise the edge is stored both ways |
| LegacyGraph.IncidenceGraph.RemoveVertex | src/Gliph/Graph/IncidenceGraph.php:30-39 | a missing vertex throws OutOfRange and nothing changes; otherwise v leaves its neighbours' sets and is unset |
| LegacyGraph.IncidenceGraph.RemoveEdge | src/Gliph/Graph/IncidenceGraph.php:41-44 | a missing endpoint fails with UnexpectedValue; otherwise both directions are removed |
| LegacyGraph.IncidenceGraph.EachAdjacent | src/Gliph/Graph/IncidenceGraph.php:46-50 | yields the neighbour set, or fails for a missing vertex |
| LegacyGraph.IncidenceGraph.EachVertex | src/Gliph/Graph/IncidenceGraph.php:52-56 | yields each vertex once, in insertion order |
| LegacyGraph.IncidenceGraph.EachEdge | src/Gliph/Graph/IncidenceGraph.php:58-73 | yields each edge once |
| LegacyGraph.DirectedScenario | tests/Gliph/Graph/DirectedAdjacencyGraphTest.php:64-76 | with arcs a→b and a→c added to an empty graph, the vertices are a, b, c in that order and eachEdge yields (a, b) then (a, c) |
| LegacyGraph.ScenarioArcs | tests/Gliph/Graph/DirectedAdjacencyGraphTest.php:64-76 | the arc list of that scenario store is (a, b), (a, c) |
| LegacyGraph.TransposeScenario | tests/Gliph/Graph/DirectedAdjacencyGraphTest.php:78-86 | transposing those two arcs yields the vertices b, a, c in that order |

## Left out

- `Gliph\Util\HashMap` is modelled as an insertion-ordered map from key to value. Its own code is not part of this model.
- `BFSTopSort` and `DFSTopSort` are not modelled. They lie outside the core.
- The interface files are not modelled, because they have no behaviour. These are `Digraph`, `MutableDigraph`, `MutableGraph`, `MutableVertexSet` and the graph interfaces.
- `DepthFirstSearch::search`, `setHandler` and `setHandlers` are not modelled. `search` only checks its arguments and then does nothing. The handler set is a constructor parameter instead.
- AdjacencyLists.DirectedAdjacencyList.IsAcyclic: `DepthFirst::traverse` is not part of this model. The method binds it to the depth-first search from the graph's own sources. The tests expect that search to throw on a graph with no source, so such a graph counts as cyclic. The method keeps that answer as written. It is therefore wrong on a cycle that no source reaches and on the empty graph, which is the isAcyclic row under Findings.
- AdjacencyLists.DirectedAdjacencyList.AddDirectedEdge: `addVertex` returns nothing, so the chained `addVertex($tail)->addVertex($head)` would fail in PHP once the tail is added. The model takes the evident meaning: two calls, tail first.
- AdjacencyLists.UndirectedAdjacencyList.AddEdge: the same chained `addVertex($from)->addVertex($to)` is modelled as two calls, `from` first.
- AdjacencyLists.DirectedAdjacencyList.RemoveVertex, AdjacencyLists.DirectedAdjacencyList.EachEdge, AdjacencyLists.DirectedAdjacencyList.InDegree and AdjacencyLists.UndirectedAdjacencyList.EachEdge: `eachVertex` requires a callback, yet these `foreach` over `eachVertex()` with none. The model takes `eachVertex()` to yield each vertex with its set, in insertion order.
- AdjacencyLists.DirectedAdjacencyList.EachEdge and AdjacencyLists.UndirectedAdjacencyList.EachEdge: `getTraversableSplos` and `$this->walking` are defined nowhere in the code shown. The model takes the set returned to be a copy of the neighbour set, iterated in insertion order, and the `walking->detach` to have no effect the caller can observe.
- ConnectedComponent.TarjanScc: `successorsOf` and `vertices()` are not defined by the graph classes shown. The model takes them to be the neighbour set in insertion order and the vertices in insertion order.
- The size counter of the adjacency lists: `$this->size` is not declared in `AdjacencyList`. The model gives it an initial value of 0.
- Nested `eachVertex`: `fev` iterates the storage itself and reads `getInfo()` at the cursor. An `eachVertex` run from inside another one would share and move that cursor. The model iterates a snapshot, so it does not capture this.
- Gliph.Expand: every hook of `depth_first_traverse` receives `$visit`, and a visitor could call it to visit further. The visitors modelled never do, so a visitor that calls `$visit` is not modelled.
- The iterator methods of `TopologicalSort` are not modelled: `rewind`, `next`, `key`, `current` and `valid`. They are not used by `getIterator`. The `$start_vertex` constructor argument is stored but never read, so it is dropped.
- `TopSortSpec.SortFacts`: the sort as written is not complete on an acyclic graph. Only vertices with a nonzero count are pushed, and the count is the length of the vertex's own list. So a vertex that ends no path from such a vertex never appears: an isolated vertex is one. `SortFacts` states exactly which vertices appear. It proves no completeness beyond that, because the code does not give it.
- Vertex identity is object identity. PHP's loose `!=` in the pop loops and `array_search` without strict mode are taken to compare identity.
- `SplObjectStorage` iteration is modelled by a snapshot of the storage. A callback that changes the storage during `eachVertex` is therefore not modelled.
- The `AdjacencyGraph` base class of `Graph\DirectedAdjacencyGraph` and `Graph\UndirectedAdjacencyGraph` is not part of this model. Its `addVertex`, `hasVertex`, `eachVertex` and `eachAdjacent` are taken to be the store's insert-if-absent and lookups.
- Non-object vertices are modelled only where the code shown checks for them: the current adjacency lists and `Graph\IncidenceGraph`. The `Gliph` namespace classes do not check.
- `LegacyGliph.DirectedAdjacencyGraph.GetCycles`: it is modelled as evidently intended. `Gliph\Tarjan::getCycles` declares its argument as `Gliph\Graph\DirectedAdjacencyGraph`, and it calls `getVertexTypes`, which neither graph class defines. `Gliph\DirectedAdjacencyGraph::getCycles` passes itself anyway.
- `MultiGraph.Graph.RemoveEdge`: it does not model the stray NULL slot that `HashMap::get` creates for a missing tail. It also does not model the key-0 loss of the code as written, which is the row under Findings.
- `MultiGraph.Graph.EachAdjacent`: for a missing vertex, `foreach` over NULL is a PHP warning and yields nothing. The model yields the empty list and does not model the warning.
- The tests expect a missing vertex passed to `eachAdjacent` to throw `NonexistentVertexException`. The code shown reaches `SplObjectStorage::offsetGet`, which throws `UnexpectedValueException`. The code wins.
- `tests/Gliph/Graph/AdjacencyGraphTest.php:115-120` expects `OutOfBoundsException` from removing a missing vertex. `Graph\UndirectedAdjacencyGraph` and `Graph\IncidenceGraph` throw `OutOfRangeException`. The code wins.
- `ConnectedComponent.TarjanScc`: it returns the components in pop order, not a `TarjanSCCVisitor`. The visitor's own code is not part of this model.
- Callbacks passed to `eachVertex`, `eachAdjacent` and `eachEdge` are modelled as the sequence of arguments they would receive. The visitor callbacks of `Gliph::depth_first_traverse` are modelled as the event trace.
- Exceptions other than those named are not modelled. The `Cycle detected` message text and the `E_RECOVERABLE_ERROR` code are not modelled either.

## Findings

| source | as written | input that shows it | evidently intended | confidence | as-written member | corrected member |
|---|---|---|---|---|---|---|
| src/Gliph/Gliph.php:32 | `else if ($visited->contains($vertex))` expands only a vertex that is already visited, and `visited` starts empty | any queue, with any graph: no hook is ever called | `!$visited->contains($vertex)`: expand a vertex not yet visited | high (not executed) | Gliph.DepthFirstTraverseAsWritten | Gliph.DepthFirstTraverse, Gliph.FirstQueuedStarts |
| src/Gliph/Gliph.php:21-23 | with no queue, the queue `find_sources` returns is discarded, and `$queue->isEmpty()` is then called on NULL | `depth_first_traverse($graph, $visitor)` with no queue argument | `$queue = self::find_sources($graph, $visitor);` | high (not executed) | Gliph.DepthFirstTraverseAsWritten | Gliph.DepthFirstTraverse, Gliph.TraverseFromSources |
| src/Gliph/Graph.php:33 | `array_search` returns FALSE for an absent head, and `unset($val[FALSE])` unsets key 0 | the tail's list is [a], and the head b is not in it: a is lost | remove the head only when `array_search` finds it | high (not executed) | MultiGraph.RemoveEdgeAsWrittenLosesFirstArc | MultiGraph.RemoveEdgeFacts |
| src/Gliph/Graph/DirectedAdjacencyList.php:74-83 | TRUE when the depth-first search from the sources throws no exception. The search only covers what the sources reach, and a graph with no vertex has no source | the vertices 0, 1, 2 with the arcs 1→2 and 2→1: the answer is TRUE. The empty graph: the answer is FALSE | TRUE exactly when the graph has no cycle: a back edge answers FALSE, and so does a vertex left unreached | medium (not executed; `DepthFirst::traverse` is taken to be the search from the sources) | DfsCycles.AsWrittenMissesUnreachedCycle, DfsCycles.AsWrittenRefusesEmpty | DfsCycles.WholeAcyclicCorrect |
