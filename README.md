# Betweenness centrality on graphs with negative weights

A Dafny model of the `progetto` package of *laboratorio_algoritmi*. The package computes the
betweenness centrality of every vertex of a directed, edge-weighted graph whose weights may be
negative. It follows Johnson's scheme:

1. An auxiliary vertex `q` gets a 0-weight edge to every vertex.
2. Queue-based Bellman-Ford runs from `q`. It searches the predecessor graph for a negative
   cycle every `V` edges.
3. Without a negative cycle, `q`'s edges are dropped. Every edge `u -> v` of weight `w` is
   reweighted to `w + h(u) - h(v)`, where `h` is the Bellman-Ford distance from `q`.
4. A Dijkstra variant that keeps ties runs from every vertex. It lists `u` as a predecessor of
   `w` exactly when an edge `u -> w` is tight, and expands the predecessor lists into the list
   of all shortest paths from its source.
5. For each ordered pair `s != t`, `sigmaST` counts the listed `s`-`t` paths. For each vertex
   `v` strictly inside them it tallies `sigma(s, t, v)`. The vertex then gains
   `sigma(s, t, v) / sigma(s, t)`.

The model keeps the source's shape. Every class whose fields the Java code updates is a Dafny
`class`, with `modifies` clauses on its methods and loops carrying their invariants:

- `Bag`, `EdgeWeightedDigraph`, `EdgeWeightedDirectedCycle`, `BellmanFordSP`, `DijkstraSP`,
  `DijkstraAllPairsSP`, `BetweennessCentrality`, `MyInteger`, `Counter`.
- `DirectedEdge` is a class for `setWeight` and `equals`. Graphs store edges as values
  (`Edge(from, to, weight)`), since `equals` is value equality.

The methods are proved against specification functions:

- `Walks`: walks and their weights.
- `Johnson`: the reweighted graph and its potentials.
- `PredecessorPaths`: the paths that predecessor lists spell out.
- `Centrality`: `sigma`, `sigma(v)`, the inner vertices, the shares and the scores.

The main results:

- **Bellman-Ford.** A reported cycle is a closed walk of negative weight. Otherwise a drained
  queue gives the optimality conditions that `check()` tests. From those, `distTo[v]` is the
  weight of a shortest walk.
- **Reweighting.** The reweighted edges are non-negative. Closed walks keep their weight, so no
  cycle of weight 0 appears. The minimal paths of the reweighted graph are exactly the minimal
  paths of the input.
- **Dijkstra.** Every distance is a shortest distance. A vertex is a recorded predecessor of `w`
  exactly when one of its edges to `w` is tight, and the predecessor lists are acyclic. The
  collected list holds exactly the paths the lists spell out. Each is a shortest path that
  repeats no vertex, and every shortest path from the source to another vertex is among them.
- **Scores.** The paths listed from `s` are exactly the minimal paths of the input from `s` to
  other vertices. Each score is the sum of shares over all ordered pairs. It lies in
  `[0, n * n]`, and it is positive exactly when the vertex lies strictly inside some listed path.

Weights are `int`, and `+infinity` is `Dist.Inf`. The unseen `Queue`, `Stack` and `IndexMinPQ`
are modelled as a FIFO sequence, a LIFO sequence, and a set with extraction of a least-distance
element. Each exception is a `Failure`/`Fail` value naming its kind.

## Model

| member | source | states |
|---|---|---|
| Common.Plus | laboratorio_algoritmi/src/progetto/BellmanFordSP.java:38-39 | `distTo[v] + w` is +infinity exactly when `distTo[v]` is, and otherwise exceeds it by exactly `w` |
| Common.LessIsStrictOrder | laboratorio_algoritmi/src/progetto/DijkstraSP.java:106-114 | the `<` used by both `relax` methods is irreflexive, asymmetric and transitive on distances with +infinity, and `<=` is `<` or equality |
| DirectedEdges.CheckEdge | laboratorio_algoritmi/src/progetto/DirectedEdge.java:8-18 | the constructor succeeds exactly when both vertex names are non-negative, with no upper bound; the edge holds the given endpoints and weight; otherwise it fails with InvalidArgument |
| DirectedEdges.DirectedEdge.constructor | laboratorio_algoritmi/src/progetto/DirectedEdge.java:8-18 | a new edge holds `v`, `w` and `weight` |
| DirectedEdges.DirectedEdge.From | laboratorio_algoritmi/src/progetto/DirectedEdge.java:20-22 | `from()` is the tail of the edge value that `equals` compares |
| DirectedEdges.DirectedEdge.To | laboratorio_algoritmi/src/progetto/DirectedEdge.java:24-26 | `to()` is the head of the edge value that `equals` compares |
| DirectedEdges.DirectedEdge.Weight | laboratorio_algoritmi/src/progetto/DirectedEdge.java:28-30 | `weight()` is the current weight of the edge value, the one `setWeight` changes |
| DirectedEdges.DirectedEdge.Create | laboratorio_algoritmi/src/progetto/DirectedEdge.java:8-18 | `new DirectedEdge` fails exactly where CheckEdge fails, and otherwise yields a fresh edge with the checked value |
| DirectedEdges.DirectedEdge.SetWeight | laboratorio_algoritmi/src/progetto/DirectedEdge.java:32-34 | only the weight changes, to the value set; `from` and `to` are final |
| DirectedEdges.DirectedEdge.Equals | laboratorio_algoritmi/src/progetto/DirectedEdge.java:40-46 | `equals` holds exactly when from, to and weight all agree |
| DirectedEdges.EqualsIsEquivalence | laboratorio_algoritmi/src/progetto/DirectedEdge.java:40-46 | `equals` is reflexive, symmetric and transitive |
| Bags.RemovedSpec | laboratorio_algoritmi/src/progetto/Bag.java:14-22 | after removal no copy of the item is left, every other item keeps its multiplicity, nothing new appears, and removing an absent item changes nothing |
| Bags.RemovedIdempotent | laboratorio_algoritmi/src/progetto/Bag.java:14-22 | removing the same item twice is the same as removing it once |
| Bags.Bag.constructor | laboratorio_algoritmi/src/progetto/Bag.java:9-11 | a new bag is empty: size 0 and `isEmpty()` |
| Bags.Bag.Remove | laboratorio_algoritmi/src/progetto/Bag.java:14-22 | the iterator-removal loop leaves exactly the items not equal to `item`, in their original order; afterwards `contains(item)` is false and the size has dropped by the number of copies removed |
| Bags.Bag.Clear | laboratorio_algoritmi/src/progetto/Bag.java:24-26 | the bag is empty afterwards |
| Bags.Bag.IsEmpty | laboratorio_algoritmi/src/progetto/Bag.java:28-34 | `isEmpty()` holds exactly when `size() == 0` |
| Bags.Bag.Size | laboratorio_algoritmi/src/progetto/Bag.java:32-34 | `size()` counts every item, copies included |
| Bags.Bag.Contains | laboratorio_algoritmi/src/progetto/Bag.java:44-46 | `contains(i)` holds exactly when at least one copy of `i` is in the bag |
| Bags.Bag.Add | laboratorio_algoritmi/src/progetto/Bag.java:36-38 | the item is appended at the end, the earlier items are untouched and the size grows by one |
| Counters.Counter.constructor | laboratorio_algoritmi/src/progetto/Counter.java:5-10 | a new counter keeps its name and has tally 0 |
| Counters.Counter.Increment | laboratorio_algoritmi/src/progetto/Counter.java:12-14 | `count++` on a 32-bit int: one more, or the smallest int after the largest |
| Counters.Counter.Tally | laboratorio_algoritmi/src/progetto/Counter.java:16-18 | the count of a valid counter is a 32-bit int |
| Counters.Counter.CompareTo | laboratorio_algoritmi/src/progetto/Counter.java:24-32 | the result is -1, 0 or +1 exactly as this count is below, equal to or above the other's |
| Counters.CompareToAntisymmetric | laboratorio_algoritmi/src/progetto/Counter.java:24-32 | `a.compareTo(b) == -b.compareTo(a)` |
| Walks.FlattenHasEdge | laboratorio_algoritmi/src/progetto/EdgeWeightedDigraph.java:124-132 | in a well-formed graph the flat edge list holds exactly the graph's edges |
| Walks.FromFilterFlatten | laboratorio_algoritmi/src/progetto/BetweennessCentrality.java:46-48 | re-adding the flat edge list with addEdge rebuilds every adjacency list in its own order |
| Walks.InCountSumIsLength | laboratorio_algoritmi/src/progetto/EdgeWeightedDigraph.java:88-96 | when every edge points inside [0, n), the per-vertex in-counts add up to the number of edges |
| Walks.NonNegativeWalk | laboratorio_algoritmi/src/progetto/DijkstraSP.java:40-42 | with non-negative weights every walk weighs at least 0 |
| Digraphs.EdgeWeightedDigraph.constructor | laboratorio_algoritmi/src/progetto/EdgeWeightedDigraph.java:14-23 | V empty adjacency lists, E = 0, every indegree 0, and the counts agree with the lists |
| Digraphs.EdgeWeightedDigraph.Create | laboratorio_algoritmi/src/progetto/EdgeWeightedDigraph.java:14-23 | a negative vertex count fails with InvalidArgument; otherwise the graph is as the constructor builds it |
| Digraphs.EdgeWeightedDigraph.CopyOf | laboratorio_algoritmi/src/progetto/EdgeWeightedDigraph.java:57-72 | the copy constructor as written: same V, E and indegrees, and each adjacency list reversed by the LIFO stack |
| Digraphs.EdgeWeightedDigraph.CopyInOrder | laboratorio_algoritmi/src/progetto/EdgeWeightedDigraph.java:57-72 | the copy that the comment at line 63 promises: same V, E, indegrees and adjacency lists in their original order; an accurate count stays accurate |
| Digraphs.ReversedChangesOrder | laboratorio_algoritmi/src/progetto/EdgeWeightedDigraph.java:62-71 | a list whose first and last edges differ does not survive the stack round trip unchanged |
| Digraphs.CopyReversesTwoEdges | laboratorio_algoritmi/src/progetto/EdgeWeightedDigraph.java:62-71 | the edges 0->1, 0->2 come out as 0->2, 0->1 |
| Digraphs.ReversedMembers | laboratorio_algoritmi/src/progetto/EdgeWeightedDigraph.java:62-71 | the reversed list holds the same edges |
| Digraphs.EdgeWeightedDigraph.ValidateVertex | laboratorio_algoritmi/src/progetto/EdgeWeightedDigraph.java:82-86 | passes exactly for `0 <= v < V`, otherwise InvalidVertex(v) |
| Digraphs.EdgeWeightedDigraph.AddEdge | laboratorio_algoritmi/src/progetto/EdgeWeightedDigraph.java:88-96 | with both endpoints in range: appends `e` to `adj[from]` and adds one to `indegree[to]` and to `E`, nothing else; otherwise reports the first bad endpoint and changes nothing; keeps E and the indegrees accurate |
| Digraphs.AddKeepsCounted | laboratorio_algoritmi/src/progetto/EdgeWeightedDigraph.java:88-96 | one addEdge keeps "E counts the stored edges and indegree[w] those pointing at w" |
| Digraphs.IndegreesSumToE | laboratorio_algoritmi/src/progetto/EdgeWeightedDigraph.java:88-96 | while only addEdge is used, the indegrees sum to E |
| Digraphs.EdgeWeightedDigraph.DeleteEdge | laboratorio_algoritmi/src/progetto/EdgeWeightedDigraph.java:98-107 | every edge equal to `e` leaves `adj[e.from]`, and it is a no-op when there is none; E and the indegrees are not touched |
| Digraphs.RemovedKeepsWellFormed | laboratorio_algoritmi/src/progetto/EdgeWeightedDigraph.java:98-107 | deleting edges keeps every stored edge in its own `from` list and inside [0, V) |
| Digraphs.EdgeWeightedDigraph.Adj | laboratorio_algoritmi/src/progetto/EdgeWeightedDigraph.java:109-112 | rejects a vertex outside [0, V); otherwise it lists exactly the graph's edges leaving v |
| Digraphs.EdgeWeightedDigraph.Outdegree | laboratorio_algoritmi/src/progetto/EdgeWeightedDigraph.java:114-117 | rejects a vertex outside [0, V); otherwise it is the size of `adj(v)` |
| Digraphs.EdgeWeightedDigraph.Indegree | laboratorio_algoritmi/src/progetto/EdgeWeightedDigraph.java:119-122 | rejects a vertex outside [0, V); with accurate counts, the number of stored edges pointing at v |
| Digraphs.EdgeWeightedDigraph.Edges | laboratorio_algoritmi/src/progetto/EdgeWeightedDigraph.java:124-132 | every adjacency entry, vertex 0 first, each list in insertion order; an edge is listed exactly when it is in the graph |
| Digraphs.EdgeWeightedDigraph.EdgesAsArray | laboratorio_algoritmi/src/progetto/EdgeWeightedDigraph.java:134-139 | the same sequence as `edges()` |
| Digraphs.EdgeWeightedDigraph.ClearAdj | laboratorio_algoritmi/src/progetto/BetweennessCentrality.java:73 | `getAdg()[v].clear()` empties list v and leaves the other lists unchanged |
| DirectedCycles.EdgeWeightedDirectedCycle.constructor | laboratorio_algoritmi/src/progetto/EdgeWeightedDirectedCycle.java:10-19 | after DFS from every unmarked vertex, every vertex is marked; a reported cycle is a closed walk of G, and none is reported exactly when G has no closed walk |
| DirectedCycles.EdgeWeightedDirectedCycle.Dfs | laboratorio_algoritmi/src/progetto/EdgeWeightedDirectedCycle.java:23-49 | v ends marked, marks are never lost, a cycle once found is never replaced, and without one the DFS stack is as it was |
| DirectedCycles.EdgeWeightedDirectedCycle.Enter | laboratorio_algoritmi/src/progetto/EdgeWeightedDirectedCycle.java:24-25 | v is marked and pushed on the DFS stack; nothing else changes |
| DirectedCycles.EdgeWeightedDirectedCycle.Leave | laboratorio_algoritmi/src/progetto/EdgeWeightedDirectedCycle.java:48 | v leaves the stack once its out-neighbours are finished |
| DirectedCycles.EdgeWeightedDirectedCycle.Visit | laboratorio_algoritmi/src/progetto/EdgeWeightedDirectedCycle.java:27-46 | after one edge of dfs's loop (recur into an unmarked head, trace back a cycle for a head on the stack, or skip a finished head) the invariant holds and no mark is lost; without a cycle the edge's head is finished and the stack is as before |
| DirectedCycles.EdgeWeightedDirectedCycle.TraceBack | laboratorio_algoritmi/src/progetto/EdgeWeightedDirectedCycle.java:37-45 | following edgeTo back from the closing edge to its head yields a cycle that is a closed walk of G |
| DirectedCycles.SearchLeave | laboratorio_algoritmi/src/progetto/EdgeWeightedDirectedCycle.java:48 | popping v once all its out-neighbours are finished keeps the DFS invariant, with v finished after them |
| DirectedCycles.RankDropsNoCycle | laboratorio_algoritmi/src/progetto/EdgeWeightedDirectedCycle.java:23-49 | a finishing order that drops along every edge rules out every closed walk, which certifies "no cycle" |
| DirectedCycles.EdgeWeightedDirectedCycle.HasCycle | laboratorio_algoritmi/src/progetto/EdgeWeightedDirectedCycle.java:51-53 | `hasCycle()` holds exactly when a cycle is stored |
| DirectedCycles.EdgeWeightedDirectedCycle.Cycle | laboratorio_algoritmi/src/progetto/EdgeWeightedDirectedCycle.java:55-57 | a returned cycle is a closed walk of G, and there is none exactly when G has no closed walk |
| DirectedCycles.EdgeWeightedDirectedCycle.Check | laboratorio_algoritmi/src/progetto/EdgeWeightedDirectedCycle.java:60-82 | `check()` passes exactly when there is no cycle, or consecutive edges are incident and the last edge returns to the first |
| DirectedCycles.CheckHolds | laboratorio_algoritmi/src/progetto/EdgeWeightedDirectedCycle.java:18 | the certificate asserted at the end of the constructor holds |
| BellmanFord.InitKeeps | laboratorio_algoritmi/src/progetto/BellmanFordSP.java:14-24 | the start state (distTo[s] = 0, the rest +infinity, no edgeTo, only s queued) satisfies the predecessor and queue invariants |
| BellmanFord.DequeueKeeps | laboratorio_algoritmi/src/progetto/BellmanFordSP.java:26-27 | the dequeued vertex has a finite distance, and `onQueue` still marks exactly the queued vertices |
| BellmanFord.ImproveKeepsQueue | laboratorio_algoritmi/src/progetto/BellmanFordSP.java:38-45 | a strict improvement queues w unless `onQueue[w]`, so no vertex is queued twice |
| BellmanFord.ImproveKeepsTree | laboratorio_algoritmi/src/progetto/BellmanFordSP.java:38-40 | setting distTo[w] and edgeTo[w] on strict improvement keeps the predecessor invariant: a vertex without edgeTo has its initial distance, and each edgeTo edge is an edge of G into its vertex with distTo[from] + weight <= distTo[to] |
| BellmanFord.SkipKeeps | laboratorio_algoritmi/src/progetto/BellmanFordSP.java:38 | an edge that fails the test of relax is relaxed and left as it is |
| BellmanFord.FinishKeeps | laboratorio_algoritmi/src/progetto/BellmanFordSP.java:35-52 | after all of v's edges, v is relaxed or back on the queue |
| BellmanFord.TreeCycleNegative | laboratorio_algoritmi/src/progetto/BellmanFordSP.java:62-72 | a cycle of the predecessor graph is a closed walk of G of negative weight |
| BellmanFord.ConvergedOptimal | laboratorio_algoritmi/src/progetto/BellmanFordSP.java:119-161 | an empty queue without a found cycle gives the conditions check() tests: distTo[s] = 0 with no edgeTo, no edgeTo means +infinity, every edge relaxed, every edgeTo edge tight |
| BellmanFord.WalkBound | laboratorio_algoritmi/src/progetto/BellmanFordSP.java:99-104 | under those conditions no walk from s to v weighs less than distTo[v] |
| BellmanFord.TreePathExists | laboratorio_algoritmi/src/progetto/BellmanFordSP.java:99-104 | under those conditions the edgeTo path to a vertex of finite distance weighs exactly distTo[v] |
| BellmanFord.SptCycle | laboratorio_algoritmi/src/progetto/BellmanFordSP.java:62-72 | the cycle finder on the graph of edgeTo edges answers for the predecessor graph: a cycle found is one, and none is found exactly when there is none |
| BellmanFord.BellmanFordSP.constructor | laboratorio_algoritmi/src/progetto/BellmanFordSP.java:13-32 | a reported cycle is a closed walk of G of negative weight; otherwise the queue holds distinct vertices of finite distance, marked exactly by onQueue, and every other vertex is relaxed; a found cycle or a drained queue satisfies check() |
| BellmanFord.BellmanFordSP.Rounds | laboratorio_algoritmi/src/progetto/BellmanFordSP.java:25-29 | the main loop keeps the invariant while the queue is not empty and no cycle has been found |
| BellmanFord.BellmanFordSP.Round | laboratorio_algoritmi/src/progetto/BellmanFordSP.java:26-28 | dequeue, clear onQueue and relax, keeping the invariant |
| BellmanFord.BellmanFordSP.Relax | laboratorio_algoritmi/src/progetto/BellmanFordSP.java:35-52 | relax(G, v) keeps the invariant and never raises a distance |
| BellmanFord.BellmanFordSP.Examine | laboratorio_algoritmi/src/progetto/BellmanFordSP.java:36-50 | one edge of relax, with the cycle search every V edges: either the edge is done, or a negative cycle is found; distances never rise |
| BellmanFord.BellmanFordSP.Improve | laboratorio_algoritmi/src/progetto/BellmanFordSP.java:38-45 | the strict-improvement branch keeps the relaxation invariant past edge k (w queued unless already on the queue, so no vertex is queued twice) and never raises a distance |
| BellmanFord.BellmanFordSP.FindNegativeCycle | laboratorio_algoritmi/src/progetto/BellmanFordSP.java:62-72 | the stored cycle is a closed walk of edgeTo edges, and none is stored exactly when the predecessor graph has none |
| BellmanFord.BellmanFordSP.BuildSpt | laboratorio_algoritmi/src/progetto/BellmanFordSP.java:64-68 | the graph holds exactly the edgeTo edges, one per vertex that has one |
| BellmanFord.BellmanFordSP.HasNegativeCycle | laboratorio_algoritmi/src/progetto/BellmanFordSP.java:54-56 | holds exactly when a cycle is stored |
| BellmanFord.BellmanFordSP.NegativeCycle | laboratorio_algoritmi/src/progetto/BellmanFordSP.java:58-60 | a returned cycle is a closed walk of G of negative weight |
| BellmanFord.BellmanFordSP.ValidateVertex | laboratorio_algoritmi/src/progetto/BellmanFordSP.java:169-174 | passes exactly for vertices in [0, V) |
| BellmanFord.BellmanFordSP.DistTo | laboratorio_algoritmi/src/progetto/BellmanFordSP.java:74-79 | a bad vertex fails, then a found negative cycle fails; for a settled run the result is the shortest-walk weight: no walk is lighter and a finite value is attained |
| BellmanFord.BellmanFordSP.Bounds | laboratorio_algoritmi/src/progetto/BellmanFordSP.java:99-104 | the two halves of "distTo is the shortest distance" for a settled run |
| BellmanFord.BellmanFordSP.HasPathTo | laboratorio_algoritmi/src/progetto/BellmanFordSP.java:81-84 | `distTo[v] < +infinity`, and for a settled run exactly when some walk reaches v |
| BellmanFord.BellmanFordSP.PathTo | laboratorio_algoritmi/src/progetto/BellmanFordSP.java:86-97 | same errors as distTo; no path exactly when distTo[v] is +infinity; otherwise a walk from s to v in s-to-v order weighing distTo[v] |
| BellmanFord.CheckHolds | laboratorio_algoritmi/src/progetto/BellmanFordSP.java:31 | `assert check(G, s)`: a found cycle has negative weight, otherwise a drained queue meets the optimality conditions |
| Johnson.SourceEdges | laboratorio_algoritmi/src/progetto/BetweennessCentrality.java:57-62 | the edges q -> i of weight 0 for every i < q, in the order the loop adds them |
| Johnson.ReducedEdge | laboratorio_algoritmi/src/progetto/BetweennessCentrality.java:77-78 | edge j of v in the reweighted graph is edge j of v with weight w + h(from) - h(to) |
| Johnson.ReducedWellFormed | laboratorio_algoritmi/src/progetto/BetweennessCentrality.java:77-78 | reweighting keeps every edge in its list and inside [0, V) |
| Johnson.Telescope | laboratorio_algoritmi/src/progetto/BetweennessCentrality.java:78 | a reweighted walk from s to t weighs its old weight plus h(s) - h(t), and undoing the reweighting subtracts it again |
| Johnson.ReducedWalk | laboratorio_algoritmi/src/progetto/BetweennessCentrality.java:78 | a walk of G, reweighted, is a walk of the reweighted graph between the same ends |
| Johnson.RestoredWalk | laboratorio_algoritmi/src/progetto/BetweennessCentrality.java:78 | a walk of the reweighted graph, with the old weights back, is a walk of G through the same vertices |
| Johnson.ReducedNonNegative | laboratorio_algoritmi/src/progetto/BetweennessCentrality.java:77-78 | with h relaxed on every edge (BellmanFordSP.java:136-146), every reweighted edge weighs at least 0 |
| Johnson.ReducedNoZeroCycle | laboratorio_algoritmi/src/progetto/BetweennessCentrality.java:77-78 | closed walks keep their weight, so no cycle of weight 0 appears |
| Johnson.ShortestPreserved | laboratorio_algoritmi/src/progetto/BetweennessCentrality.java:77-83 | a shortest walk of the reweighted graph spells a minimal path of G (one direction of Johnson's theorem; MinimalReweighted is the other) |
| Johnson.MinimalReweighted | laboratorio_algoritmi/src/progetto/BetweennessCentrality.java:77-83 | a minimal path of G is a minimal path of the reweighted graph: reweighting shifts every walk between the same ends by the same amount |
| Johnson.ExtendedWalk | laboratorio_algoritmi/src/progetto/BetweennessCentrality.java:46-48 | the working graph without q's edges (as the clear leaves it) has exactly the input's walks |
| Johnson.WithSourceWellFormed | laboratorio_algoritmi/src/progetto/BetweennessCentrality.java:46-62 | the working graph keeps every input list, and q's list is the 0-weight edges (or empty after the clear) |
| Johnson.ClosedWalkAvoidsSource | laboratorio_algoritmi/src/progetto/BetweennessCentrality.java:63-68 | no edge enters q, so a cycle that Bellman-Ford finds is a cycle of the input |
| Johnson.AllReached | laboratorio_algoritmi/src/progetto/BetweennessCentrality.java:57-63 | every vertex ends at a finite distance of at most 0 from q |
| Johnson.PotentialNoNegativeCycle | laboratorio_algoritmi/src/progetto/BetweennessCentrality.java:63-65 | with relaxed potentials no closed walk is negative, and none has weight 0 when G has no zero cycle |
| PredecessorPaths.PathCount | laboratorio_algoritmi/src/progetto/DijkstraSP.java:68-93 | one path to the source; otherwise the sum over predecessor entries of the paths to each, duplicates counted twice; an empty list gives no path |
| PredecessorPaths.PathsRooted | laboratorio_algoritmi/src/progetto/DijkstraSP.java:73-93 | every listed path starts at a vertex marked null, ends at dest, and each vertex is a recorded predecessor of the next |
| PredecessorPaths.ChainListed | laboratorio_algoritmi/src/progetto/DijkstraSP.java:73-93 | the converse of PathsRooted: every chain of recorded predecessors from a vertex marked null to dest, within the step bound, is among the listed paths |
| PredecessorPaths.RootedListed | laboratorio_algoritmi/src/progetto/DijkstraSP.java:68-93 | over acyclic lists, every such chain is among the paths getAllShortestPathsTo(dest) lists |
| PredecessorPaths.NoPredsNoPaths | laboratorio_algoritmi/src/progetto/DijkstraSP.java:79-91 | a vertex with an empty list has no paths |
| PredecessorPaths.ChainDistinct | laboratorio_algoritmi/src/progetto/DijkstraSP.java:73-91 | with acyclic predecessor lists a chain repeats no vertex, so the recursion is finite |
| PredecessorPaths.PathsStable | laboratorio_algoritmi/src/progetto/DijkstraSP.java:73-91 | once the step bound covers the longest chain, more steps list the same paths |
| PredecessorPaths.CountViaPaths | laboratorio_algoritmi/src/progetto/DijkstraSP.java:89-90 | the paths through the first k entries number the sum of their path counts |
| Dijkstra.InitInv | laboratorio_algoritmi/src/progetto/DijkstraSP.java:34-49 | distTo[s] = 0, the rest +infinity, a null list at s and empty lists elsewhere, only s queued: the loop invariant holds |
| Dijkstra.ExtractKeeps | laboratorio_algoritmi/src/progetto/DijkstraSP.java:51 | taking a queued vertex of least distance settles it with a final distance |
| Dijkstra.RelaxStrict | laboratorio_algoritmi/src/progetto/DijkstraSP.java:106-113 | the strict branch (new distance, list exactly [v], w queued) keeps the invariant, including "every scanned tight edge has its tail listed" |
| Dijkstra.StrictComplete | laboratorio_algoritmi/src/progetto/DijkstraSP.java:106-113 | clearing the list of w loses no tight edge: every other scanned edge into w was relaxed, so after the improvement none of them is tight |
| Dijkstra.RelaxTie | laboratorio_algoritmi/src/progetto/DijkstraSP.java:114-115 | the tie branch (v appended, distance and queue unchanged) keeps the invariant, now with the tight edge v -> w recorded; w is never the source, so its list is never null |
| Dijkstra.TieComplete | laboratorio_algoritmi/src/progetto/DijkstraSP.java:114-115 | appending v records the tight edge just scanned and keeps every earlier record |
| Dijkstra.RelaxSkip | laboratorio_algoritmi/src/progetto/DijkstraSP.java:104-116 | an edge that takes neither branch is relaxed and not tight, and leaves the state as it is |
| Dijkstra.PredsAcyclic | laboratorio_algoritmi/src/progetto/DijkstraSP.java:104-116 | without a closed walk of weight 0 the predecessor lists never lead back to their start |
| Dijkstra.FinalOptimal | laboratorio_algoritmi/src/progetto/DijkstraSP.java:50-54 | with an empty queue every distance is a shortest distance, and the predecessor lists are in range and acyclic |
| Dijkstra.Finish | laboratorio_algoritmi/src/progetto/DijkstraSP.java:50-61 | the state after the constructor: shortest distances, acyclic lists, and u listed as a predecessor of w exactly when an edge u -> w is tight (w not the source) |
| Dijkstra.ShortestChain | laboratorio_algoritmi/src/progetto/DijkstraSP.java:104-116 | the vertices of a shortest walk from the source form a chain of recorded predecessors rooted at the source: every prefix is shortest, so every edge on it is tight and recorded |
| Dijkstra.CollectedHas | laboratorio_algoritmi/src/progetto/DijkstraSP.java:55-60 | every path listed for a reached target other than the source is collected |
| Dijkstra.ShortestCollected | laboratorio_algoritmi/src/progetto/DijkstraSP.java:55-60 | every shortest path from the source to another vertex is in allShortestPaths |
| Dijkstra.CollectedAreShortest | laboratorio_algoritmi/src/progetto/DijkstraSP.java:55-60 | every collected path is a shortest path from the source to a vertex other than the source, repeating no vertex |
| Dijkstra.CollectedListed | laboratorio_algoritmi/src/progetto/DijkstraSP.java:55-60 | each collected path is a listed path to a reached target other than the source |
| Dijkstra.DijkstraSP.constructor | laboratorio_algoritmi/src/progetto/DijkstraSP.java:33-61 | on admissible weights: shortest distances; u listed as a predecessor of w exactly when an edge u -> w is tight; acyclic lists; allShortestPaths the paths to every reached vertex other than s in ascending target order, which are exactly the shortest paths from s to other vertices |
| Dijkstra.DijkstraSP.Create | laboratorio_algoritmi/src/progetto/DijkstraSP.java:33-61 | fails with NegativeWeight exactly when some edge is negative; otherwise a finished run from s. No 0-weight cycle is asked for when an edge is negative, since the source throws first |
| Dijkstra.DijkstraSP.Run | laboratorio_algoritmi/src/progetto/DijkstraSP.java:50-54 | the queue loop ends with an empty queue and the invariant |
| Dijkstra.DijkstraSP.DelMin | laboratorio_algoritmi/src/progetto/DijkstraSP.java:51 | removes a queued vertex whose distance is least among the queued ones |
| Dijkstra.DijkstraSP.Scan | laboratorio_algoritmi/src/progetto/DijkstraSP.java:52-53 | after every edge leaving v is relaxed, in list order, the loop invariant holds again with v settled and no other vertex settled |
| Dijkstra.DijkstraSP.Relax | laboratorio_algoritmi/src/progetto/DijkstraSP.java:104-116 | strict improvement: distance, list [v], queued; exact tie: v appended, distance and queue unchanged; otherwise nothing changes |
| Dijkstra.DijkstraSP.CollectPaths | laboratorio_algoritmi/src/progetto/DijkstraSP.java:55-60 | allShortestPaths is the concatenation, by ascending target t != s with finite distance, of all paths to t |
| Dijkstra.DijkstraSP.GetAllShortestPathsTo | laboratorio_algoritmi/src/progetto/DijkstraSP.java:68-71 | tempPathList becomes every path to dest that the predecessor lists spell out |
| Dijkstra.DijkstraSP.GetShortestPaths | laboratorio_algoritmi/src/progetto/DijkstraSP.java:73-93 | appends every path to dest followed by the suffix; returns the suffix, with dest in front at the source |
| Dijkstra.DijkstraSP.GetAllShortestPaths | laboratorio_algoritmi/src/progetto/DijkstraSP.java:118-125 | the collected list; every entry is a shortest path from the source to another vertex, repeating no vertex, and every such shortest path is an entry |
| AllPairs.DijkstraAllPairsSP.constructor | laboratorio_algoritmi/src/progetto/DijkstraAllPairsSP.java:6-10 | one finished run per vertex; G is unchanged |
| AllPairs.DijkstraAllPairsSP.Fill | laboratorio_algoritmi/src/progetto/DijkstraAllPairsSP.java:8-9 | every entry v is a finished run from source v over G |
| AllPairs.DijkstraAllPairsSP.Place | laboratorio_algoritmi/src/progetto/DijkstraAllPairsSP.java:9 | entry v becomes a finished run from v over G; every other entry, and whether it is a finished run, stays as it was |
| AllPairs.DijkstraAllPairsSP.GetAll | laboratorio_algoritmi/src/progetto/DijkstraAllPairsSP.java:12-14 | V entries; entry v has sourceNode v and is a finished run over G |
| AllPairs.DijkstraAllPairsSP.Create | laboratorio_algoritmi/src/progetto/DijkstraAllPairsSP.java:6-10 | fails with NegativeWeight exactly when G has a negative edge, with no 0-weight-cycle premise in that case; otherwise one finished run per vertex |
| Centrality.SigmaMeaning | laboratorio_algoritmi/src/progetto/BetweennessCentrality.java:125-151 | sigma(s, t) is positive exactly when some listed path ends at t, and never exceeds the number of paths |
| Centrality.ThroughMeaning | laboratorio_algoritmi/src/progetto/BetweennessCentrality.java:132-137 | containedVertices holds exactly the inner vertices of the listed paths that end at t |
| Centrality.SigmaVPositive | laboratorio_algoritmi/src/progetto/BetweennessCentrality.java:135-148 | sigma(s, t, v) is positive exactly for the vertices of containedVertices |
| Centrality.SigmaVCountsPaths | laboratorio_algoritmi/src/progetto/BetweennessCentrality.java:165-167 | on paths that repeat no vertex, sigma(s, t, v) is the number of s-t paths with v inside, and at most sigma(s, t) |
| Centrality.EndsNotThrough | laboratorio_algoritmi/src/progetto/BetweennessCentrality.java:135 | neither s nor t is ever an inner vertex of an s-t path |
| Centrality.GainBounds | laboratorio_algoritmi/src/progetto/BetweennessCentrality.java:93-107 | the share of v from (s, t) lies in [0, 1], is positive exactly when s != t and v is inside an s-t path, and is 0 for both ends |
| Centrality.RowBounds | laboratorio_algoritmi/src/progetto/BetweennessCentrality.java:94-108 | the shares from one source add up to something in [0, n], positive exactly when v is inside some listed path from s |
| Centrality.ScoreBounds | laboratorio_algoritmi/src/progetto/BetweennessCentrality.java:93-110 | a score lies in [0, m * n] and is positive exactly when v is inside some listed path |
| Centrality.DiamondCounts | laboratorio_algoritmi/src/progetto/BetweennessCentrality.java:125-151 | for the four minimal paths from 0 in the diamond 0->1, 0->2, 1->3, 2->3, each listed once, two paths end at 3, one through 1 and one through 2 |
| Centrality.DiamondShares | laboratorio_algoritmi/src/progetto/BetweennessCentrality.java:100-106 | over the same list, 1 and 2 each gain 1/2 from (0, 3), and the ends gain nothing |
| Betweenness.MyInteger.constructor | laboratorio_algoritmi/src/progetto/BetweennessCentrality.java:10-12 | a new counter holds 1 |
| Betweenness.MyInteger.Inc | laboratorio_algoritmi/src/progetto/BetweennessCentrality.java:14-16 | the value grows by one |
| Betweenness.BetweennessCentrality.constructor | laboratorio_algoritmi/src/progetto/BetweennessCentrality.java:45-113 | when a negative cycle is reported, the input has a closed walk of negative weight and every score is 0; after a finished run every cycle of the input weighs more than 0, shortestPaths[s] lists exactly the minimal paths of the input from s to other vertices, and every score is the sum of shares over all ordered pairs; a run that does not settle within maxRounds Bellman-Ford dequeues leaves every score 0, and the contract allows that for any maxRounds, so the promises of a finished run hold only for runs that settle |
| Betweenness.BetweennessCentrality.Run | laboratorio_algoritmi/src/progetto/BetweennessCentrality.java:63-112 | Bellman-Ford from q; a negative cycle leaves the scores at 0 and is a cycle of the input; otherwise the pipeline finishes. No 0-weight cycle is asked for when the input has a negative one, since that is reported first |
| Betweenness.BetweennessCentrality.Finish | laboratorio_algoritmi/src/progetto/BetweennessCentrality.java:69-112 | clear q's edges, reweight, run Dijkstra from every vertex, collect the paths and sum the shares |
| Betweenness.BetweennessCentrality.ListAll | laboratorio_algoritmi/src/progetto/BetweennessCentrality.java:73-90 | after clearing q's edges, reweighting and the Dijkstra runs, shortestPaths[s] holds exactly the minimal paths of the input from s to other vertices, and q lists none |
| Betweenness.BetweennessCentrality.CopyEdges | laboratorio_algoritmi/src/progetto/BetweennessCentrality.java:46-48 | the working graph is the input plus an edgeless vertex q, every list in its original order |
| Betweenness.BetweennessCentrality.InitTables | laboratorio_algoritmi/src/progetto/BetweennessCentrality.java:53-55 | an empty table for every vertex, and nothing else |
| Betweenness.BetweennessCentrality.AddSourceEdges | laboratorio_algoritmi/src/progetto/BetweennessCentrality.java:57-62 | q gets a 0-weight edge to every other vertex |
| Betweenness.BetweennessCentrality.Reweight | laboratorio_algoritmi/src/progetto/BetweennessCentrality.java:77-78 | every edge becomes w + h(from) - h(to), with h the Bellman-Ford distances from q |
| Betweenness.BetweennessCentrality.ReweightVertex | laboratorio_algoritmi/src/progetto/BetweennessCentrality.java:77-78 | list v is reweighted and the other lists stay |
| Betweenness.BetweennessCentrality.ReweightList | laboratorio_algoritmi/src/progetto/BetweennessCentrality.java:77-78 | the edges of v, in order, each reweighted |
| Betweenness.BetweennessCentrality.CollectPaths | laboratorio_algoritmi/src/progetto/BetweennessCentrality.java:89-90 | shortestPaths[s] is the list of the run from s, for every vertex s |
| Betweenness.BetweennessCentrality.Tally | laboratorio_algoritmi/src/progetto/BetweennessCentrality.java:138-148 | v's counter for (s, t) is created at 1 or incremented; every other counter and every other table is unchanged |
| Betweenness.BetweennessCentrality.SigmaST | laboratorio_algoritmi/src/progetto/BetweennessCentrality.java:125-152 | returns sigma(s, t); containedVertices becomes the inner vertices of the s-t paths; each counter of (s, t) grows by sigma(s, t, v); the other tables are unchanged |
| Betweenness.BetweennessCentrality.ScanPath | laboratorio_algoritmi/src/progetto/BetweennessCentrality.java:132-150 | one path: when it ends at t it is counted and its inner vertices tallied, otherwise nothing changes |
| Betweenness.BetweennessCentrality.ScanInterior | laboratorio_algoritmi/src/progetto/BetweennessCentrality.java:135-149 | the inner vertices join containedVertices, and each counter grows by its occurrences inside the path |
| Betweenness.BetweennessCentrality.ScanLoop | laboratorio_algoritmi/src/progetto/BetweennessCentrality.java:135-149 | the loop over positions 1 .. size-2 tallies exactly the inner vertices |
| Betweenness.BetweennessCentrality.Visit | laboratorio_algoritmi/src/progetto/BetweennessCentrality.java:136-148 | path[i] joins containedVertices and its counter goes up by one |
| Betweenness.BetweennessCentrality.Bump | laboratorio_algoritmi/src/progetto/BetweennessCentrality.java:138-148 | the counters of (s, t) go from the tally of q to that of q + [v] |
| Betweenness.BetweennessCentrality.SigmaSTV | laboratorio_algoritmi/src/progetto/BetweennessCentrality.java:165-167 | the counter's value, or None where the source dereferences a missing table or counter |
| Betweenness.BetweennessCentrality.AddShares | laboratorio_algoritmi/src/progetto/BetweennessCentrality.java:101-106 | each inner vertex of the s-t paths gains sigma(s, t, v) / sigma(s, t); every other score is unchanged |
| Betweenness.BetweennessCentrality.ScoreTarget | laboratorio_algoritmi/src/progetto/BetweennessCentrality.java:94-107 | for t != s with sigma(s, t) != 0 every vertex gains its share of (s, t); the other tables are unchanged |
| Betweenness.BetweennessCentrality.ScoreSource | laboratorio_algoritmi/src/progetto/BetweennessCentrality.java:93-110 | every vertex gains its shares from all pairs (s, t), and s's tally table is cleared again |
| Betweenness.BetweennessCentrality.ScoreAll | laboratorio_algoritmi/src/progetto/BetweennessCentrality.java:93-110 | every score ends as the sum of shares over all ordered pairs, and the tally tables end empty |
| Betweenness.BetweennessCentrality.GetScores | laboratorio_algoritmi/src/progetto/BetweennessCentrality.java:169-171 | the scores array, of length V + 1; after a finished run each lies in [0, n * n] and is positive exactly for vertices inside a listed path; otherwise all are 0 |
| Betweenness.BetweennessCentrality.ScoredBounds | laboratorio_algoritmi/src/progetto/BetweennessCentrality.java:93-110 | the scores of a finished run lie in [0, n * n] and are positive exactly for inner vertices |
| Betweenness.JohnsonPotentials | laboratorio_algoritmi/src/progetto/BetweennessCentrality.java:63-78 | the distances from q are finite potentials; no cycle of the input is negative, so (by the caller's premise) none weighs 0; the reweighted graph has no negative edge and no cycle of weight 0; every cycle of the input weighs more than 0 |
| Betweenness.ReweightedMinimal | laboratorio_algoritmi/src/progetto/BetweennessCentrality.java:77-90 | the minimal paths of the reweighted graph are exactly the minimal paths of the input |
| Betweenness.ExtendedMinimal | laboratorio_algoritmi/src/progetto/BetweennessCentrality.java:46-48 | the graph with the edgeless q has exactly the input's minimal paths from each vertex of the input, and they avoid q |
| Betweenness.AuxiliaryIsolated | laboratorio_algoritmi/src/progetto/BetweennessCentrality.java:73 | after the clear q has no edges, so every minimal path from q ends at q and its run lists no path |
| Betweenness.RunListed | laboratorio_algoritmi/src/progetto/DijkstraSP.java:121-125 | the list `getAllShortestPaths()` of a finished run holds exactly the minimal paths from its source to other vertices |
| Betweenness.ListsMinimal | laboratorio_algoritmi/src/progetto/DijkstraSP.java:55-60 | the list of a finished run holds exactly the minimal paths from its source to other vertices |
| Betweenness.MinimalIsShortest | laboratorio_algoritmi/src/progetto/DijkstraSP.java:50-54 | against the run's shortest distances, a path is minimal exactly when its walk weighs its end's distance |
| Betweenness.ListedInput | laboratorio_algoritmi/src/progetto/BetweennessCentrality.java:89-90 | the paths collected from the reweighted working graph are exactly the minimal paths of the input to other vertices, q lists none, and every path names only vertices below V + 1 |
| Betweenness.ThroughBelow | laboratorio_algoritmi/src/progetto/BetweennessCentrality.java:102-106 | every vertex of containedVertices indexes scores |
| Betweenness.DiamondWalk | laboratorio_algoritmi/src/progetto/BetweennessCentrality.java:45-90 | every walk from 0 in the diamond with unit weights visits [0] or one of its four paths, and all walks to the same end have the same length |
| Betweenness.DiamondMinimal | laboratorio_algoritmi/src/progetto/BetweennessCentrality.java:45-90 | every walk from 0 in the diamond spells a minimal path |
| Betweenness.DiamondShortMinimal | laboratorio_algoritmi/src/progetto/BetweennessCentrality.java:45-90 | the one-edge diamond paths [0, 1] and [0, 2] are minimal paths from 0 |
| Betweenness.DiamondLongMinimal | laboratorio_algoritmi/src/progetto/BetweennessCentrality.java:45-90 | the two-edge diamond paths [0, 1, 3] and [0, 2, 3] are minimal paths from 0 |
| Betweenness.DiamondListed | laboratorio_algoritmi/src/progetto/BetweennessCentrality.java:45-90 | the list a finished run keeps for source 0 of the diamond holds exactly the four paths that DiamondCounts counts |

## Left out

- The NaN check of `DirectedEdge` (DirectedEdge.java:13-14) is not modelled, because weights are integers.
- Floating-point arithmetic is not modelled. Scores are exact reals, so the `(float)` cast of
  the share (BetweennessCentrality.java:106) is not modelled. The tie test of Dijkstra's `relax`
  is an exact integer equality.
- Timing (`Stopwatch`), `main`, and every printed message (including the printed negative cycle
  and the diagnostics inside both `check` methods) are not modelled. Neither are the
  `EdgeWeightedDigraph(In)` and random `EdgeWeightedDigraph(V, E)` constructors or the
  `toString`/`toStringGraphviz`/`toFile` family, since they are I/O or randomness.
- Aliasing of edge objects is not modelled. Graphs hold edge values, so the working graph of
  `BetweennessCentrality` holds copies of the input's edges. Reweighting rewrites the working
  graph's lists and leaves the caller's graph unchanged; in the source it also changes the
  caller's edge objects. The copy constructor's sharing of edge objects is likewise invisible.
- `getAdg()` is modelled only by its one use, `Digraphs.EdgeWeightedDigraph.ClearAdj`.
- BellmanFord.BellmanFordSP.constructor: the queue loop also stops after `maxRounds` dequeues,
  because its termination rests on shortest-path theory not modelled here. A run stopped that
  way leaves the queue non-empty. `DistTo` and `PathTo` then fail with `NotConverged`, and
  `BetweennessCentrality` ends in phase `Unsettled` with every score 0.
- BellmanFord.BellmanFordSP.Examine: the cadence of the cycle search (on the first relaxation
  and then every `V` edges) is in the body but not in the contract, which only says that a
  found cycle is negative.
- DirectedCycles.EdgeWeightedDirectedCycle.Cycle: the contract does not say which cycle is
  reported. For instance, it does not say that a reachable self-loop comes back as a one-edge
  cycle. It does say that a cycle is reported exactly when one exists.
- Dijkstra.DijkstraSP.constructor requires no closed walk of weight 0. This is a hazard of the
  source, stated as a precondition: a 0-weight walk back to the source appends to the null
  `prevEdges[s]`, and a 0-weight cycle makes `getShortestPaths` recurse without end.
  `DijkstraSP.Create` and `DijkstraAllPairsSP.Create` ask for it only when every weight is
  non-negative, since a negative edge makes the source throw first. `BetweennessCentrality` asks
  for it only when the input has no negative cycle, since a negative cycle is reported first.
- Betweenness.BetweennessCentrality.constructor: the round bound `maxRounds` is not in the
  source. The contract allows the phase `Unsettled` for every `maxRounds`, and no lemma says how
  large it must be for the run to settle. So every promise about a finished run holds only for
  runs that settle within the bound.
- The order among equal keys in `IndexMinPQ` is not modelled. `DelMin` takes some least-distance
  vertex, so the order of entries in a predecessor list, and hence the order of the listed
  paths, is not pinned down. The set of listed paths does not depend on it: it is the set of
  minimal paths.
- Dijkstra.DijkstraSP.GetAllShortestPaths: the contract says which paths are listed, not how
  often. A predecessor is appended once per tight edge, so parallel tight edges list a path more
  than once. The scores are stated over the list with these repetitions, as the source sums them.
- Centrality.DiamondCounts: the counts are for the four diamond paths, each listed once.
  `DiamondListed` proves that a run lists exactly these paths, but not that it lists each only
  once (true here, as the diamond has no parallel edges), so the counts are not proved for the
  run's own list.
- Centrality.DiamondShares: the same gap as DiamondCounts.
- The iteration order of the `containedVertices` `HashSet` is not modelled. `AddShares` takes
  the vertices in an arbitrary order; with exact reals the sum does not depend on it.
- Betweenness.MyInteger.Inc: the counters of `sigmaSTV` and of `sigmaST` are unbounded
  integers. The model leaves out 32-bit wrap-around, which needs more than 2^31 paths.
- Path enumeration can take exponential time and space. This is a cost of the source and
  nothing here bounds it.

## Findings

| source | as written | input that shows it | evidently intended | confidence | as-written member | corrected member |
|---|---|---|---|---|---|---|
| laboratorio_algoritmi/src/progetto/EdgeWeightedDigraph.java:62-71 | The copy constructor pushes each list onto a LIFO `Stack` and appends the stack's items to the append-order `Bag`, so each adjacency list comes out reversed | vertex 0 with edges 0->1 then 0->2: the copy lists 0->2 then 0->1 | each list in its original order, as the comment at line 63 says | not executed; depends on the unseen `Stack` iterating last-in first-out | Digraphs.EdgeWeightedDigraph.CopyOf, with Digraphs.CopyReversesTwoEdges and Digraphs.ReversedChangesOrder | Digraphs.EdgeWeightedDigraph.CopyInOrder |
