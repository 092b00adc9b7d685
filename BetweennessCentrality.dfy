/**
 * Betweenness centrality with Johnson's scheme: an auxiliary source q joined to every vertex by a
 * 0-weight edge, Bellman-Ford from q for the potentials, every edge reweighted to
 * w + h(from) - h(to), one tie-keeping Dijkstra run per vertex, and then, for every ordered pair
 * s != t, a share sigma(s, t, v) / sigma(s, t) for every vertex v strictly inside a listed s-t path.
 */
module Betweenness {
  import opened Common
  import opened DirectedEdges
  import opened Walks
  import opened Digraphs
  import opened BellmanFord
  import opened PredecessorPaths
  import opened Dijkstra
  import opened AllPairs
  import opened Centrality
  import opened Johnson

  /** A counter that starts at 1, one per (s, t, v) seen by sigmaST. */
  class MyInteger {
    var value: int

    constructor ()
      ensures value == 1
    {
      value := 1;
    }

    method Inc()
      modifies this
      ensures value == old(value) + 1
    {
      value := value + 1;
    }
  }

  /** How the constructor ended. Unsettled is the Bellman-Ford run stopped by its round bound. */
  datatype Phase = Scored | NegativeCycleFound | Unsettled

  /** The tally table holds an empty table for each source below n and nothing else. */
  ghost predicate Cleared(T: map<int, map<int, map<int, MyInteger>>>, n: int)
  {
    (forall s :: s in T <==> 0 <= s < n) && forall s :: s in T ==> T[s] == map[]
  }

  /**
   * From before to after at most the table of (s, t) was added or changed: every other source's
   * tables and every other table of s are the same.
   */
  ghost predicate OnlyPair(before: map<int, map<int, map<int, MyInteger>>>, after: map<int, map<int, map<int, MyInteger>>>,
                           s: int, t: int)
  {
    s in before && s in after && after.Keys == before.Keys &&
    (forall x :: x in after && x != s ==> after[x] == before[x]) &&
    after[s].Keys <= before[s].Keys + {t} &&
    (forall y :: y in after[s] && y != t ==> y in before[s] && after[s][y] == before[s][y])
  }

  lemma OnlyPairTrans(A: map<int, map<int, map<int, MyInteger>>>, B: map<int, map<int, map<int, MyInteger>>>,
                      C: map<int, map<int, map<int, MyInteger>>>, s: int, t: int)
    requires OnlyPair(A, B, s, t) && OnlyPair(B, C, s, t)
    ensures OnlyPair(A, C, s, t)
  {
  }

  /** A counter's value in a snapshot of a table, 0 when it has none. */
  function Base(C: map<int, int>, v: int): int
  {
    if v in C then C[v] else 0
  }

  /** Every listed path names only vertices below n. */
  ghost predicate AllBelow(P: seq<seq<int>>, n: int)
  {
    forall i :: 0 <= i < |P| ==> Below(P[i], n)
  }

  /**
   * The paths listed for source s in g: each starts at s, repeats no vertex, ends at another
   * vertex and is a minimal path of g; and every minimal path of g from s to another vertex is
   * listed.
   */
  ghost predicate ShortestFrom(g: Digraph, s: int, P: seq<seq<int>>)
  {
    SimpleFrom(P, s) && AllBelow(P, g.V) &&
    (forall i :: 0 <= i < |P| ==> Last(P[i]) != s && IsMinimalPath(g, s, P[i])) &&
    (forall p :: IsMinimalPath(g, s, p) && Last(p) != s ==> p in P)
  }

  /**
   * The table of paths over g extended by the auxiliary vertex q = g.V: the paths from each
   * vertex of g are exactly the minimal paths of g to other vertices, and q has none.
   */
  ghost predicate Listed(T: map<int, seq<seq<int>>>, g: Digraph)
  {
    g.V in T && T[g.V] == [] && forall s :: 0 <= s < g.V ==> s in T && ShortestFrom(g, s, T[s])
  }

  class BetweennessCentrality {
    /** sigmaSTV[s][t][v]: how often v was seen strictly inside a path from s to t. */
    var sigmaSTV: map<int, map<int, map<int, MyInteger>>>
    /** The working graph: the input's vertices and edges and the auxiliary vertex q. */
    const G: EdgeWeightedDigraph
    const scores: array<real>
    /** shortestPaths[s]: the paths the Dijkstra run from s lists. */
    var shortestPaths: map<int, seq<seq<int>>>
    /** The inner vertices found by the last sigmaST. */
    var containedVertices: set<int>
    ghost const input: Digraph
    ghost var phase: Phase

    /**
     * What the constructor leaves: the scores of a finished run are the sums of shares over the
     * listed minimal paths; a run that found a negative cycle, or did not settle, scores nothing.
     */
    ghost predicate Valid()
      reads this, scores
    {
      WellFormed(input) && G.V == input.V + 1 && scores.Length == G.V && Cleared(sigmaSTV, G.V) &&
      (phase == NegativeCycleFound ==> exists c :: IsClosedWalk(input, c) && Weight(c) < 0) &&
      (phase == Scored ==>
        (forall c :: IsClosedWalk(input, c) ==> Weight(c) > 0) &&
        Listed(shortestPaths, input) && Tabled(shortestPaths, G.V) &&
        forall v :: 0 <= v < G.V ==> scores[v] == Score(shortestPaths, G.V, G.V, v)) &&
      (phase != Scored ==> forall v :: 0 <= v < G.V ==> scores[v] == 0.0)
    }

    /**
     * The constructor. The working graph gets the input's vertices and edges and the auxiliary
     * vertex q with a 0-weight edge to every other vertex; Bellman-Ford runs from q. Without a
     * negative cycle, q's edges are dropped, every edge is reweighted by the distances from q,
     * Dijkstra runs from every vertex and the scores are summed. maxRounds bounds the Bellman-Ford
     * run.
     */
    constructor (InputGraph: EdgeWeightedDigraph, maxRounds: nat)
      requires InputGraph.Valid() && (NoNegativeCycle(InputGraph.Graph()) ==> NoZeroCycle(InputGraph.Graph()))
      ensures input == InputGraph.Graph() && Valid()
    {
      var n := InputGraph.V;
      G := new EdgeWeightedDigraph(n + 1);
      scores := new real[n + 1](_ => 0.0);
      shortestPaths := map[];
      containedVertices := {};
      input := InputGraph.Graph();
      sigmaSTV := map[];
      phase := Unsettled;
      new;
      CopyEdges(InputGraph);
      InitTables();
      AddSourceEdges(G.V - 1);
      Run(maxRounds);
    }

    /** Bellman-Ford from q; without a negative cycle and once settled, the rest of the pipeline. */
    method Run(maxRounds: nat)
      requires WellFormed(input) && (NoNegativeCycle(input) ==> NoZeroCycle(input))
      requires G.V == input.V + 1 && scores.Length == G.V
      requires G.Valid() && G.Graph() == WithSource(input) && Cleared(sigmaSTV, G.V)
      requires phase == Unsettled && forall v :: 0 <= v < G.V ==> scores[v] == 0.0
      modifies this, G.adj, scores
      ensures Valid()
    {
      var q := G.V - 1;
      var bfsp := new BellmanFordSP(G, q, maxRounds);
      if bfsp.HasNegativeCycle() {
        phase := NegativeCycleFound;
        ghost var c := bfsp.NegativeCycle().value;
        ClosedWalkAvoidsSource(input, c);
      } else if bfsp.queue != [] {
        phase := Unsettled;
      } else {
        Finish(bfsp);
      }
    }

    /** Reweighting by the distances from q, the all-pairs Dijkstra runs and the scores. */
    method Finish(bfsp: BellmanFordSP)
      requires WellFormed(input) && (NoNegativeCycle(input) ==> NoZeroCycle(input))
      requires G.V == input.V + 1 && scores.Length == G.V
      requires G.Valid() && G.Graph() == WithSource(input) && Cleared(sigmaSTV, G.V)
      requires forall v :: 0 <= v < G.V ==> scores[v] == 0.0
      requires bfsp.Valid() && bfsp.graph == G.Graph() && bfsp.source == G.V - 1
      requires bfsp.cycle.None? && bfsp.queue == [] && bfsp.Check()
      modifies this, G.adj, scores
      ensures Valid()
    {
      ghost var h := JohnsonPotentials(input, bfsp.distTo[..]);
      ListAll(bfsp, h);
      ScoreAll();
      phase := Scored;
    }

    /**
     * The part of the constructor between Bellman-Ford and the scores: q's edges are dropped,
     * every edge is reweighted, Dijkstra runs from every vertex and its paths are stored.
     */
    method ListAll(bfsp: BellmanFordSP, ghost h: seq<int>)
      requires WellFormed(input) && G.V == input.V + 1
      requires G.Valid() && G.Graph() == WithSource(input)
      requires bfsp.Valid() && bfsp.graph == G.Graph() && bfsp.cycle.None? && bfsp.queue == []
      requires |h| == G.V && forall v :: 0 <= v < G.V ==> bfsp.distTo[v] == Fin(h[v])
      requires Admissible(ReducedGraph(Extended(input), h))
      modifies G.adj, this`shortestPaths
      ensures Listed(shortestPaths, input) && Tabled(shortestPaths, G.V)
      ensures forall s :: 0 <= s < G.V ==> AllBelow(shortestPaths[s], G.V)
    {
      G.ClearAdj(G.V - 1);
      ClearedSource(input);
      Reweight(bfsp, h);
      var dsp := new DijkstraAllPairsSP(G);
      CollectPaths(dsp);
      ListedInput(input, h, shortestPaths);
    }

    /** The loop over the input's edges: each goes into the working graph with addEdge. */
    method CopyEdges(InputGraph: EdgeWeightedDigraph)
      requires InputGraph.Valid() && G.Valid() && G.V == InputGraph.V + 1
      requires G != InputGraph && G.adj != InputGraph.adj
      requires forall v :: 0 <= v < G.V ==> G.adj[v] == []
      modifies G, G.adj, G.indegree
      ensures G.Valid() && G.Graph() == Extended(InputGraph.Graph())
    {
      ghost var g := InputGraph.Graph();
      var edges := InputGraph.Edges();
      for i := 0 to |edges|
        invariant G.Valid() && InputGraph.Graph() == g
        invariant forall v :: 0 <= v < G.V ==> G.adj[v] == FromFilter(edges[..i], v)
      {
        var e := edges[i];
        assert HasEdge(g, e);
        var o := G.AddEdge(e);
        assert edges[..i + 1] == edges[..i] + [e];
      }
      assert edges[..|edges|] == edges && g.adj[..g.V] == g.adj;
      forall v | 0 <= v < G.V ensures G.adj[v] == Extended(g).adj[v] {
        FromFilterFlatten(g, g.V, v);
      }
      assert G.adj[..] == Extended(g).adj;
    }

    /** sigmaSTV gets an empty table for every vertex. */
    method InitTables()
      modifies this`sigmaSTV
      ensures Cleared(sigmaSTV, G.V)
    {
      sigmaSTV := map[];
      for i := 0 to G.V
        invariant Cleared(sigmaSTV, i)
      {
        sigmaSTV := sigmaSTV[i := map[]];
      }
    }

    /** The 0-weight edges q -> i for every vertex i other than q. */
    method AddSourceEdges(q: int)
      requires G.Valid() && WellFormed(input) && q == input.V && G.Graph() == Extended(input)
      modifies G, G.adj, G.indegree
      ensures G.Valid() && G.Graph() == WithSource(input)
    {
      for i := 0 to q
        invariant G.Valid()
        invariant forall v :: 0 <= v < q ==> G.adj[v] == input.adj[v]
        invariant G.adj[q] == SourceEdges(q)[..i]
      {
        var o := G.AddEdge(Edge(q, i, 0));
        assert SourceEdges(q)[..i + 1] == SourceEdges(q)[..i] + [Edge(q, i, 0)];
      }
      assert SourceEdges(q)[..q] == SourceEdges(q);
      assert G.adj[..] == WithSource(input).adj;
    }

    /** Every edge's weight becomes w + h(from) - h(to), with h the distances from q. */
    method Reweight(bfsp: BellmanFordSP, ghost h: seq<int>)
      requires G.Valid() && bfsp.Valid() && bfsp.cycle.None? && bfsp.queue == [] && bfsp.graph.V == G.V
      requires |h| == G.V && forall v :: 0 <= v < G.V ==> bfsp.distTo[v] == Fin(h[v])
      modifies G.adj
      ensures G.Valid() && G.Graph() == ReducedGraph(old(G.Graph()), h)
    {
      ghost var g := G.Graph();
      ghost var R := ReducedGraph(g, h).adj;
      for v := 0 to G.V
        invariant forall u :: 0 <= u < v ==> G.adj[u] == R[u]
        invariant forall u :: v <= u < G.V ==> G.adj[u] == g.adj[u]
      {
        ReweightVertex(bfsp, h, g, v);
      }
      assert G.adj[..] == R;
      ReducedWellFormed(g, h);
    }

    /** The adjacency list of v is replaced by its reweighted copy; the other lists stay. */
    method ReweightVertex(bfsp: BellmanFordSP, ghost h: seq<int>, ghost g: Digraph, v: int)
      requires bfsp.Valid() && bfsp.cycle.None? && bfsp.queue == [] && bfsp.graph.V == G.V
      requires WellFormed(g) && g.V == G.V && G.adj.Length == G.V && 0 <= v < G.V && G.adj[v] == g.adj[v]
      requires |h| == G.V && forall u :: 0 <= u < G.V ==> bfsp.distTo[u] == Fin(h[u])
      modifies G.adj
      ensures G.adj[v] == ReducedGraph(g, h).adj[v]
      ensures forall u :: 0 <= u < G.adj.Length && u != v ==> G.adj[u] == old(G.adj[u])
    {
      var row := ReweightList(bfsp, h, g, v);
      G.adj[v] := row;
    }

    /** The edges of v, each with its weight w + h(from) - h(to). */
    method ReweightList(bfsp: BellmanFordSP, ghost h: seq<int>, ghost g: Digraph, v: int) returns (row: seq<Edge>)
      requires bfsp.Valid() && bfsp.cycle.None? && bfsp.queue == [] && bfsp.graph.V == G.V
      requires WellFormed(g) && g.V == G.V && G.adj.Length == G.V && 0 <= v < G.V && G.adj[v] == g.adj[v]
      requires |h| == G.V && forall u :: 0 <= u < G.V ==> bfsp.distTo[u] == Fin(h[u])
      ensures row == ReducedGraph(g, h).adj[v]
    {
      ghost var r := ReducedGraph(g, h);
      row := G.adj[v];
      for i := 0 to |row|
        invariant |row| == |g.adj[v]|
        invariant forall j :: 0 <= j < i ==> row[j] == r.adj[v][j]
        invariant forall j :: i <= j < |row| ==> row[j] == g.adj[v][j]
      {
        var e := row[i];
        ReducedEdge(g, h, v, i);
        var dv := bfsp.DistTo(e.from);
        var dw := bfsp.DistTo(e.to);
        row := row[i := Edge(e.from, e.to, e.weight + dv.value.d - dw.value.d)];
      }
    }

    /** The loop over getAll(): shortestPaths[s] is the list of paths of the run from s. */
    method CollectPaths(dsp: DijkstraAllPairsSP)
      requires dsp.Valid() && dsp.graph.V == G.V
      modifies this`shortestPaths
      ensures CollectedUpTo(shortestPaths, dsp.graph, G.V)
    {
      var all := dsp.GetAll();
      for i := 0 to all.Length
        invariant forall v :: 0 <= v < all.Length ==>
          all[v] != null && all[v].sourceNode == v && all[v].graph == dsp.graph && all[v].Valid()
        invariant CollectedUpTo(shortestPaths, dsp.graph, i)
      {
        var run := all[i];
        var paths := run.GetAllShortestPaths();
        RunListed(run);
        CollectedStep(shortestPaths, dsp.graph, i, paths);
        shortestPaths := shortestPaths[run.sourceNode := paths];
      }
    }

    // -------------------------------------------------------------------------
    // The tally table

    /** sigmaSTV.get(s).get(t), with an absent table read as empty. */
    function Table(s: int, t: int): map<int, MyInteger>
      reads this`sigmaSTV
    {
      if s in sigmaSTV && t in sigmaSTV[s] then sigmaSTV[s][t] else map[]
    }

    /** The counters of one table are distinct objects. */
    ghost predicate Separate(s: int, t: int)
      reads this`sigmaSTV
    {
      forall a, b :: a in Table(s, t) && b in Table(s, t) && a != b ==> Table(s, t)[a] != Table(s, t)[b]
    }

    /** The value of the counter for (s, t, v), 0 when there is none. */
    function Count(s: int, t: int, v: int): int
      reads this`sigmaSTV, Table(s, t).Values
    {
      if v in Table(s, t) then Table(s, t)[v].value else 0
    }

    /** The counters of (s, t) hold their values in C0 plus the occurrences of each vertex in q. */
    ghost predicate Tallied(s: int, t: int, C0: map<int, int>, q: seq<int>)
      reads this`sigmaSTV, Table(s, t).Values
    {
      forall v :: Count(s, t, v) == Base(C0, v) + multiset(q)[v]
    }

    /** One step of the inner loop of sigmaST: create the counter for v at 1 or increment it. */
    method Tally(s: int, t: int, v: int)
      requires s in sigmaSTV && Separate(s, t)
      modifies this`sigmaSTV, Table(s, t).Values
      ensures OnlyPair(old(sigmaSTV), sigmaSTV, s, t)
      ensures Table(s, t).Keys == old(Table(s, t).Keys) + {v}
      ensures forall u :: Count(s, t, u) == old(Count(s, t, u)) + (if u == v then 1 else 0)
      ensures Separate(s, t)
      ensures forall o :: o in Table(s, t).Values ==> o in old(Table(s, t).Values) || fresh(o)
    {
      var row := sigmaSTV[s];
      if t !in row {
        var c := new MyInteger();
        sigmaSTV := sigmaSTV[s := row[t := map[v := c]]];
      } else {
        var st := row[t];
        if v !in st {
          var c := new MyInteger();
          sigmaSTV := sigmaSTV[s := row[t := st[v := c]]];
        } else {
          st[v].Inc();
          assert row[t := st] == row && sigmaSTV[s := row] == sigmaSTV;
        }
      }
    }

    /**
     * sigmaST(s, t): the number of listed paths from s that end at t. It leaves containedVertices
     * equal to their inner vertices and adds to the counter of each inner vertex how often it
     * occurs inside them.
     */
    method SigmaST(s: int, t: int) returns (counter: int)
      requires s in shortestPaths && NonEmpty(shortestPaths[s]) && s in sigmaSTV && Separate(s, t)
      modifies this`containedVertices, this`sigmaSTV, Table(s, t).Values
      ensures counter == Sigma(shortestPaths[s], t)
      ensures containedVertices == Through(shortestPaths[s], t)
      ensures forall v :: Count(s, t, v) == old(Count(s, t, v)) + SigmaV(shortestPaths[s], t, v)
      ensures OnlyPair(old(sigmaSTV), sigmaSTV, s, t) && Separate(s, t)
    {
      containedVertices := {};
      counter := 0;
      var paths := shortestPaths[s];
      ghost var C0 := map u | u in Table(s, t) :: Table(s, t)[u].value;
      ghost var S0 := sigmaSTV;
      for k := 0 to |paths|
        invariant counter == Sigma(paths[..k], t)
        invariant containedVertices == Through(paths[..k], t)
        invariant forall v :: Count(s, t, v) == Base(C0, v) + SigmaV(paths[..k], t, v)
        invariant OnlyPair(S0, sigmaSTV, s, t) && Separate(s, t)
        invariant forall o :: o in Table(s, t).Values ==> o in old(Table(s, t).Values) || fresh(o)
      {
        counter := ScanPath(s, t, paths, k, counter, S0, C0);
      }
      assert paths[..|paths|] == paths;
    }

    /** One pass of the outer loop of sigmaST: a path that ends at t is counted and scanned. */
    method ScanPath(s: int, t: int, paths: seq<seq<int>>, k: int, counter: int,
                    ghost S0: map<int, map<int, map<int, MyInteger>>>, ghost C0: map<int, int>) returns (next: int)
      requires 0 <= k < |paths| && NonEmpty(paths) && s in sigmaSTV && Separate(s, t)
      requires counter == Sigma(paths[..k], t) && containedVertices == Through(paths[..k], t)
      requires forall v :: Count(s, t, v) == Base(C0, v) + SigmaV(paths[..k], t, v)
      requires OnlyPair(S0, sigmaSTV, s, t)
      modifies this`containedVertices, this`sigmaSTV, Table(s, t).Values
      ensures next == Sigma(paths[..k + 1], t) && containedVertices == Through(paths[..k + 1], t)
      ensures forall v :: Count(s, t, v) == Base(C0, v) + SigmaV(paths[..k + 1], t, v)
      ensures OnlyPair(S0, sigmaSTV, s, t) && Separate(s, t)
      ensures forall o :: o in Table(s, t).Values ==> o in old(Table(s, t).Values) || fresh(o)
    {
      next := counter;
      var path := paths[k];
      ghost var done := paths[..k];
      ghost var Q := paths[..k + 1];
      assert Q[..|Q| - 1] == done && Q[|Q| - 1] == path && Q == done + [path];
      if path[|path| - 1] == t {
        next := next + 1;
        label before:
        ScanInterior(s, t, path, done);
        forall v ensures Count(s, t, v) == Base(C0, v) + SigmaV(Q, t, v) {
          assert Count(s, t, v) == old@before(Count(s, t, v)) + multiset(Interior(path))[v];
          assert SigmaV(Q, t, v) == SigmaV(done, t, v) + multiset(Interior(path))[v];
        }
      } else {
        assert Sigma(Q, t) == Sigma(done, t) && Through(Q, t) == Through(done, t);
        forall v ensures SigmaV(Q, t, v) == SigmaV(done, t, v) { }
      }
    }

    /** The inner loop of sigmaST over one path that ends at t. */
    method ScanInterior(s: int, t: int, path: seq<int>, ghost done: seq<seq<int>>)
      requires |path| >= 1 && path[|path| - 1] == t && NonEmpty(done)
      requires s in sigmaSTV && Separate(s, t) && containedVertices == Through(done, t)
      modifies this`containedVertices, this`sigmaSTV, Table(s, t).Values
      ensures containedVertices == Through(done + [path], t)
      ensures forall v :: Count(s, t, v) == old(Count(s, t, v)) + multiset(Interior(path))[v]
      ensures OnlyPair(old(sigmaSTV), sigmaSTV, s, t) && Separate(s, t)
      ensures forall o :: o in Table(s, t).Values ==> o in old(Table(s, t).Values) || fresh(o)
    {
      ghost var C0 := map u | u in Table(s, t) :: Table(s, t)[u].value;
      ghost var S0 := sigmaSTV;
      assert path[1..1] == [];
      ScanLoop(s, t, path, done, S0, C0);
      forall v ensures Count(s, t, v) == old(Count(s, t, v)) + multiset(Interior(path))[v] {
        assert old(Count(s, t, v)) == Base(C0, v);
      }
      var P := done + [path];
      assert P[..|P| - 1] == done && Last(P[|P| - 1]) == t;
    }

    /** The loop of sigmaST over positions 1 .. |path| - 2 of one path. */
    method ScanLoop(s: int, t: int, path: seq<int>, ghost done: seq<seq<int>>,
                    ghost S0: map<int, map<int, map<int, MyInteger>>>, ghost C0: map<int, int>)
      requires |path| >= 1 && NonEmpty(done)
      requires containedVertices == Through(done, t) + Members(path[1..1]) && Tallied(s, t, C0, path[1..1])
      requires OnlyPair(S0, sigmaSTV, s, t) && Separate(s, t)
      modifies this`containedVertices, this`sigmaSTV, Table(s, t).Values
      ensures containedVertices == Through(done, t) + Members(Interior(path))
      ensures Tallied(s, t, C0, Interior(path))
      ensures OnlyPair(S0, sigmaSTV, s, t) && Separate(s, t)
      ensures forall o :: o in Table(s, t).Values ==> o in old(Table(s, t).Values) || fresh(o)
    {
      var i := 1;
      while i < |path| - 1
        invariant 1 <= i <= |path| && (|path| >= 2 ==> i <= |path| - 1)
        invariant containedVertices == Through(done, t) + Members(path[1..i])
        invariant Tallied(s, t, C0, path[1..i])
        invariant OnlyPair(S0, sigmaSTV, s, t) && Separate(s, t)
        invariant forall o :: o in Table(s, t).Values ==> o in old(Table(s, t).Values) || fresh(o)
      {
        Visit(s, t, path, i, done, S0, C0);
        i := i + 1;
      }
      assert path[1..i] == Interior(path);
    }

    /** One pass of the inner loop: v = path[i] joins containedVertices and its counter goes up. */
    method Visit(s: int, t: int, path: seq<int>, i: int, ghost done: seq<seq<int>>,
                 ghost S0: map<int, map<int, map<int, MyInteger>>>, ghost C0: map<int, int>)
      requires 1 <= i < |path| - 1 && NonEmpty(done)
      requires containedVertices == Through(done, t) + Members(path[1..i])
      requires Tallied(s, t, C0, path[1..i])
      requires OnlyPair(S0, sigmaSTV, s, t) && Separate(s, t)
      modifies this`containedVertices, this`sigmaSTV, Table(s, t).Values
      ensures containedVertices == Through(done, t) + Members(path[1..i + 1])
      ensures Tallied(s, t, C0, path[1..i + 1])
      ensures OnlyPair(S0, sigmaSTV, s, t) && Separate(s, t)
      ensures forall o :: o in Table(s, t).Values ==> o in old(Table(s, t).Values) || fresh(o)
    {
      var v := path[i];
      ghost var q := path[1..i];
      assert path[1..i + 1] == q + [v];
      MembersSnoc(q, v);
      containedVertices := containedVertices + {v};
      Bump(s, t, v, q, S0, C0);
    }

    /** The counter step of one pass: the tally of (s, t) goes from q to q + [v]. */
    method Bump(s: int, t: int, v: int, ghost q: seq<int>,
                ghost S0: map<int, map<int, map<int, MyInteger>>>, ghost C0: map<int, int>)
      requires Tallied(s, t, C0, q) && OnlyPair(S0, sigmaSTV, s, t) && Separate(s, t)
      modifies this`sigmaSTV, Table(s, t).Values
      ensures Tallied(s, t, C0, q + [v])
      ensures OnlyPair(S0, sigmaSTV, s, t) && Separate(s, t)
      ensures forall o :: o in Table(s, t).Values ==> o in old(Table(s, t).Values) || fresh(o)
    {
      assert multiset(q + [v]) == multiset(q) + multiset{v};
      Tally(s, t, v);
      OnlyPairTrans(S0, old(sigmaSTV), sigmaSTV, s, t);
      forall u ensures Count(s, t, u) == Base(C0, u) + multiset(q + [v])[u] {
        assert old(Count(s, t, u)) == Base(C0, u) + multiset(q)[u];
      }
    }

    /** sigmaSTV(s, t, v): the counter's value; None where the source dereferences a missing table. */
    function SigmaSTV(s: int, t: int, v: int): (r: Option<int>)
      reads this, Table(s, t).Values
      ensures r.Some? <==> s in sigmaSTV && t in sigmaSTV[s] && v in sigmaSTV[s][t]
      ensures r.Some? ==> r.value == Count(s, t, v)
    {
      if s in sigmaSTV && t in sigmaSTV[s] && v in sigmaSTV[s][t] then Some(sigmaSTV[s][t][v].value) else None
    }

    // -------------------------------------------------------------------------
    // The score loop

    /**
     * The body of the loop over the inner vertices: each gains sigma(s, t, v) / sigma(s, t), and
     * every other score is unchanged.
     */
    method AddShares(s: int, t: int, sigma: int)
      requires s in shortestPaths && NonEmpty(shortestPaths[s]) && s != t
      requires sigma == Sigma(shortestPaths[s], t) && sigma != 0
      requires containedVertices == Through(shortestPaths[s], t)
      requires forall v :: v in containedVertices ==> 0 <= v < scores.Length
      requires forall v :: v in containedVertices ==> Count(s, t, v) == SigmaV(shortestPaths[s], t, v)
      modifies scores
      ensures forall v :: 0 <= v < scores.Length ==> scores[v] == old(scores[v]) + Gain(shortestPaths[s], s, t, v)
    {
      var rest := containedVertices;
      while rest != {}
        invariant rest <= containedVertices
        invariant forall v :: 0 <= v < scores.Length ==>
          scores[v] == old(scores[v]) + (if v in containedVertices && v !in rest then Gain(shortestPaths[s], s, t, v) else 0.0)
        decreases |rest|
      {
        if forall y :: y !in rest {
          assert false;
        }
        var v :| v in rest;
        SigmaVPositive(shortestPaths[s], t, v);
        var c := SigmaSTV(s, t, v);
        scores[v] := scores[v] + (c.value as real) / (sigma as real);
        rest := rest - {v};
      }
    }

    /**
     * One pass of the outer loop: every target t, then the tally table of s is cleared. Each
     * score grows by what its vertex gains from the pairs (s, t).
     */
    method ScoreSource(s: int)
      requires scores.Length == G.V && s in shortestPaths && NonEmpty(shortestPaths[s])
      requires AllBelow(shortestPaths[s], G.V)
      requires s in sigmaSTV && sigmaSTV[s] == map[]
      modifies this`containedVertices, this`sigmaSTV, scores
      ensures forall v :: 0 <= v < G.V ==> scores[v] == old(scores[v]) + RowGain(shortestPaths[s], s, G.V, v)
      ensures sigmaSTV == old(sigmaSTV)
    {
      var P := shortestPaths[s];
      for t := 0 to G.V
        invariant s in sigmaSTV && sigmaSTV.Keys == old(sigmaSTV.Keys)
        invariant forall x :: x in sigmaSTV && x != s ==> sigmaSTV[x] == old(sigmaSTV[x])
        invariant forall x :: x in sigmaSTV[s] ==> 0 <= x < t
        invariant forall v :: 0 <= v < G.V ==> scores[v] == old(scores[v]) + RowGain(P, s, t, v)
      {
        ScoreTarget(s, t);
      }
      ghost var before := sigmaSTV;
      sigmaSTV := sigmaSTV[s := map[]];
      assert sigmaSTV.Keys == old(sigmaSTV).Keys;
      forall x | x in sigmaSTV ensures sigmaSTV[x] == old(sigmaSTV)[x] {
        if x != s {
          assert sigmaSTV[x] == before[x];
        }
      }
    }

    /** One pass of the loop over targets: sigmaST(s, t) and, when positive, the shares of (s, t). */
    method ScoreTarget(s: int, t: int)
      requires scores.Length == G.V && s in shortestPaths && NonEmpty(shortestPaths[s])
      requires AllBelow(shortestPaths[s], G.V)
      requires 0 <= t && s in sigmaSTV && forall x :: x in sigmaSTV[s] ==> 0 <= x < t
      modifies this`containedVertices, this`sigmaSTV, scores
      ensures s in sigmaSTV && sigmaSTV.Keys == old(sigmaSTV.Keys)
      ensures forall x :: x in sigmaSTV && x != s ==> sigmaSTV[x] == old(sigmaSTV[x])
      ensures forall x :: x in sigmaSTV[s] ==> 0 <= x < t + 1
      ensures forall v :: 0 <= v < G.V ==> scores[v] == old(scores[v]) + Gain(shortestPaths[s], s, t, v)
    {
      if s != t {
        assert Table(s, t) == map[];
        var sigma := SigmaST(s, t);
        if sigma != 0 {
          ThroughBelow(shortestPaths[s], t, G.V);
          AddShares(s, t, sigma);
        }
      }
    }

    /** The double loop over all ordered pairs: each score ends as its sum of shares. */
    method ScoreAll()
      requires scores.Length == G.V && Tabled(shortestPaths, G.V)
      requires forall s :: 0 <= s < G.V ==> AllBelow(shortestPaths[s], G.V)
      requires Cleared(sigmaSTV, G.V)
      requires forall v :: 0 <= v < G.V ==> scores[v] == 0.0
      modifies this`containedVertices, this`sigmaSTV, scores
      ensures forall v :: 0 <= v < G.V ==> scores[v] == Score(shortestPaths, G.V, G.V, v)
      ensures sigmaSTV == old(sigmaSTV)
    {
      for s := 0 to G.V
        invariant sigmaSTV == old(sigmaSTV)
        invariant forall v :: 0 <= v < G.V ==> scores[v] == Score(shortestPaths, s, G.V, v)
      {
        ScoreSource(s);
      }
    }

    /** getScores(). */
    function GetScores(): (r: array<real>)
      reads this, scores
      requires Valid()
      ensures r == scores && r.Length == input.V + 1
      ensures phase == Scored ==> forall v :: 0 <= v < r.Length ==>
        0.0 <= r[v] <= (r.Length * r.Length) as real &&
        (r[v] > 0.0 <==> exists s :: 0 <= s < r.Length && Inside(shortestPaths[s], s, r.Length, v))
      ensures phase != Scored ==> forall v :: 0 <= v < r.Length ==> r[v] == 0.0
    {
      ScoredBounds();
      scores
    }

    /** The scores of a finished run lie in [0, n * n] and are positive exactly for inner vertices. */
    lemma ScoredBounds()
      requires Valid()
      ensures phase == Scored ==> forall v :: 0 <= v < G.V ==>
        0.0 <= scores[v] <= (G.V * G.V) as real &&
        (scores[v] > 0.0 <==> exists s :: 0 <= s < G.V && Inside(shortestPaths[s], s, G.V, v))
    {
      if phase != Scored {
        return;
      }
      assert SimpleTable(shortestPaths, G.V) by {
        forall s | 0 <= s < G.V ensures SimpleFrom(shortestPaths[s], s) {
          if s < input.V {
            assert ShortestFrom(input, s, shortestPaths[s]);
          }
        }
      }
      forall v | 0 <= v < G.V
        ensures 0.0 <= scores[v] <= (G.V * G.V) as real
        ensures scores[v] > 0.0 <==> exists s :: 0 <= s < G.V && Inside(shortestPaths[s], s, G.V, v)
      {
        ScoreBounds(shortestPaths, G.V, G.V, v);
      }
    }
  }

  // ---------------------------------------------------------------------------
  // Helpers

  lemma MembersSnoc(q: seq<int>, x: int)
    ensures Members(q + [x]) == Members(q) + {x}
  {
    var r := q + [x];
    assert r[|q|] == x;
    forall y | y in Members(q) ensures y in Members(r) {
      var i :| 0 <= i < |q| && q[i] == y;
      assert r[i] == y;
    }
  }

  /** The inner vertices of paths that name only vertices below n are below n. */
  lemma ThroughBelow(P: seq<seq<int>>, t: int, n: int)
    requires NonEmpty(P) && AllBelow(P, n)
    ensures forall v :: v in Through(P, t) ==> 0 <= v < n
  {
    forall v | v in Through(P, t) ensures 0 <= v < n {
      ThroughMeaning(P, t, v);
      var i :| 0 <= i < |P| && Last(P[i]) == t && v in Interior(P[i]);
      var k :| 0 <= k < |Interior(P[i])| && Interior(P[i])[k] == v;
      assert P[i][k + 1] == v;
      assert Below(P[i], n);
    }
  }

  // ---------------------------------------------------------------------------
  // From the reweighted working graph back to the input

  /**
   * With q's edges gone, the Bellman-Ford distances are potentials: no closed walk of g is
   * negative, so (by the caller's premise) none weighs 0, every reweighted edge is non-negative,
   * and every closed walk of g is positive.
   */
  lemma JohnsonPotentials(g: Digraph, dist: seq<Dist>) returns (h: seq<int>)
    requires WellFormed(g) && (NoNegativeCycle(g) ==> NoZeroCycle(g))
    requires WellFormed(WithSource(g)) && |dist| == g.V + 1
    requires dist[g.V] == Fin(0) && forall v :: 0 <= v < g.V + 1 ==> Relaxed(WithSource(g), dist, v)
    ensures |h| == g.V + 1 && forall v :: 0 <= v < g.V + 1 ==> dist[v] == Fin(h[v])
    ensures Admissible(ReducedGraph(Extended(g), h))
    ensures forall c :: IsClosedWalk(g, c) ==> Weight(c) > 0
  {
    WithSourceWellFormed(g);
    AllReached(g, dist);
    h := seq(g.V + 1, v requires 0 <= v < g.V + 1 => dist[v].d);
    var x := Extended(g);
    forall v | 0 <= v < x.V ensures dist[v] == Fin(h[v]) && Relaxed(x, dist, v) {
      assert Relaxed(WithSource(g), dist, v);
    }
    ReducedWellFormed(x, h);
    forall c: seq<Edge> | IsClosedWalk(g, c) ensures Weight(c) >= 0 {
      ExtendedWalk(g, c);
      PotentialNoNegativeCycle(x, h, dist, c);
    }
    ReducedNonNegative(x, h, dist);
    forall c: seq<Edge> | IsClosedWalk(x, c) ensures Weight(c) != 0 {
      ExtendedWalk(g, c);
    }
    ReducedNoZeroCycle(x, h);
    forall c: seq<Edge> | IsClosedWalk(g, c) ensures Weight(c) > 0 {
      ExtendedWalk(g, c);
      PotentialNoNegativeCycle(x, h, dist, c);
    }
  }

  /** Clearing q's list turns the graph with the auxiliary source into the extended graph. */
  lemma ClearedSource(g: Digraph)
    requires WellFormed(g)
    ensures WithSource(g).adj[g.V := []] == Extended(g).adj
  {
    WithSourceWellFormed(g);
  }

  /** The list a finished run collects holds exactly the minimal paths from its source. */
  lemma RunListed(run: DijkstraSP)
    requires run.Valid()
    ensures ShortestFrom(run.graph, run.sourceNode, run.GetAllShortestPaths())
  {
    ListsMinimal(run.graph, run.sourceNode, run.distTo[..], run.GetAllShortestPaths());
  }

  /**
   * The lists of a finished run are exactly the minimal paths to other vertices: a path whose
   * walk weighs the shortest distance is minimal, and a minimal path's walk weighs it.
   */
  lemma ListsMinimal(g: Digraph, s: int, dist: seq<Dist>, P: seq<seq<int>>)
    requires WellFormed(g) && 0 <= s < g.V
    requires |dist| == g.V && forall v :: 0 <= v < g.V ==> ShortestDist(g, s, dist, v)
    requires forall i :: 0 <= i < |P| ==> SimpleShortest(g, s, dist, P[i])
    requires forall p :: IsShortestPath(g, s, dist, p) && p[|p| - 1] != s ==> p in P
    ensures ShortestFrom(g, s, P)
  {
    assert SimpleFrom(P, s) && AllBelow(P, g.V) by {
      forall i | 0 <= i < |P| ensures P[i][0] == s && Distinct(P[i]) && Below(P[i], g.V) {
        assert SimpleShortest(g, s, dist, P[i]);
      }
    }
    forall i | 0 <= i < |P| ensures Last(P[i]) != s && IsMinimalPath(g, s, P[i]) {
      assert SimpleShortest(g, s, dist, P[i]);
      MinimalIsShortest(g, s, dist, P[i]);
    }
    forall p | IsMinimalPath(g, s, p) && Last(p) != s ensures p in P {
      MinimalIsShortest(g, s, dist, p);
    }
  }

  /** Against shortest distances, a path is minimal exactly when its walk weighs its end's distance. */
  lemma MinimalIsShortest(g: Digraph, s: int, dist: seq<Dist>, p: seq<int>)
    requires WellFormed(g) && 0 <= s < g.V
    requires |dist| == g.V && forall v :: 0 <= v < g.V ==> ShortestDist(g, s, dist, v)
    ensures IsMinimalPath(g, s, p) <==> IsShortestPath(g, s, dist, p)
  {
    if IsMinimalPath(g, s, p) {
      MinimalToShortest(g, s, dist, p);
    }
    if IsShortestPath(g, s, dist, p) {
      ShortestToMinimal(g, s, dist, p);
    }
  }

  lemma MinimalToShortest(g: Digraph, s: int, dist: seq<Dist>, p: seq<int>)
    requires WellFormed(g) && 0 <= s < g.V
    requires |dist| == g.V && forall v :: 0 <= v < g.V ==> ShortestDist(g, s, dist, v)
    requires IsMinimalPath(g, s, p)
    ensures IsShortestPath(g, s, dist, p)
  {
    var t := p[|p| - 1];
    var W: seq<Edge> :| IsWalkFromTo(g, W, s, t) && Vertices(W, s) == p &&
      forall c :: IsWalkFromTo(g, c, s, t) ==> Weight(W) <= Weight(c);
    assert 0 <= t < g.V by {
      if W != [] {
        assert HasEdge(g, W[|W| - 1]);
      }
    }
    assert dist[t].Fin? && dist[t].d <= Weight(W) by {
      assert ShortestDist(g, s, dist, t);
      assert LessEq(dist[t], Fin(Weight(W)));
    }
    assert Weight(W) <= dist[t].d by {
      assert ShortestDist(g, s, dist, t);
      var c: seq<Edge> :| IsWalkFromTo(g, c, s, t) && Weight(c) == dist[t].d;
      assert Weight(W) <= Weight(c);
    }
    assert IsWalkFromTo(g, W, s, t) && Vertices(W, s) == p && Weight(W) == dist[t].d;
  }

  lemma ShortestToMinimal(g: Digraph, s: int, dist: seq<Dist>, p: seq<int>)
    requires WellFormed(g) && 0 <= s < g.V
    requires |dist| == g.V && forall v :: 0 <= v < g.V ==> ShortestDist(g, s, dist, v)
    requires IsShortestPath(g, s, dist, p)
    ensures IsMinimalPath(g, s, p)
  {
    var t := p[|p| - 1];
    var W: seq<Edge> :| IsWalkFromTo(g, W, s, t) && Vertices(W, s) == p && Weight(W) == dist[t].d;
    assert ShortestDist(g, s, dist, t);
    forall c | IsWalkFromTo(g, c, s, t) ensures Weight(W) <= Weight(c) {
      assert LessEq(dist[t], Fin(Weight(c)));
    }
  }

  /** The minimal paths of the reweighted graph are the minimal paths of g (Johnson). */
  lemma ReweightedMinimal(g: Digraph, h: seq<int>, s: int, p: seq<int>)
    requires WellFormed(g) && |h| == g.V && 0 <= s < g.V
    ensures IsMinimalPath(ReducedGraph(g, h), s, p) <==> IsMinimalPath(g, s, p)
  {
    if IsMinimalPath(g, s, p) {
      MinimalReweighted(g, h, s, p);
    }
    if IsMinimalPath(ReducedGraph(g, h), s, p) {
      ReducedMinimal(g, h, s, p);
    }
  }

  lemma ReducedMinimal(g: Digraph, h: seq<int>, s: int, p: seq<int>)
    requires WellFormed(g) && |h| == g.V && 0 <= s < g.V && IsMinimalPath(ReducedGraph(g, h), s, p)
    ensures IsMinimalPath(g, s, p)
  {
    var r := ReducedGraph(g, h);
    var t := p[|p| - 1];
    var W: seq<Edge> :| IsWalkFromTo(r, W, s, t) && Vertices(W, s) == p && forall c :: IsWalkFromTo(r, c, s, t) ==> Weight(W) <= Weight(c);
    ReducedWellFormed(g, h);
    if W != [] {
      assert HasEdge(r, W[|W| - 1]);
    }
    ShortestPreserved(g, h, s, p, W);
  }

  /**
   * Walks of the extended graph are walks of g and back, so from a vertex of g both graphs have
   * the same minimal paths, all of them through vertices of g.
   */
  lemma ExtendedMinimal(g: Digraph, s: int, p: seq<int>)
    requires WellFormed(g) && 0 <= s < g.V
    ensures IsMinimalPath(Extended(g), s, p) <==> IsMinimalPath(g, s, p)
    ensures IsMinimalPath(g, s, p) ==> Below(p, g.V)
  {
    if IsMinimalPath(Extended(g), s, p) {
      ExtendedToInput(g, s, p);
    }
    if IsMinimalPath(g, s, p) {
      var t := p[|p| - 1];
      var W: seq<Edge> :| IsWalkFromTo(g, W, s, t) && Vertices(W, s) == p &&
        forall c :: IsWalkFromTo(g, c, s, t) ==> Weight(W) <= Weight(c);
      ExtendedWalk(g, W);
      forall c: seq<Edge> | IsWalkFromTo(Extended(g), c, s, t) ensures Weight(W) <= Weight(c) {
        ExtendedWalk(g, c);
      }
      assert IsWalkFromTo(Extended(g), W, s, t);
      VerticesBelow(g, W, s);
    }
  }

  lemma ExtendedToInput(g: Digraph, s: int, p: seq<int>)
    requires WellFormed(g) && 0 <= s < g.V && IsMinimalPath(Extended(g), s, p)
    ensures IsMinimalPath(g, s, p)
  {
    var x := Extended(g);
    var t := p[|p| - 1];
    var W: seq<Edge> :| IsWalkFromTo(x, W, s, t) && Vertices(W, s) == p && forall c :: IsWalkFromTo(x, c, s, t) ==> Weight(W) <= Weight(c);
    ExtendedWalk(g, W);
    forall c: seq<Edge> | IsWalkFromTo(g, c, s, t) ensures Weight(W) <= Weight(c) {
      ExtendedWalk(g, c);
    }
  }

  lemma {:induction false} VerticesBelow(g: Digraph, W: seq<Edge>, s: int)
    requires WellFormed(g) && IsWalk(g, W) && 0 <= s < g.V
    ensures Below(Vertices(W, s), g.V)
    decreases |W|
  {
    if W != [] {
      var W' := W[..|W| - 1];
      assert IsWalk(g, W') by {
        forall i | 0 <= i < |W'| - 1 ensures W'[i].to == W'[i + 1].from {
          assert W[i].to == W[i + 1].from;
        }
      }
      VerticesBelow(g, W', s);
      assert HasEdge(g, W[|W| - 1]);
    }
  }

  /** From the auxiliary vertex the reweighted graph has no edge, so it reaches nothing else. */
  lemma AuxiliaryIsolated(g: Digraph, h: seq<int>, p: seq<int>)
    requires WellFormed(g) && |h| == g.V + 1 && IsMinimalPath(ReducedGraph(Extended(g), h), g.V, p)
    ensures p[|p| - 1] == g.V
  {
    var x := Extended(g);
    WithSourceWellFormed(g);
    var r := ReducedGraph(x, h);
    var W: seq<Edge> :| IsWalkFromTo(r, W, g.V, p[|p| - 1]) && Vertices(W, g.V) == p && forall c :: IsWalkFromTo(r, c, g.V, p[|p| - 1]) ==> Weight(W) <= Weight(c);
    if W != [] {
      assert false;
    }
  }

  /** The lists of the sources below i are in T, each a list of minimal paths of g. */
  ghost predicate CollectedUpTo(T: map<int, seq<seq<int>>>, g: Digraph, i: int)
  {
    forall s :: 0 <= s < i ==> s in T && ShortestFrom(g, s, T[s])
  }

  lemma CollectedStep(T: map<int, seq<seq<int>>>, g: Digraph, i: int, P: seq<seq<int>>)
    requires CollectedUpTo(T, g, i) && ShortestFrom(g, i, P)
    ensures CollectedUpTo(T[i := P], g, i + 1)
  {
    var U := T[i := P];
    forall s | 0 <= s < i ensures s in U && U[s] == T[s] { }
  }

  /** The table the Dijkstra runs leave over the reweighted extended graph, read in terms of g. */
  lemma ListedInput(g: Digraph, h: seq<int>, T: map<int, seq<seq<int>>>)
    requires WellFormed(g) && |h| == g.V + 1
    requires WellFormed(Extended(g))
    requires CollectedUpTo(T, ReducedGraph(Extended(g), h), g.V + 1)
    ensures Listed(T, g) && Tabled(T, g.V + 1)
    ensures forall s :: 0 <= s < g.V + 1 ==> AllBelow(T[s], g.V + 1)
  {
    WithSourceWellFormed(g);
    forall s | 0 <= s < g.V ensures ShortestFrom(g, s, T[s]) {
      forall i | 0 <= i < |T[s]| ensures Below(T[s][i], g.V) && IsMinimalPath(g, s, T[s][i]) {
        ReweightedMinimal(Extended(g), h, s, T[s][i]);
        ExtendedMinimal(g, s, T[s][i]);
      }
      forall p | IsMinimalPath(g, s, p) && Last(p) != s ensures p in T[s] {
        ExtendedMinimal(g, s, p);
        ReweightedMinimal(Extended(g), h, s, p);
      }
    }
    if T[g.V] != [] {
      assert ShortestFrom(ReducedGraph(Extended(g), h), g.V, T[g.V]);
      AuxiliaryIsolated(g, h, T[g.V][0]);
      assert false;
    }
  }

  // ---------------------------------------------------------------------------
  // The diamond 0->1, 0->2, 1->3, 2->3 with unit weights

  function Diamond(): Digraph
  {
    Digraph(4, [[Edge(0, 1, 1), Edge(0, 2, 1)], [Edge(1, 3, 1)], [Edge(2, 3, 1)], []])
  }

  /** The vertex sequences of the walks from 0 in the diamond: [0] and the four paths. */
  function DiamondWalks(): seq<seq<int>>
  {
    [[0]] + DiamondPaths()
  }

  /**
   * Every walk from 0 in the diamond visits one of the five vertex sequences, has one edge per
   * level of its end (0 for 0, 1 for 1 and 2, 2 for 3) and weighs its length.
   */
  lemma {:induction false} DiamondWalk(c: seq<Edge>, t: int)
    requires IsWalkFromTo(Diamond(), c, 0, t)
    ensures Vertices(c, 0) in DiamondWalks() && Weight(c) == |c|
    ensures |c| == (if t == 0 then 0 else if t == 3 then 2 else 1)
    decreases |c|
  {
    if c != [] {
      var e := c[|c| - 1];
      var c' := c[..|c| - 1];
      WalkInit(Diamond(), c, 0, t);
      DiamondWalk(c', e.from);
      assert HasEdge(Diamond(), e);
      var r' := Vertices(c', 0);
      assert Vertices(c, 0) == r' + [e.to];
      assert r'[|r'| - 1] == e.from;
      if e.from == 0 {
        assert r' == [0];
        if e == Edge(0, 1, 1) {
          assert Vertices(c, 0) == DiamondWalks()[1];
        } else {
          assert e == Edge(0, 2, 1) && Vertices(c, 0) == DiamondWalks()[2];
        }
      } else if e.from == 1 {
        assert r' == [0, 1] && e == Edge(1, 3, 1);
        assert Vertices(c, 0) == DiamondWalks()[3];
      } else {
        assert e.from == 2 && r' == [0, 2] && e == Edge(2, 3, 1);
        assert Vertices(c, 0) == DiamondWalks()[4];
      }
    }
  }

  /** In the diamond every walk from 0 is minimal: all walks to the same end have the same length. */
  lemma DiamondMinimal(W: seq<Edge>, t: int)
    requires IsWalkFromTo(Diamond(), W, 0, t)
    ensures IsMinimalPath(Diamond(), 0, Vertices(W, 0))
  {
    DiamondWalk(W, t);
    var p := Vertices(W, 0);
    assert p[|p| - 1] == t;
    forall c | IsWalkFromTo(Diamond(), c, 0, t) ensures Weight(W) <= Weight(c) {
      DiamondWalk(c, t);
    }
  }

  /** The two one-edge diamond paths are minimal. */
  lemma DiamondShortMinimal()
    ensures IsMinimalPath(Diamond(), 0, [0, 1]) && IsMinimalPath(Diamond(), 0, [0, 2])
  {
    var E01, E02 := Edge(0, 1, 1), Edge(0, 2, 1);
    assert HasEdge(Diamond(), E01) && HasEdge(Diamond(), E02);
    DiamondMinimal([E01], 1);
    assert Vertices([E01], 0) == [0, 1];
    DiamondMinimal([E02], 2);
    assert Vertices([E02], 0) == [0, 2];
  }

  /** The two two-edge diamond paths are minimal. */
  lemma DiamondLongMinimal()
    ensures IsMinimalPath(Diamond(), 0, [0, 1, 3]) && IsMinimalPath(Diamond(), 0, [0, 2, 3])
  {
    var E01, E02, E13, E23 := Edge(0, 1, 1), Edge(0, 2, 1), Edge(1, 3, 1), Edge(2, 3, 1);
    assert HasEdge(Diamond(), E01) && HasEdge(Diamond(), E13);
    assert [E01, E13][..1] == [E01];
    DiamondMinimal([E01, E13], 3);
    assert Vertices([E01, E13], 0) == [0, 1, 3];
    assert HasEdge(Diamond(), E02) && HasEdge(Diamond(), E23);
    assert [E02, E23][..1] == [E02];
    DiamondMinimal([E02, E23], 3);
    assert Vertices([E02, E23], 0) == [0, 2, 3];
  }

  /**
   * A run of the pipeline on the diamond lists from 0 exactly the four paths of DiamondPaths():
   * any list that holds the minimal paths from 0 to other vertices and nothing else holds these.
   */
  lemma DiamondListed(P: seq<seq<int>>)
    requires ShortestFrom(Diamond(), 0, P)
    ensures forall p :: p in P <==> p in DiamondPaths()
  {
    var g := Diamond();
    forall p | p in P ensures p in DiamondPaths() {
      var i :| 0 <= i < |P| && P[i] == p;
      assert IsMinimalPath(g, 0, p) && Last(p) != 0;
      var W: seq<Edge> :| IsWalkFromTo(g, W, 0, p[|p| - 1]) && Vertices(W, 0) == p;
      DiamondWalk(W, p[|p| - 1]);
    }
    DiamondShortMinimal();
    DiamondLongMinimal();
    assert Last([0, 1]) != 0 && Last([0, 2]) != 0 && Last([0, 1, 3]) != 0 && Last([0, 2, 3]) != 0;
  }
}
