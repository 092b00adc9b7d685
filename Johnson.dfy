/**
 * Johnson's reweighting as the betweenness constructor performs it: an auxiliary vertex q with a
 * 0-weight edge to every vertex, a Bellman-Ford potential h from q, and the new weight
 * w + h(from) - h(to) on every edge once q's edges are gone.
 */
module Johnson {
  import opened Common
  import opened DirectedEdges
  import opened Walks

  /** The input graph with one more vertex, q = g.V, that has no edges (q's list after clear()). */
  function Extended(g: Digraph): (r: Digraph)
    ensures r.V == g.V + 1 && |r.adj| == |g.adj| + 1
  {
    Digraph(g.V + 1, g.adj + [[]])
  }

  /** The 0-weight edges q -> i for every i < q, in the order the constructor adds them. */
  function SourceEdges(q: int): (r: seq<Edge>)
    requires q >= 0
    ensures |r| == q && forall i :: 0 <= i < q ==> r[i] == Edge(q, i, 0)
  {
    seq(q, i => Edge(q, i, 0))
  }

  /** The graph Bellman-Ford runs on: the input plus q and its 0-weight edges. */
  function WithSource(g: Digraph): (r: Digraph)
    ensures r.V == g.V + 1 && |r.adj| == |g.adj| + 1
  {
    Digraph(g.V + 1, g.adj + [SourceEdges(g.V)])
  }

  /** setWeight(w + h(from) - h(to)). */
  function Reduced(e: Edge, h: seq<int>): Edge
    requires 0 <= e.from < |h| && 0 <= e.to < |h|
  {
    Edge(e.from, e.to, e.weight + h[e.from] - h[e.to])
  }

  /** The inverse reweighting, w - h(from) + h(to). */
  function Restored(e: Edge, h: seq<int>): Edge
    requires 0 <= e.from < |h| && 0 <= e.to < |h|
  {
    Edge(e.from, e.to, e.weight - h[e.from] + h[e.to])
  }

  ghost predicate Within(l: seq<Edge>, n: int)
  {
    forall i :: 0 <= i < |l| ==> 0 <= l[i].from < n && 0 <= l[i].to < n
  }

  function ReducedList(l: seq<Edge>, h: seq<int>): (r: seq<Edge>)
    requires Within(l, |h|)
    ensures |r| == |l| && forall i :: 0 <= i < |l| ==> r[i] == Reduced(l[i], h)
  {
    seq(|l|, i requires 0 <= i < |l| => Reduced(l[i], h))
  }

  function RestoredList(l: seq<Edge>, h: seq<int>): (r: seq<Edge>)
    requires Within(l, |h|)
    ensures |r| == |l| && forall i :: 0 <= i < |l| ==> r[i] == Restored(l[i], h)
  {
    seq(|l|, i requires 0 <= i < |l| => Restored(l[i], h))
  }

  lemma WellFormedWithin(g: Digraph, v: int)
    requires WellFormed(g) && 0 <= v < g.V
    ensures Within(g.adj[v], g.V)
  {
    forall i | 0 <= i < |g.adj[v]| ensures 0 <= g.adj[v][i].from < g.V && 0 <= g.adj[v][i].to < g.V {
      assert g.adj[v][i] in g.adj[v];
    }
  }

  /** The graph after the reweighting loop: every list reweighted in place, in its own order. */
  function ReducedGraph(g: Digraph, h: seq<int>): (r: Digraph)
    requires WellFormed(g) && |h| == g.V
    ensures r.V == g.V && |r.adj| == g.V
    ensures forall v :: 0 <= v < g.V ==> |r.adj[v]| == |g.adj[v]|
  {
    Digraph(g.V, seq(g.V, v requires 0 <= v < g.V => (WellFormedWithin(g, v); ReducedList(g.adj[v], h))))
  }

  /** The reweighted graph has the same shape: edge j of v is edge j of v reweighted. */
  lemma ReducedEdge(g: Digraph, h: seq<int>, v: int, j: int)
    requires WellFormed(g) && |h| == g.V && 0 <= v < g.V && 0 <= j < |g.adj[v]|
    ensures 0 <= g.adj[v][j].to < g.V && g.adj[v][j].from == v
    ensures ReducedGraph(g, h).adj[v][j] == Reduced(g.adj[v][j], h)
  {
    WellFormedWithin(g, v);
  }

  lemma ReducedWellFormed(g: Digraph, h: seq<int>)
    requires WellFormed(g) && |h| == g.V
    ensures WellFormed(ReducedGraph(g, h))
  {
    var r := ReducedGraph(g, h);
    forall v, e | 0 <= v < r.V && e in r.adj[v] ensures e.from == v && 0 <= e.to < r.V {
      var j :| 0 <= j < |r.adj[v]| && r.adj[v][j] == e;
      ReducedEdge(g, h, v, j);
    }
  }

  // ---------------------------------------------------------------------------
  // Walks under reweighting

  /** Reweighting a walk from s to t adds h(s) - h(t) to its weight: the inner potentials cancel. */
  lemma {:induction false} Telescope(c: seq<Edge>, h: seq<int>, s: int, t: int)
    requires Within(c, |h|) && Chained(c) && 0 <= s < |h| && 0 <= t < |h|
    requires if c == [] then s == t else c[0].from == s && c[|c| - 1].to == t
    ensures Weight(ReducedList(c, h)) == Weight(c) + h[s] - h[t]
    ensures Weight(RestoredList(c, h)) == Weight(c) - h[s] + h[t]
  {
    if c != [] {
      var c', e := c[..|c| - 1], c[|c| - 1];
      assert ReducedList(c, h)[..|c| - 1] == ReducedList(c', h);
      assert RestoredList(c, h)[..|c| - 1] == RestoredList(c', h);
      if c' == [] {
        assert s == e.from;
      } else {
        assert c'[|c'| - 1].to == e.from;
      }
      Telescope(c', h, s, e.from);
    }
  }

  /** A walk of g, reweighted, is a walk of the reweighted graph between the same vertices. */
  lemma ReducedWalk(g: Digraph, h: seq<int>, c: seq<Edge>, s: int, t: int)
    requires WellFormed(g) && |h| == g.V && 0 <= s < g.V && 0 <= t < g.V && IsWalkFromTo(g, c, s, t)
    ensures Within(c, |h|)
    ensures IsWalkFromTo(ReducedGraph(g, h), ReducedList(c, h), s, t)
    ensures Weight(ReducedList(c, h)) == Weight(c) + h[s] - h[t]
  {
    forall i | 0 <= i < |c| ensures 0 <= c[i].from < |h| && 0 <= c[i].to < |h| && HasEdge(ReducedGraph(g, h), Reduced(c[i], h)) {
      assert HasEdge(g, c[i]);
      var j :| 0 <= j < |g.adj[c[i].from]| && g.adj[c[i].from][j] == c[i];
      ReducedEdge(g, h, c[i].from, j);
    }
    Telescope(c, h, s, t);
  }

  /** A walk of the reweighted graph, with the old weights back, is a walk of g through the same vertices. */
  lemma RestoredWalk(g: Digraph, h: seq<int>, c: seq<Edge>, s: int, t: int)
    requires WellFormed(g) && |h| == g.V && 0 <= s < g.V && 0 <= t < g.V && IsWalkFromTo(ReducedGraph(g, h), c, s, t)
    ensures Within(c, |h|)
    ensures IsWalkFromTo(g, RestoredList(c, h), s, t)
    ensures Weight(RestoredList(c, h)) == Weight(c) - h[s] + h[t]
    ensures Vertices(RestoredList(c, h), s) == Vertices(c, s)
  {
    RestoredEdges(g, h, c);
    Telescope(c, h, s, t);
    SameVertices(c, RestoredList(c, h), s);
  }

  lemma RestoredEdges(g: Digraph, h: seq<int>, c: seq<Edge>)
    requires WellFormed(g) && |h| == g.V && IsWalk(ReducedGraph(g, h), c)
    ensures Within(c, |h|) && IsWalk(g, RestoredList(c, h))
  {
    forall i | 0 <= i < |c| ensures 0 <= c[i].from < |h| && 0 <= c[i].to < |h| && HasEdge(g, Restored(c[i], h)) {
      RestoredEdge(g, h, c[i]);
    }
    var d := RestoredList(c, h);
    forall i | 0 <= i < |d| - 1 ensures d[i].to == d[i + 1].from {
      assert c[i].to == c[i + 1].from;
    }
  }

  /** An edge of the reweighted graph is an edge of g reweighted. */
  lemma RestoredEdge(g: Digraph, h: seq<int>, e: Edge)
    requires WellFormed(g) && |h| == g.V && HasEdge(ReducedGraph(g, h), e)
    ensures 0 <= e.from < |h| && 0 <= e.to < |h| && HasEdge(g, Restored(e, h))
  {
    var r := ReducedGraph(g, h);
    var v := e.from;
    var j :| 0 <= j < |r.adj[v]| && r.adj[v][j] == e;
    ReducedEdge(g, h, v, j);
    assert Restored(e, h) == g.adj[v][j];
  }

  /** Two edge sequences with the same heads visit the same vertices. */
  lemma {:induction false} SameVertices(c: seq<Edge>, d: seq<Edge>, s: int)
    requires |c| == |d| && forall i :: 0 <= i < |c| ==> c[i].to == d[i].to
    ensures Vertices(c, s) == Vertices(d, s)
  {
    if c != [] {
      SameVertices(c[..|c| - 1], d[..|d| - 1], s);
    }
  }

  /** Every edge of g, reweighted by a potential its edges are relaxed against, weighs at least 0. */
  lemma ReducedNonNegative(g: Digraph, h: seq<int>, dist: seq<Dist>)
    requires WellFormed(g) && |h| == g.V && |dist| == g.V
    requires forall v :: 0 <= v < g.V ==> dist[v] == Fin(h[v]) && Relaxed(g, dist, v)
    ensures NonNegative(ReducedGraph(g, h))
  {
    var r := ReducedGraph(g, h);
    forall v, e | 0 <= v < |r.adj| && e in r.adj[v] ensures e.weight >= 0 {
      var j :| 0 <= j < |r.adj[v]| && r.adj[v][j] == e;
      ReducedEdge(g, h, v, j);
      assert EdgeRelaxed(dist, g.adj[v][j]);
    }
  }

  /** A closed walk keeps its weight under reweighting, so a graph without 0-weight cycles keeps none. */
  lemma ReducedNoZeroCycle(g: Digraph, h: seq<int>)
    requires WellFormed(g) && |h| == g.V && NoZeroCycle(g)
    ensures NoZeroCycle(ReducedGraph(g, h))
  {
    forall c: seq<Edge> | IsClosedWalk(ReducedGraph(g, h), c) ensures Weight(c) != 0 {
      var s := c[0].from;
      ReducedWellFormed(g, h);
      assert HasEdge(ReducedGraph(g, h), c[0]);
      RestoredWalk(g, h, c, s, s);
      assert IsClosedWalk(g, RestoredList(c, h));
    }
  }

  /** The vertex sequence p of a walk from s whose weight no other walk from s to p's end undercuts. */
  ghost predicate IsMinimalPath(g: Digraph, s: int, p: seq<int>)
  {
    |p| >= 1 &&
    exists W :: IsWalkFromTo(g, W, s, p[|p| - 1]) && Vertices(W, s) == p &&
      forall c :: IsWalkFromTo(g, c, s, p[|p| - 1]) ==> Weight(W) <= Weight(c)
  }

  /**
   * Johnson's theorem for one path: the vertex sequence of a shortest walk in the reweighted graph
   * is the vertex sequence of a shortest walk in g.
   */
  lemma ShortestPreserved(g: Digraph, h: seq<int>, s: int, p: seq<int>, W: seq<Edge>)
    requires WellFormed(g) && |h| == g.V && 0 <= s < g.V && |p| >= 1 && 0 <= p[|p| - 1] < g.V
    requires IsWalkFromTo(ReducedGraph(g, h), W, s, p[|p| - 1]) && Vertices(W, s) == p
    requires forall c :: IsWalkFromTo(ReducedGraph(g, h), c, s, p[|p| - 1]) ==> Weight(W) <= Weight(c)
    ensures IsMinimalPath(g, s, p)
  {
    var t := p[|p| - 1];
    RestoredWalk(g, h, W, s, t);
    var V := RestoredList(W, h);
    forall c: seq<Edge> | IsWalkFromTo(g, c, s, t) ensures Weight(V) <= Weight(c) {
      ReducedWalk(g, h, c, s, t);
    }
  }

  /**
   * The converse: the vertex sequence of a shortest walk in g is that of a shortest walk in the
   * reweighted graph, since reweighting shifts every walk from s to t by the same h(s) - h(t).
   */
  lemma MinimalReweighted(g: Digraph, h: seq<int>, s: int, p: seq<int>)
    requires WellFormed(g) && |h| == g.V && 0 <= s < g.V && IsMinimalPath(g, s, p)
    ensures IsMinimalPath(ReducedGraph(g, h), s, p)
  {
    var t := p[|p| - 1];
    var W: seq<Edge> :| IsWalkFromTo(g, W, s, t) && Vertices(W, s) == p &&
      forall c :: IsWalkFromTo(g, c, s, t) ==> Weight(W) <= Weight(c);
    if W != [] {
      assert HasEdge(g, W[|W| - 1]);
    }
    ReducedWalk(g, h, W, s, t);
    var R := ReducedList(W, h);
    SameVertices(W, R, s);
    forall c: seq<Edge> | IsWalkFromTo(ReducedGraph(g, h), c, s, t) ensures Weight(R) <= Weight(c) {
      RestoredWalk(g, h, c, s, t);
    }
    assert IsWalkFromTo(ReducedGraph(g, h), R, s, t) && Vertices(R, s) == p;
  }

  // ---------------------------------------------------------------------------
  // The auxiliary vertex

  /** A walk of the extended graph is a walk of g: q has no edges at all. */
  lemma ExtendedWalk(g: Digraph, c: seq<Edge>)
    requires WellFormed(g)
    ensures IsWalk(Extended(g), c) <==> IsWalk(g, c)
  {
    var x := Extended(g);
    assert forall v :: 0 <= v < g.V ==> x.adj[v] == g.adj[v];
    assert x.adj[g.V] == [];
  }

  lemma WithSourceWellFormed(g: Digraph)
    requires WellFormed(g)
    ensures WellFormed(WithSource(g)) && WellFormed(Extended(g))
    ensures forall v :: 0 <= v < g.V ==> WithSource(g).adj[v] == g.adj[v] && Extended(g).adj[v] == g.adj[v]
    ensures WithSource(g).adj[g.V] == SourceEdges(g.V) && Extended(g).adj[g.V] == []
  {
    var x := WithSource(g);
    forall v, e | 0 <= v < x.V && e in x.adj[v] ensures e.from == v && 0 <= e.to < x.V {
      if v == g.V {
        var i :| 0 <= i < g.V && x.adj[v][i] == e;
      }
    }
  }

  /** No edge enters q, so a closed walk of the graph with q is a closed walk of g. */
  lemma ClosedWalkAvoidsSource(g: Digraph, c: seq<Edge>)
    requires WellFormed(g) && IsClosedWalk(WithSource(g), c)
    ensures IsClosedWalk(g, c)
  {
    var x := WithSource(g);
    WithSourceWellFormed(g);
    forall i | 0 <= i < |c| ensures c[i].to < g.V {
      assert HasEdge(x, c[i]);
    }
    forall i | 0 <= i < |c| ensures HasEdge(g, c[i]) {
      assert HasEdge(x, c[i]);
      var prev := if i == 0 then |c| - 1 else i - 1;
      assert c[i].from == c[prev].to;
    }
  }

  /**
   * Once every edge of the graph with q is relaxed and q is at 0, every vertex has a finite
   * distance, at most 0: q reaches each of them by a 0-weight edge.
   */
  lemma AllReached(g: Digraph, dist: seq<Dist>)
    requires WellFormed(g) && |dist| == g.V + 1 && dist[g.V] == Fin(0)
    requires WellFormed(WithSource(g)) && Relaxed(WithSource(g), dist, g.V)
    ensures forall v :: 0 <= v < g.V + 1 ==> dist[v].Fin? && dist[v].d <= 0
  {
    WithSourceWellFormed(g);
    forall v | 0 <= v < g.V ensures dist[v].Fin? && dist[v].d <= 0 {
      assert WithSource(g).adj[g.V][v] == Edge(g.V, v, 0);
      assert EdgeRelaxed(dist, WithSource(g).adj[g.V][v]);
    }
  }

  /**
   * With a potential against which every edge of g is relaxed, no closed walk of g is negative;
   * without a 0-weight one, every closed walk is positive.
   */
  lemma PotentialNoNegativeCycle(g: Digraph, h: seq<int>, dist: seq<Dist>, c: seq<Edge>)
    requires WellFormed(g) && |h| == g.V && |dist| == g.V
    requires forall v :: 0 <= v < g.V ==> dist[v] == Fin(h[v]) && Relaxed(g, dist, v)
    requires IsClosedWalk(g, c)
    ensures Weight(c) >= 0
    ensures NoZeroCycle(g) ==> Weight(c) > 0
  {
    var s := c[0].from;
    assert HasEdge(g, c[0]);
    ReducedWalk(g, h, c, s, s);
    ReducedNonNegative(g, h, dist);
    NonNegativeWalk(ReducedGraph(g, h), ReducedList(c, h));
  }
}
