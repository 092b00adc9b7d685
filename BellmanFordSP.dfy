/** Queue-based Bellman-Ford with a periodic search for a cycle in the predecessor graph. */
module BellmanFord {
  import opened Common
  import opened DirectedEdges
  import opened Walks
  import opened Digraphs
  import opened DirectedCycles

  /**
   * e = edgeTo[v] is an edge of g into v, both ends have a finite distance, and
   * distTo[v] >= distTo[e.from] + e.weight; when that is an equality, e.from got its
   * distance before v did (stamp is the time of the last distance change).
   */
  ghost predicate TreeLink(g: Digraph, dist: seq<Dist>, stamp: seq<nat>, e: Edge, v: int)
    requires |dist| == g.V && |stamp| == g.V
  {
    HasEdge(g, e) && e.to == v && 0 <= v < g.V && e.from < g.V &&
    dist[v].Fin? && dist[e.from].Fin? && dist[e.from].d + e.weight <= dist[v].d &&
    (dist[e.from].d + e.weight == dist[v].d ==> stamp[e.from] < stamp[v])
  }

  /** The predecessor arrays: a vertex without edgeTo keeps its initial distance, one with edgeTo is linked. */
  ghost predicate TreeInv(g: Digraph, s: int, dist: seq<Dist>, edgeTo: seq<Option<Edge>>, stamp: seq<nat>, clock: nat)
  {
    WellFormed(g) && 0 <= s < g.V && |dist| == g.V && |edgeTo| == g.V && |stamp| == g.V &&
    (forall v :: 0 <= v < g.V ==> stamp[v] < clock) &&
    (forall v :: 0 <= v < g.V && edgeTo[v].None? ==> dist[v] == if v == s then Fin(0) else Inf) &&
    (forall v :: 0 <= v < g.V && edgeTo[v].Some? ==> TreeLink(g, dist, stamp, edgeTo[v].value, v))
  }

  /**
   * The queue holds distinct vertices of finite distance, onQueue marks exactly them,
   * and every other vertex except `current` (the one being relaxed) has all its edges relaxed.
   */
  ghost predicate QueueInv(g: Digraph, dist: seq<Dist>, onQueue: seq<bool>, queue: seq<int>, current: int)
  {
    WellFormed(g) && |dist| == g.V && |onQueue| == g.V &&
    (forall i :: 0 <= i < |queue| ==> 0 <= queue[i] < g.V && dist[queue[i]].Fin?) &&
    (forall i, j :: 0 <= i < j < |queue| ==> queue[i] != queue[j]) &&
    (forall v :: 0 <= v < g.V ==> (onQueue[v] <==> v in queue)) &&
    (forall v :: 0 <= v < g.V && !onQueue[v] && v != current ==> Relaxed(g, dist, v))
  }

  /** The first k edges of v are relaxed, unless v went back on the queue. */
  ghost predicate RelaxedUpTo(g: Digraph, dist: seq<Dist>, onQueue: seq<bool>, v: int, k: nat)
    requires WellFormed(g) && |dist| == g.V && |onQueue| == g.V && 0 <= v < g.V && k <= |g.adj[v]|
  {
    onQueue[v] || forall j :: 0 <= j < k ==> EdgeRelaxed(dist, g.adj[v][j])
  }

  /** An edge on the shortest-paths tree is tight: distTo[w] == distTo[v] + e.weight. */
  ghost predicate Tight(g: Digraph, dist: seq<Dist>, e: Edge, w: int)
    requires |dist| == g.V
  {
    e.to == w && 0 <= w < g.V && 0 <= e.from < g.V && Plus(dist[e.from], e.weight) == dist[w]
  }

  ghost predicate TreeTight(g: Digraph, dist: seq<Dist>, edgeTo: seq<Option<Edge>>)
    requires |dist| == g.V && |edgeTo| == g.V
  {
    forall w :: 0 <= w < g.V && edgeTo[w].Some? ==> Tight(g, dist, edgeTo[w].value, w)
  }

  /** The optimality conditions that check() tests when no negative cycle was found. */
  ghost predicate Optimal(g: Digraph, s: int, dist: seq<Dist>, edgeTo: seq<Option<Edge>>)
    requires WellFormed(g) && |dist| == g.V && |edgeTo| == g.V && 0 <= s < g.V
  {
    dist[s] == Fin(0) && edgeTo[s].None? &&
    (forall v :: 0 <= v < g.V && v != s && edgeTo[v].None? ==> dist[v] == Inf) &&
    (forall v :: 0 <= v < g.V ==> Relaxed(g, dist, v)) &&
    TreeTight(g, dist, edgeTo)
  }

  /** e is the edgeTo entry of its own head. */
  ghost predicate IsTreeEdge(edgeTo: seq<Option<Edge>>, e: Edge)
  {
    0 <= e.to < |edgeTo| && edgeTo[e.to] == Some(e)
  }

  /** A closed walk in the predecessor graph (the graph findNegativeCycle builds). */
  ghost predicate ClosedTreeWalk(edgeTo: seq<Option<Edge>>, c: seq<Edge>)
  {
    |c| > 0 && Chained(c) && c[|c| - 1].to == c[0].from &&
    forall i :: 0 <= i < |c| ==> IsTreeEdge(edgeTo, c[i])
  }

  // ---------------------------------------------------------------------------
  // Transitions of the invariants

  lemma InitKeeps(g: Digraph, s: int)
    requires WellFormed(g) && 0 <= s < g.V
    ensures var dist := seq(g.V, v => if v == s then Fin(0) else Inf);
            TreeInv(g, s, dist, seq(g.V, _ => None), seq(g.V, _ => 0), 1) &&
            QueueInv(g, dist, seq(g.V, v => v == s), [s], -1)
  {
    var dist := seq(g.V, v => if v == s then Fin(0) else Inf);
    forall v | 0 <= v < g.V && v != s ensures Relaxed(g, dist, v) {
      forall e | e in g.adj[v] ensures EdgeRelaxed(dist, e) {
        assert e.from == v;
      }
    }
  }

  /** Taking the head of the queue off: it becomes the vertex being relaxed. */
  lemma DequeueKeeps(g: Digraph, dist: seq<Dist>, onQueue: seq<bool>, queue: seq<int>)
    requires QueueInv(g, dist, onQueue, queue, -1) && queue != []
    ensures 0 <= queue[0] < g.V && dist[queue[0]].Fin?
    ensures QueueInv(g, dist, onQueue[queue[0] := false], queue[1..], queue[0])
  {
    var v := queue[0];
    forall u | 0 <= u < g.V ensures (onQueue[v := false][u] <==> u in queue[1..]) {
      if u in queue[1..] {
        var j :| 0 <= j < |queue[1..]| && queue[1..][j] == u;
        assert queue[j + 1] == u;
      }
    }
  }

  /** After the whole adjacency list of v, v is relaxed or back on the queue. */
  lemma FinishKeeps(g: Digraph, dist: seq<Dist>, onQueue: seq<bool>, queue: seq<int>, v: int)
    requires QueueInv(g, dist, onQueue, queue, v) && 0 <= v < g.V
    requires RelaxedUpTo(g, dist, onQueue, v, |g.adj[v]|)
    ensures QueueInv(g, dist, onQueue, queue, -1)
  {
    if !onQueue[v] {
      forall e | e in g.adj[v] ensures EdgeRelaxed(dist, e) {
        var j :| 0 <= j < |g.adj[v]| && g.adj[v][j] == e;
      }
    }
  }

  /** An edge that fails the test of relax() stays as it is and counts as relaxed. */
  lemma SkipKeeps(g: Digraph, dist: seq<Dist>, onQueue: seq<bool>, v: int, k: nat)
    requires WellFormed(g) && |dist| == g.V && |onQueue| == g.V && 0 <= v < g.V && k < |g.adj[v]|
    requires RelaxedUpTo(g, dist, onQueue, v, k)
    requires !Less(Plus(dist[v], g.adj[v][k].weight), dist[g.adj[v][k].to])
    ensures RelaxedUpTo(g, dist, onQueue, v, k + 1)
  {
    assert g.adj[v][k] in g.adj[v];
  }

  /** Lowering distTo[w] through e = v->w, with a fresh stamp for w, keeps the predecessor invariant. */
  lemma ImproveKeepsTree(g: Digraph, s: int, dist: seq<Dist>, edgeTo: seq<Option<Edge>>, stamp: seq<nat>, clock: nat,
                         v: int, e: Edge)
    requires TreeInv(g, s, dist, edgeTo, stamp, clock) && 0 <= v < g.V && e in g.adj[v]
    requires dist[v].Fin? && Less(Plus(dist[v], e.weight), dist[e.to])
    ensures TreeInv(g, s, dist[e.to := Plus(dist[v], e.weight)], edgeTo[e.to := Some(e)], stamp[e.to := clock], clock + 1)
  {
    var w := e.to;
    var dist', edgeTo', stamp' := dist[w := Plus(dist[v], e.weight)], edgeTo[w := Some(e)], stamp[w := clock];
    assert e.from == v && 0 <= w < g.V;
    forall x | 0 <= x < g.V && edgeTo'[x].Some? ensures TreeLink(g, dist', stamp', edgeTo'[x].value, x) {
      if x != w {
        var f := edgeTo[x].value;
        assert TreeLink(g, dist, stamp, f, x);
      }
    }
  }

  /** The same step seen from the queue: w goes on the queue unless it is there already. */
  lemma ImproveKeepsQueue(g: Digraph, dist: seq<Dist>, onQueue: seq<bool>, queue: seq<int>, v: int, k: nat)
    requires QueueInv(g, dist, onQueue, queue, v) && 0 <= v < g.V && k < |g.adj[v]|
    requires RelaxedUpTo(g, dist, onQueue, v, k)
    requires dist[v].Fin? && Less(Plus(dist[v], g.adj[v][k].weight), dist[g.adj[v][k].to])
    ensures var e := g.adj[v][k];
            var dist' := dist[e.to := Plus(dist[v], e.weight)];
            var onQueue' := onQueue[e.to := true];
            QueueInv(g, dist', onQueue', if onQueue[e.to] then queue else queue + [e.to], v) &&
            RelaxedUpTo(g, dist', onQueue', v, k + 1) &&
            forall u :: 0 <= u < g.V ==> LessEq(dist'[u], dist[u])
  {
    var e := g.adj[v][k];
    var w := e.to;
    assert e in g.adj[v];
    var dist' := dist[w := Plus(dist[v], e.weight)];
    var onQueue' := onQueue[w := true];
    var queue' := if onQueue[w] then queue else queue + [w];
    forall u | 0 <= u < g.V && !onQueue'[u] && u != v ensures Relaxed(g, dist', u) {
      forall f | f in g.adj[u] ensures EdgeRelaxed(dist', f) {
        assert EdgeRelaxed(dist, f);
      }
    }
    forall u | 0 <= u < g.V ensures (onQueue'[u] <==> u in queue') {
      assert u in queue' <==> u in queue || (u == w && !onQueue[w]);
    }
    if !onQueue'[v] {
      forall j | 0 <= j < k + 1 ensures EdgeRelaxed(dist', g.adj[v][j]) {
        if j < k {
          assert EdgeRelaxed(dist, g.adj[v][j]);
        }
      }
    }
  }

  /** On a walk of tree edges, distTo grows by at least the walk's weight, strictly or with rising stamps. */
  lemma {:induction false} TreeWalkSlack(g: Digraph, s: int, dist: seq<Dist>, edgeTo: seq<Option<Edge>>,
                                         stamp: seq<nat>, clock: nat, c: seq<Edge>)
    requires TreeInv(g, s, dist, edgeTo, stamp, clock)
    requires |c| > 0 && Chained(c) && forall i :: 0 <= i < |c| ==> IsTreeEdge(edgeTo, c[i])
    ensures IsWalk(g, c)
    ensures var a, b := c[0].from, c[|c| - 1].to;
            0 <= a < g.V && 0 <= b < g.V && dist[a].Fin? && dist[b].Fin? &&
            dist[a].d + Weight(c) <= dist[b].d &&
            (dist[a].d + Weight(c) == dist[b].d ==> stamp[a] < stamp[b])
    decreases |c|
  {
    var e := c[|c| - 1];
    assert IsTreeEdge(edgeTo, e);
    assert TreeLink(g, dist, stamp, e, e.to);
    var c' := c[..|c| - 1];
    if c' == [] {
      assert c == [e];
    } else {
      assert c'[0] == c[0] && c'[|c'| - 1].to == e.from;
      TreeWalkSlack(g, s, dist, edgeTo, stamp, clock, c');
    }
  }

  /** A cycle of the predecessor graph is a cycle of g of negative weight. */
  lemma TreeCycleNegative(g: Digraph, s: int, dist: seq<Dist>, edgeTo: seq<Option<Edge>>,
                          stamp: seq<nat>, clock: nat, c: seq<Edge>)
    requires TreeInv(g, s, dist, edgeTo, stamp, clock) && ClosedTreeWalk(edgeTo, c)
    ensures IsClosedWalk(g, c) && Weight(c) < 0
  {
    TreeWalkSlack(g, s, dist, edgeTo, stamp, clock, c);
  }

  /** With every tree edge tight, following edgeTo back from x lowers the stamp down to the source. */
  lemma {:induction false} RootBelow(g: Digraph, s: int, dist: seq<Dist>, edgeTo: seq<Option<Edge>>,
                                     stamp: seq<nat>, clock: nat, x: int)
    requires TreeInv(g, s, dist, edgeTo, stamp, clock) && TreeTight(g, dist, edgeTo)
    requires 0 <= x < g.V && dist[x].Fin?
    ensures stamp[s] <= stamp[x]
    ensures edgeTo[x].Some? ==> stamp[s] < stamp[x]
    decreases stamp[x]
  {
    if edgeTo[x].Some? {
      var e := edgeTo[x].value;
      assert TreeLink(g, dist, stamp, e, x) && Tight(g, dist, e, x);
      RootBelow(g, s, dist, edgeTo, stamp, clock, e.from);
    }
  }

  /** An empty queue with no cycle found: the optimality conditions hold. */
  lemma ConvergedOptimal(g: Digraph, s: int, dist: seq<Dist>, edgeTo: seq<Option<Edge>>,
                         stamp: seq<nat>, clock: nat, onQueue: seq<bool>)
    requires TreeInv(g, s, dist, edgeTo, stamp, clock) && QueueInv(g, dist, onQueue, [], -1)
    ensures Optimal(g, s, dist, edgeTo)
  {
    forall w | 0 <= w < g.V && edgeTo[w].Some? ensures Tight(g, dist, edgeTo[w].value, w) {
      var e := edgeTo[w].value;
      assert TreeLink(g, dist, stamp, e, w);
      assert e in g.adj[e.from] && Relaxed(g, dist, e.from);
      assert EdgeRelaxed(dist, e);
    }
    RootBelow(g, s, dist, edgeTo, stamp, clock, s);
  }

  /** Under the optimality conditions no walk from s to v is shorter than distTo[v]. */
  lemma {:induction false} WalkBound(g: Digraph, s: int, dist: seq<Dist>, edgeTo: seq<Option<Edge>>, c: seq<Edge>, v: int)
    requires WellFormed(g) && |dist| == g.V && |edgeTo| == g.V && 0 <= s < g.V && Optimal(g, s, dist, edgeTo)
    requires 0 <= v < g.V && IsWalkFromTo(g, c, s, v)
    ensures dist[v].Fin? && dist[v].d <= Weight(c)
    decreases |c|
  {
    if c != [] {
      var c' := c[..|c| - 1];
      var e := c[|c| - 1];
      assert HasEdge(g, e) && e in g.adj[e.from];
      assert Relaxed(g, dist, e.from) && EdgeRelaxed(dist, e);
      if c' != [] {
        assert c'[|c'| - 1] == c[|c| - 2];
      }
      WalkBound(g, s, dist, edgeTo, c', e.from);
    }
  }

  /** Under the optimality conditions the tree path to a vertex of finite distance weighs exactly distTo[v]. */
  lemma {:induction false} TreePathExists(g: Digraph, s: int, dist: seq<Dist>, edgeTo: seq<Option<Edge>>,
                                          stamp: seq<nat>, clock: nat, v: int)
    requires TreeInv(g, s, dist, edgeTo, stamp, clock) && Optimal(g, s, dist, edgeTo)
    requires 0 <= v < g.V && dist[v].Fin?
    ensures exists c :: IsWalkFromTo(g, c, s, v) && Weight(c) == dist[v].d
    decreases stamp[v]
  {
    if edgeTo[v].None? {
      assert IsWalkFromTo(g, [], s, v) && Weight([]) == 0;
    } else {
      var e := edgeTo[v].value;
      assert TreeLink(g, dist, stamp, e, v) && Tight(g, dist, e, v);
      TreePathExists(g, s, dist, edgeTo, stamp, clock, e.from);
      var c :| IsWalkFromTo(g, c, s, e.from) && Weight(c) == dist[e.from].d;
      var c' := c + [e];
      WeightAppend(c, [e]);
      assert [e][..0] == [];
      assert IsWalkFromTo(g, c', s, v) && Weight(c') == dist[v].d by {
        if c != [] {
          assert c'[|c| - 1] == c[|c| - 1];
        }
        assert forall i :: 0 <= i < |c| ==> c'[i] == c[i];
      }
    }
  }

  /** spt holds only tree edges, and the tree edges of the vertices below v. */
  ghost predicate SptBuilt(spt: Digraph, edgeTo: seq<Option<Edge>>, v: int)
  {
    (forall e :: HasEdge(spt, e) ==> IsTreeEdge(edgeTo, e)) &&
    (forall u :: 0 <= u < v && u < |edgeTo| && edgeTo[u].Some? ==> HasEdge(spt, edgeTo[u].value))
  }

  /** One step of the loop of findNegativeCycle: add edgeTo[v] when there is one. */
  lemma SptStep(spt: Digraph, edgeTo: seq<Option<Edge>>, v: int)
    requires SptBuilt(spt, edgeTo, v) && 0 <= v < |edgeTo|
    requires edgeTo[v].Some? ==> 0 <= edgeTo[v].value.from < |spt.adj| && edgeTo[v].value.to == v
    ensures edgeTo[v].None? ==> SptBuilt(spt, edgeTo, v + 1)
    ensures edgeTo[v].Some? ==>
              var e := edgeTo[v].value;
              SptBuilt(Digraph(spt.V, spt.adj[e.from := spt.adj[e.from] + [e]]), edgeTo, v + 1)
  {
    if edgeTo[v].Some? {
      var e := edgeTo[v].value;
      var spt' := Digraph(spt.V, spt.adj[e.from := spt.adj[e.from] + [e]]);
      forall f | HasEdge(spt', f) ensures IsTreeEdge(edgeTo, f) {
        if f != e {
          assert HasEdge(spt, f);
        }
      }
      forall u | 0 <= u < v + 1 && u < |edgeTo| && edgeTo[u].Some? ensures HasEdge(spt', edgeTo[u].value) {
        if u < v {
          assert HasEdge(spt, edgeTo[u].value);
        }
      }
    }
  }

  /** The cycle finder run on the finished predecessor graph answers for the tree edges. */
  lemma SptCycle(spt: Digraph, edgeTo: seq<Option<Edge>>, r: Option<seq<Edge>>)
    requires SptBuilt(spt, edgeTo, |edgeTo|)
    requires r.Some? ==> IsClosedWalk(spt, r.value)
    requires r.None? <==> forall c :: !IsClosedWalk(spt, c)
    ensures r.Some? ==> ClosedTreeWalk(edgeTo, r.value)
    ensures r.None? <==> forall c :: !ClosedTreeWalk(edgeTo, c)
  {
    assert forall e :: HasEdge(spt, e) <==> IsTreeEdge(edgeTo, e);
    assert forall c :: IsClosedWalk(spt, c) <==> ClosedTreeWalk(edgeTo, c);
  }

  // ---------------------------------------------------------------------------

  class BellmanFordSP {
    const distTo: array<Dist>
    const edgeTo: array<Option<Edge>>
    const onQueue: array<bool>
    /** FIFO queue of vertices to relax, head first. */
    var queue: seq<int>
    /** Number of edges examined by relax(). */
    var cost: nat
    var cycle: Option<seq<Edge>>
    /** The graph and source of the run, as values. */
    ghost const graph: Digraph
    ghost const source: int
    /** stamp[v]: the clock value at v's last distance change. */
    ghost var stamp: seq<nat>
    ghost var clock: nat

    ghost predicate Sized()
      reads this`stamp
    {
      WellFormed(graph) && 0 <= source < graph.V && |stamp| == graph.V &&
      distTo.Length == graph.V && edgeTo.Length == graph.V && onQueue.Length == graph.V
    }

    ghost predicate Tree()
      reads this`stamp, this`clock, distTo, edgeTo
    {
      TreeInv(graph, source, distTo[..], edgeTo[..], stamp, clock)
    }

    /** Each edgeTo entry is an edge into its own vertex. */
    ghost predicate Linked()
      reads edgeTo
    {
      forall v :: 0 <= v < edgeTo.Length && edgeTo[v].Some? ==>
        0 <= edgeTo[v].value.from < edgeTo.Length && edgeTo[v].value.to == v
    }

    /** In the middle of relax(v): k edges of v done, the search has found nothing yet. */
    ghost predicate Relaxing(v: int, k: nat)
      reads this`stamp, this`clock, this`queue, distTo, edgeTo, onQueue
    {
      Sized() && Tree() && 0 <= v < graph.V && k <= |graph.adj[v]| && distTo[v].Fin? &&
      QueueInv(graph, distTo[..], onQueue[..], queue, v) &&
      RelaxedUpTo(graph, distTo[..], onQueue[..], v, k)
    }

    /** A found cycle is a negative cycle of the graph; without one the queue invariant holds. */
    ghost predicate Valid()
      reads this, distTo, edgeTo, onQueue
    {
      Sized() && Tree() &&
      (cycle.Some? ==> IsClosedWalk(graph, cycle.value) && Weight(cycle.value) < 0) &&
      (cycle.None? ==> QueueInv(graph, distTo[..], onQueue[..], queue, -1))
    }

    /** What check() asserts at the end of the constructor. */
    ghost predicate Check()
      reads this, distTo, edgeTo
      requires Sized()
    {
      if cycle.Some? then Weight(cycle.value) < 0 else Optimal(graph, source, distTo[..], edgeTo[..])
    }

    /**
     * The run from s. The loop stops when the queue empties or a negative cycle is found, as in
     * the source, and also after maxRounds dequeues; the queue is then left non-empty.
     */
    constructor (G: EdgeWeightedDigraph, s: int, maxRounds: nat)
      requires G.Valid() && 0 <= s < G.V
      ensures graph == G.Graph() && source == s && Valid()
      ensures cycle.Some? || queue == [] ==> Check()
    {
      graph := G.Graph();
      source := s;
      distTo := new Dist[G.V](_ => Inf);
      edgeTo := new Option<Edge>[G.V](_ => None);
      onQueue := new bool[G.V](_ => false);
      stamp := seq(G.V, _ => 0);
      clock := 1;
      cost := 0;
      cycle := None;
      queue := [];
      new;
      distTo[s] := Fin(0);
      queue := [s];
      onQueue[s] := true;
      InitKeeps(graph, s);
      assert distTo[..] == seq(graph.V, v => if v == s then Fin(0) else Inf);
      assert onQueue[..] == seq(graph.V, v => v == s);
      assert edgeTo[..] == seq(graph.V, _ => None);
      Rounds(G, maxRounds);
      if cycle.None? && queue == [] {
        ConvergedOptimal(graph, source, distTo[..], edgeTo[..], stamp, clock, onQueue[..]);
      }
    }

    /** The constructor's loop: at most maxRounds dequeues, while the queue is not empty and no cycle was found. */
    method Rounds(G: EdgeWeightedDigraph, maxRounds: nat)
      requires G.Valid() && graph == G.Graph() && Valid()
      modifies this, distTo, edgeTo, onQueue
      ensures Valid()
    {
      var rounds := 0;
      while queue != [] && cycle.None? && rounds < maxRounds
        invariant G.Valid() && graph == G.Graph()
        invariant Valid() && rounds <= maxRounds
        decreases maxRounds - rounds
      {
        Round(G);
        rounds := rounds + 1;
      }
    }

    /** One pass of the constructor's loop: v leaves the head of the queue and is relaxed. */
    method Round(G: EdgeWeightedDigraph)
      requires G.Valid() && graph == G.Graph() && Valid() && cycle.None? && queue != []
      modifies this, distTo, edgeTo, onQueue
      ensures Valid()
    {
      var v := queue[0];
      ghost var o0 := onQueue[..];
      DequeueKeeps(graph, distTo[..], o0, queue);
      queue := queue[1..];
      onQueue[v] := false;
      assert onQueue[..] == o0[v := false];
      Relax(G, v);
    }

    /** relax(G, v): lower the distance of every head that v improves, queueing it; search for a cycle every V edges. */
    method Relax(G: EdgeWeightedDigraph, v: int)
      requires G.Valid() && graph == G.Graph() && cycle.None? && Relaxing(v, 0)
      modifies this, distTo, edgeTo, onQueue
      ensures Valid()
      ensures forall u :: 0 <= u < graph.V ==> LessEq(distTo[u], old(distTo[u]))
    {
      var list := G.adj[v];
      assert list == graph.adj[v];
      var i := 0;
      while i < |list|
        invariant 0 <= i <= |list| && Relaxing(v, i) && cycle.None?
        invariant forall u :: 0 <= u < graph.V ==> LessEq(distTo[u], old(distTo[u]))
      {
        ghost var d0 := distTo[..];
        Examine(G, v, i);
        forall u | 0 <= u < graph.V ensures LessEq(distTo[u], old(distTo[u])) {
          LessIsStrictOrder(old(distTo[u]), d0[u], distTo[u]);
        }
        if cycle.Some? {
          return;
        }
        i := i + 1;
      }
      FinishKeeps(graph, distTo[..], onQueue[..], queue, v);
    }

    /**
     * One pass of the loop of relax(): edge i of v is relaxed, the cost counter goes up and,
     * every V edges, the predecessor graph is searched for a cycle.
     */
    method Examine(G: EdgeWeightedDigraph, v: int, i: nat)
      requires G.Valid() && graph == G.Graph() && cycle.None? && Relaxing(v, i) && i < |graph.adj[v]|
      modifies this, distTo, edgeTo, onQueue
      ensures cycle.None? ==> Relaxing(v, i + 1)
      ensures cycle.Some? ==> Valid()
      ensures forall u :: 0 <= u < graph.V ==> LessEq(distTo[u], old(distTo[u]))
    {
      assert G.adj[v] == graph.adj[v];
      var e := G.adj[v][i];
      if Less(Plus(distTo[v], e.weight), distTo[e.to]) {
        Improve(v, e, i);
      } else {
        SkipKeeps(graph, distTo[..], onQueue[..], v, i);
        forall u | 0 <= u < graph.V ensures LessEq(distTo[u], old(distTo[u])) {
          LessIsStrictOrder(distTo[u], distTo[u], distTo[u]);
        }
      }
      var c := cost;
      cost := cost + 1;
      if c % G.V == 0 {
        TreeLinked();
        FindNegativeCycle();
        if cycle.Some? {
          TreeCycleNegative(graph, source, distTo[..], edgeTo[..], stamp, clock, cycle.value);
        }
      }
    }

    /** The body of the test in relax(): e = v->w improves w, which gets e as edgeTo and goes on the queue. */
    method Improve(v: int, e: Edge, ghost k: nat)
      requires Relaxing(v, k) && k < |graph.adj[v]| && e == graph.adj[v][k]
      requires Less(Plus(distTo[v], e.weight), distTo[e.to])
      modifies this`stamp, this`clock, this`queue, distTo, edgeTo, onQueue
      ensures Relaxing(v, k + 1)
      ensures forall u :: 0 <= u < graph.V ==> LessEq(distTo[u], old(distTo[u]))
    {
      var w := e.to;
      assert e in graph.adj[v];
      ghost var d0, t0, o0, q0 := distTo[..], edgeTo[..], onQueue[..], queue;
      ghost var d1, t1, o1, q1 := d0[w := Plus(d0[v], e.weight)], t0[w := Some(e)], o0[w := true], if o0[w] then q0 else q0 + [w];
      ImproveKeepsTree(graph, source, d0, t0, stamp, clock, v, e);
      ImproveKeepsQueue(graph, d0, o0, q0, v, k);
      distTo[w] := Plus(distTo[v], e.weight);
      edgeTo[w] := Some(e);
      stamp := stamp[w := clock];
      clock := clock + 1;
      if !onQueue[w] {
        queue := queue + [w];
        onQueue[w] := true;
      }
      assert distTo[..] == d1;
      assert edgeTo[..] == t1;
      assert onQueue[..] == o1 && queue == q1;
    }

    /** findNegativeCycle(): build the predecessor graph from edgeTo and look for a cycle in it. */
    method FindNegativeCycle()
      requires Sized() && Linked()
      modifies this`cycle
      ensures cycle.Some? ==> ClosedTreeWalk(edgeTo[..], cycle.value)
      ensures cycle.None? <==> forall c :: !ClosedTreeWalk(edgeTo[..], c)
    {
      var spt := BuildSpt();
      var finder := new EdgeWeightedDirectedCycle(spt);
      cycle := finder.Cycle();
      SptCycle(spt.Graph(), edgeTo[..], cycle);
    }

    /** The predecessor graph: one edge edgeTo[v] for every vertex v that has one. */
    method BuildSpt() returns (spt: EdgeWeightedDigraph)
      requires Linked()
      ensures fresh(spt) && fresh(spt.adj) && spt.Valid() && spt.V == edgeTo.Length
      ensures SptBuilt(spt.Graph(), edgeTo[..], edgeTo.Length)
    {
      var V := edgeTo.Length;
      spt := new EdgeWeightedDigraph(V);
      var v := 0;
      while v < V
        invariant 0 <= v <= V && fresh(spt) && fresh(spt.adj) && fresh(spt.indegree)
        invariant spt.Valid() && spt.V == V
        invariant SptBuilt(spt.Graph(), edgeTo[..], v)
      {
        SptStep(spt.Graph(), edgeTo[..], v);
        if edgeTo[v].Some? {
          var o := spt.AddEdge(edgeTo[v].value);
        }
        v := v + 1;
      }
    }

    lemma TreeLinked()
      requires Sized() && Tree()
      ensures Linked()
    {
      forall v | 0 <= v < edgeTo.Length && edgeTo[v].Some?
        ensures 0 <= edgeTo[v].value.from < edgeTo.Length && edgeTo[v].value.to == v
      {
        assert TreeLink(graph, distTo[..], stamp, edgeTo[v].value, v);
      }
    }

    predicate HasNegativeCycle()
      reads this
      ensures HasNegativeCycle() <==> cycle.Some?
    {
      cycle.Some?
    }

    /** The negative cycle, or None. */
    function NegativeCycle(): (r: Option<seq<Edge>>)
      reads this, distTo, edgeTo, onQueue
      requires Valid()
      ensures r.Some? ==> IsClosedWalk(graph, r.value) && Weight(r.value) < 0
      ensures r.None? <==> !HasNegativeCycle()
    {
      cycle
    }

    /** validateVertex(v): vertex ids are [0, V). */
    function ValidateVertex(v: int): (r: Outcome<Error>)
      reads this
      ensures r.Pass? <==> 0 <= v < distTo.Length
      ensures r.Fail? ==> r.error == InvalidVertex(v)
    {
      if v < 0 || v >= distTo.Length then Fail(InvalidVertex(v)) else Pass
    }

    /** distTo(v): the length of a shortest path from the source, once the run has settled without a negative cycle. */
    function DistTo(v: int): (r: Result<Dist, Error>)
      reads this, distTo, edgeTo, onQueue
      requires Valid()
      ensures !(0 <= v < graph.V) ==> r == Failure(InvalidVertex(v))
      ensures 0 <= v < graph.V && cycle.Some? ==> r == Failure(NegativeCycleExists)
      ensures 0 <= v < graph.V && cycle.None? && queue != [] ==> r == Failure(NotConverged)
      ensures 0 <= v < graph.V && cycle.None? && queue == [] ==> r.Success?
      ensures r.Success? ==> forall c :: IsWalkFromTo(graph, c, source, v) ==> r.value.Fin? && r.value.d <= Weight(c)
      ensures r.Success? && r.value.Fin? ==> exists c :: IsWalkFromTo(graph, c, source, v) && Weight(c) == r.value.d
    {
      if ValidateVertex(v).Fail? then Failure(InvalidVertex(v))
      else if cycle.Some? then Failure(NegativeCycleExists)
      else if queue != [] then Failure(NotConverged)
      else
        ConvergedOptimal(graph, source, distTo[..], edgeTo[..], stamp, clock, onQueue[..]);
        Bounds(v);
        Success(distTo[v])
    }

    /** The two halves of "distTo is the shortest distance", for a settled run. */
    lemma Bounds(v: int)
      requires Valid() && cycle.None? && queue == [] && 0 <= v < graph.V
      ensures forall c :: IsWalkFromTo(graph, c, source, v) ==> distTo[v].Fin? && distTo[v].d <= Weight(c)
      ensures distTo[v].Fin? ==> exists c :: IsWalkFromTo(graph, c, source, v) && Weight(c) == distTo[v].d
    {
      ConvergedOptimal(graph, source, distTo[..], edgeTo[..], stamp, clock, onQueue[..]);
      forall c | IsWalkFromTo(graph, c, source, v) ensures distTo[v].Fin? && distTo[v].d <= Weight(c) {
        WalkBound(graph, source, distTo[..], edgeTo[..], c, v);
      }
      if distTo[v].Fin? {
        TreePathExists(graph, source, distTo[..], edgeTo[..], stamp, clock, v);
      }
    }

    /** hasPathTo(v): distTo[v] is finite; for a settled run, exactly when v is reachable from the source. */
    function HasPathTo(v: int): (r: Result<bool, Error>)
      reads this, distTo, edgeTo, onQueue
      requires Valid()
      ensures r.Success? <==> 0 <= v < graph.V
      ensures r.Failure? ==> r.error == InvalidVertex(v)
      ensures r.Success? ==> (r.value <==> distTo[v] != Inf)
      ensures r.Success? && cycle.None? && queue == [] ==>
                (r.value <==> exists c :: IsWalkFromTo(graph, c, source, v))
    {
      if ValidateVertex(v).Fail? then Failure(InvalidVertex(v))
      else if cycle.None? && queue == [] then
        Bounds(v);
        Success(distTo[v] != Inf)
      else Success(distTo[v] != Inf)
    }

    /** pathTo(v): the edgeTo chain back from v, pushed on a stack so that it reads from the source to v. */
    method PathTo(v: int) returns (r: Result<Option<seq<Edge>>, Error>)
      requires Valid()
      ensures !(0 <= v < graph.V) ==> r == Failure(InvalidVertex(v))
      ensures 0 <= v < graph.V && cycle.Some? ==> r == Failure(NegativeCycleExists)
      ensures 0 <= v < graph.V && cycle.None? && queue != [] ==> r == Failure(NotConverged)
      ensures 0 <= v < graph.V && cycle.None? && queue == [] ==> r.Success?
      ensures r.Success? ==> (r.value.None? <==> distTo[v] == Inf)
      ensures r.Success? && r.value.Some? ==>
                IsWalkFromTo(graph, r.value.value, source, v) && distTo[v] == Fin(Weight(r.value.value))
    {
      if ValidateVertex(v).Fail? {
        return Failure(InvalidVertex(v));
      }
      if cycle.Some? {
        return Failure(NegativeCycleExists);
      }
      if queue != [] {
        return Failure(NotConverged);
      }
      if distTo[v] == Inf {
        return Success(None);
      }
      ConvergedOptimal(graph, source, distTo[..], edgeTo[..], stamp, clock, onQueue[..]);
      var path: seq<Edge> := [];
      var x := v;
      while edgeTo[x].Some?
        invariant 0 <= x < graph.V && distTo[x].Fin?
        invariant IsWalkFromTo(graph, path, x, v)
        invariant Weight(path) == distTo[v].d - distTo[x].d
        decreases stamp[x]
      {
        var e := edgeTo[x].value;
        assert TreeLink(graph, distTo[..], stamp, e, x) && Tight(graph, distTo[..], e, x);
        WalkPrepend(graph, e, path, v);
        path := [e] + path;
        x := e.from;
      }
      return Success(Some(path));
    }
  }

  /** A found cycle certifies a negative cycle; otherwise a drained queue certifies the optimality conditions. */
  lemma CheckHolds(b: BellmanFordSP)
    requires b.Valid() && (b.cycle.Some? || b.queue == [])
    ensures b.Check()
  {
    if b.cycle.None? {
      ConvergedOptimal(b.graph, b.source, b.distTo[..], b.edgeTo[..], b.stamp, b.clock, b.onQueue[..]);
    }
  }
}
