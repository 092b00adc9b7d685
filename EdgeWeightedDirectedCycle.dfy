/** Depth-first search that either finds a directed cycle or certifies that there is none. */
module DirectedCycles {
  import opened Common
  import opened DirectedEdges
  import opened Walks
  import opened Digraphs

  /** A rank that strictly drops along every edge rules out closed walks. */
  ghost predicate RankDrops(g: Digraph, rank: map<int, nat>)
  {
    forall e :: HasEdge(g, e) ==> e.from in rank && e.to in rank && rank[e.to] < rank[e.from]
  }

  lemma {:induction false} RankDropsAlongWalk(g: Digraph, rank: map<int, nat>, c: seq<Edge>)
    requires RankDrops(g, rank) && IsWalk(g, c) && |c| > 0
    ensures c[0].from in rank && c[|c| - 1].to in rank && rank[c[|c| - 1].to] < rank[c[0].from]
  {
    if |c| > 1 {
      var init := c[..|c| - 1];
      assert IsWalk(g, init);
      RankDropsAlongWalk(g, rank, init);
      assert HasEdge(g, c[|c| - 1]);
    } else {
      assert HasEdge(g, c[0]);
    }
  }

  lemma RankDropsNoCycle(g: Digraph, rank: map<int, nat>)
    requires RankDrops(g, rank)
    ensures forall c :: !IsClosedWalk(g, c)
  {
    forall c | IsClosedWalk(g, c) ensures false {
      RankDropsAlongWalk(g, rank, c);
    }
  }

  /** An edge into the start of a walk extends it at the front. */
  lemma WalkCons(g: Digraph, f: Edge, c: seq<Edge>)
    requires HasEdge(g, f) && IsWalk(g, c) && |c| > 0 && f.to == c[0].from
    ensures IsWalk(g, [f] + c) && ([f] + c)[|c|] == c[|c| - 1]
  {
    assert forall x :: 0 <= x < |c| ==> ([f] + c)[x + 1] == c[x];
  }

  /** `e` is the tree edge from u into v. */
  ghost predicate TreeEdge(g: Digraph, e: Option<Edge>, u: int, v: int)
  {
    e.Some? && HasEdge(g, e.value) && e.value.from == u && e.value.to == v
  }

  /** The certificate that check() tests: consecutive edges incident, the last returning to the first. */
  ghost predicate Incident(c: seq<Edge>)
  {
    |c| > 0 && Chained(c) && c[|c| - 1].to == c[0].from
  }

  /** Every finished vertex has all its out-neighbours finished earlier. */
  ghost predicate Done(g: Digraph, finish: map<int, nat>, u: int)
    requires u in finish && 0 <= u < |g.adj|
  {
    forall e :: e in g.adj[u] ==> e.to in finish && finish[e.to] < finish[u]
  }

  /**
   * The state of the search while no cycle has been found: `path` is the DFS stack (exactly the
   * vertices on the stack, linked by their edgeTo edges) and every marked vertex off the stack is
   * finished after all its out-neighbours.
   */
  ghost predicate Search(g: Digraph, marked: seq<bool>, onStack: seq<bool>, edgeTo: seq<Option<Edge>>,
                         path: seq<int>, finish: map<int, nat>, time: nat)
  {
    WellFormed(g) && |marked| == g.V && |onStack| == g.V && |edgeTo| == g.V &&
    (forall i :: 0 <= i < |path| ==> 0 <= path[i] < g.V && marked[path[i]]) &&
    (forall u :: 0 <= u < g.V ==> (onStack[u] <==> u in path)) &&
    (forall i :: 0 < i < |path| ==> TreeEdge(g, edgeTo[path[i]], path[i - 1], path[i])) &&
    (forall u :: u in finish ==> 0 <= u < g.V && marked[u] && !onStack[u] && finish[u] < time) &&
    (forall u :: 0 <= u < g.V && marked[u] && !onStack[u] ==> u in finish && Done(g, finish, u))
  }

  /** Entering v: it is marked and pushed on the stack. */
  lemma SearchEnter(g: Digraph, marked: seq<bool>, onStack: seq<bool>, edgeTo: seq<Option<Edge>>,
                    path: seq<int>, finish: map<int, nat>, time: nat, v: int)
    requires Search(g, marked, onStack, edgeTo, path, finish, time)
    requires 0 <= v < g.V && !marked[v]
    requires path != [] ==> TreeEdge(g, edgeTo[v], path[|path| - 1], v)
    ensures Search(g, marked[v := true], onStack[v := true], edgeTo, path + [v], finish, time)
  {
    var p := path + [v];
    assert forall i :: 0 <= i < |path| ==> p[i] == path[i];
    forall u | 0 <= u < g.V ensures (onStack[v := true][u] <==> u in p) {
      assert u in p <==> u in path || u == v;
    }
  }

  /** Recording the tree edge into an unmarked vertex. */
  lemma SearchTreeEdge(g: Digraph, marked: seq<bool>, onStack: seq<bool>, edgeTo: seq<Option<Edge>>,
                       path: seq<int>, finish: map<int, nat>, time: nat, w: int, e: Edge)
    requires Search(g, marked, onStack, edgeTo, path, finish, time)
    requires 0 <= w < g.V && !marked[w]
    ensures Search(g, marked, onStack, edgeTo[w := Some(e)], path, finish, time)
  {
    assert w !in path;
  }

  /** Leaving v once all its out-neighbours are finished: it is popped and finished now. */
  lemma SearchLeave(g: Digraph, marked: seq<bool>, onStack: seq<bool>, edgeTo: seq<Option<Edge>>,
                    path: seq<int>, finish: map<int, nat>, time: nat, v: int)
    requires Search(g, marked, onStack, edgeTo, path + [v], finish, time)
    requires 0 <= v < g.V && v !in path
    requires forall e :: e in g.adj[v] ==> e.to in finish
    ensures Search(g, marked, onStack[v := false], edgeTo, path, finish[v := time], time + 1)
  {
    var p := path + [v];
    assert forall i :: 0 <= i < |path| ==> p[i] == path[i];
    var f := finish[v := time];
    assert p[|path|] == v && onStack[v] && marked[v];
    assert v !in finish;
    forall u | 0 <= u < g.V ensures (onStack[v := false][u] <==> u in path) {
      assert u in p <==> u in path || u == v;
    }
    forall u | u in f ensures 0 <= u < g.V && marked[u] && !onStack[v := false][u] && f[u] < time + 1 {
    }
    forall u | 0 <= u < g.V && marked[u] && !onStack[v := false][u] ensures u in f && Done(g, f, u) {
      if u != v {
        assert Done(g, finish, u);
      } else {
        forall e | e in g.adj[v] ensures e.to in f && f[e.to] < f[v] {
          assert e.to in finish && e.to != v;
        }
      }
    }
  }

  ghost function UnmarkedOf(m: seq<bool>): set<int>
  {
    set u | 0 <= u < |m| && !m[u]
  }

  /** Marking only ever adds vertices, so the unmarked set shrinks; it shrinks strictly once v is marked. */
  lemma UnmarkedShrinks(m0: seq<bool>, m: seq<bool>, v: int)
    requires |m0| == |m| && forall u :: 0 <= u < |m| && m0[u] ==> m[u]
    requires 0 <= v < |m| && !m0[v] && m[v]
    ensures UnmarkedOf(m) < UnmarkedOf(m0)
  {
    assert v in UnmarkedOf(m0) - UnmarkedOf(m);
  }

  class EdgeWeightedDirectedCycle {
    const marked: array<bool>
    const edgeTo: array<Option<Edge>>
    const onStack: array<bool>
    var cycle: Option<seq<Edge>>
    /** The graph searched, as a value. */
    ghost const graph: Digraph
    /** The vertices on the DFS stack, oldest first. */
    ghost var path: seq<int>
    /** Postorder rank of each finished vertex, and the next rank to hand out. */
    ghost var finish: map<int, nat>
    ghost var time: nat

    ghost predicate Sized(g: Digraph)
      reads this
    {
      WellFormed(g) && marked.Length == g.V && onStack.Length == g.V && edgeTo.Length == g.V && marked != onStack
    }

    ghost function Unmarked(): set<int>
      reads this, marked
    {
      UnmarkedOf(marked[..])
    }

    ghost predicate Inv(g: Digraph)
      reads this, marked, onStack, edgeTo
    {
      Sized(g) &&
      (cycle.Some? ==> IsClosedWalk(g, cycle.value)) &&
      (cycle.None? ==> Search(g, marked[..], onStack[..], edgeTo[..], path, finish, time))
    }

    /** After construction: every vertex marked, and a cycle exactly when the graph has one. */
    ghost predicate Valid()
      reads this, marked, onStack, edgeTo
    {
      Inv(graph) &&
      (forall v :: 0 <= v < graph.V ==> marked[v]) &&
      (cycle.None? ==> forall c :: !IsClosedWalk(graph, c))
    }

    constructor (G: EdgeWeightedDigraph)
      requires G.Valid()
      ensures Valid() && graph == G.Graph()
    {
      var g := G.Graph();
      graph := g;
      marked := new bool[G.V](_ => false);
      onStack := new bool[G.V](_ => false);
      edgeTo := new Option<Edge>[G.V](_ => None);
      cycle := None;
      path := [];
      finish := map[];
      time := 0;
      new;
      for v := 0 to G.V
        invariant Inv(g)
        invariant forall u :: 0 <= u < v ==> marked[u]
        invariant cycle.None? ==> path == []
      {
        if !marked[v] {
          Dfs(g, v);
        }
      }
      if cycle.None? {
        forall e | HasEdge(g, e) ensures e.from in finish && e.to in finish && finish[e.to] < finish[e.from] {
          assert Done(g, finish, e.from);
        }
        RankDropsNoCycle(g, finish);
      }
    }

    /** dfs(G, v): marks v, explores its out-edges in list order, and stops as soon as a cycle is known. */
    method Dfs(g: Digraph, v: int)
      requires Inv(g) && 0 <= v < g.V && !marked[v]
      requires cycle.None? && path != [] ==> TreeEdge(g, edgeTo[v], path[|path| - 1], v)
      modifies this, marked, onStack, edgeTo
      decreases Unmarked(), 0
      ensures Inv(g) && marked[v]
      ensures forall u :: 0 <= u < g.V && old(marked[u]) ==> marked[u]
      ensures old(cycle).Some? ==> cycle == old(cycle)
      ensures cycle.None? ==> path == old(path) && (forall u :: u in old(finish) ==> u in finish)
    {
      Enter(g, v);
      var list := g.adj[v];
      var i := 0;
      ghost var targets: set<int> := {};
      while i < |list|
        invariant 0 <= i <= |list|
        invariant Inv(g) && marked[v]
        invariant forall u :: 0 <= u < g.V && old(marked[u]) ==> marked[u]
        invariant old(cycle).Some? ==> cycle == old(cycle)
        invariant cycle.None? ==> path == old(path) + [v] && (forall u :: u in old(finish) ==> u in finish)
        invariant forall j :: 0 <= j < i ==> list[j].to in targets
        invariant cycle.None? ==> forall t :: t in targets ==> t in finish
      {
        if cycle.Some? {
          return;
        }
        UnmarkedShrinks(old(marked[..]), marked[..], v);
        Visit(g, v, list[i]);
        targets := targets + {list[i].to};
        i := i + 1;
      }
      Leave(g, v, old(path), targets);
    }

    /** The start of dfs: v goes on the stack and is marked. */
    method Enter(g: Digraph, v: int)
      requires Inv(g) && 0 <= v < g.V && !marked[v]
      requires cycle.None? && path != [] ==> TreeEdge(g, edgeTo[v], path[|path| - 1], v)
      modifies this, marked, onStack
      ensures Inv(g) && marked[..] == old(marked[..])[v := true] && onStack[v]
      ensures cycle == old(cycle) && finish == old(finish)
      ensures cycle.None? ==> path == old(path) + [v] && v !in old(path)
    {
      if cycle.None? {
        SearchEnter(g, marked[..], onStack[..], edgeTo[..], path, finish, time, v);
        path := path + [v];
      }
      onStack[v] := true;
      marked[v] := true;
    }

    /** The end of dfs: v leaves the stack; while no cycle is known, it is finished now. */
    method Leave(g: Digraph, v: int, ghost p: seq<int>, ghost targets: set<int>)
      requires Inv(g) && 0 <= v < g.V && marked[v]
      requires cycle.None? ==> path == p + [v] && v !in p && forall t :: t in targets ==> t in finish
      requires forall e :: e in g.adj[v] ==> e.to in targets
      modifies this, onStack
      ensures Inv(g) && marked[v] && cycle == old(cycle)
      ensures cycle.None? ==> path == p && (forall u :: u in old(finish) ==> u in finish)
    {
      if cycle.None? {
        SearchLeave(g, marked[..], onStack[..], edgeTo[..], p, finish, time, v);
        path := p;
        finish := finish[v := time];
        time := time + 1;
      }
      onStack[v] := false;
    }

    /** One turn of dfs's loop over adj(v) before a cycle is known: recur into a new vertex, or trace back a cycle. */
    method Visit(g: Digraph, v: int, e: Edge)
      requires Inv(g) && cycle.None? && 0 <= v < g.V && marked[v] && e in g.adj[v]
      requires |path| > 0 && path[|path| - 1] == v
      modifies this, marked, onStack, edgeTo
      decreases Unmarked(), 1
      ensures Inv(g)
      ensures forall u :: 0 <= u < g.V && old(marked[u]) ==> marked[u]
      ensures cycle.None? ==> path == old(path) && (forall u :: u in old(finish) ==> u in finish) && e.to in finish
    {
      var w := e.to;
      assert HasEdge(g, e);
      if !marked[w] {
        SearchTreeEdge(g, marked[..], onStack[..], edgeTo[..], path, finish, time, w, e);
        edgeTo[w] := Some(e);
        Dfs(g, w);
      } else if onStack[w] {
        TraceBack(g, e);
      }
    }

    /** Follows edgeTo back from the closing edge `e` to its target, pushing each edge. */
    method TraceBack(g: Digraph, e: Edge)
      requires Inv(g) && cycle.None? && |path| > 0 && HasEdge(g, e)
      requires e.from == path[|path| - 1] && e.to in path
      modifies this
      ensures Inv(g) && cycle.Some?
    {
      var w := e.to;
      ghost var j :| 0 <= j < |path| && path[j] == w;
      var c: seq<Edge> := [];
      var f := e;
      ghost var k := |path| - 1;
      while f.from != w
        invariant unchanged(this)
        invariant j <= k < |path| && f.from == path[k]
        invariant HasEdge(g, f) && IsWalk(g, [f] + c) && ([f] + c)[|c|].to == w
        decreases k
      {
        assert TreeEdge(g, edgeTo[path[k]], path[k - 1], path[k]);
        var f' := edgeTo[f.from].value;
        c := [f] + c;
        WalkCons(g, f', c);
        f := f';
        k := k - 1;
      }
      cycle := Some([f] + c);
    }

    predicate HasCycle()
      reads this
      ensures HasCycle() <==> cycle.Some?
    {
      cycle.Some?
    }

    /** The cycle in walk order, or None when the graph is acyclic. */
    function Cycle(): (r: Option<seq<Edge>>)
      reads this, marked, onStack, edgeTo
      requires Valid()
      ensures r.Some? ==> IsClosedWalk(graph, r.value)
      ensures r.None? <==> forall c :: !IsClosedWalk(graph, c)
    {
      cycle
    }

    /** check(): walks the cycle, comparing each edge's start with the previous edge's end, then closes the loop. */
    method Check() returns (ok: bool)
      requires cycle.Some? ==> |cycle.value| > 0
      ensures ok <==> cycle.None? || Incident(cycle.value)
    {
      if cycle.None? {
        return true;
      }
      var c := cycle.value;
      var first: Option<Edge> := None;
      var last: Option<Edge> := None;
      for i := 0 to |c|
        invariant i == 0 <==> first.None?
        invariant i == 0 <==> last.None?
        invariant i > 0 ==> first.value == c[0] && last.value == c[i - 1]
        invariant Chained(c[..i])
      {
        if first.None? {
          first := Some(c[i]);
        }
        if last.Some? {
          if last.value.to != c[i].from {
            assert !Chained(c);
            return false;
          }
        }
        last := Some(c[i]);
      }
      assert c[..|c|] == c;
      if last.value.to != first.value.from {
        return false;
      }
      return true;
    }
  }

  /** The certificate holds after construction. */
  lemma CheckHolds(d: EdgeWeightedDirectedCycle)
    requires d.Valid()
    ensures d.cycle.None? || Incident(d.cycle.value)
  {
  }
}
