/** The mutable edge-weighted digraph: one adjacency list per vertex, indegrees and an edge count. */
module Digraphs {
  import opened Common
  import opened DirectedEdges
  import opened Walks
  import opened Bags

  /** `s` back to front. */
  function Reversed(s: seq<Edge>): (r: seq<Edge>)
    ensures |r| == |s|
    ensures forall i :: 0 <= i < |s| ==> r[i] == s[|s| - 1 - i]
  {
    if s == [] then [] else [s[|s| - 1]] + Reversed(s[..|s| - 1])
  }

  /** A list whose first and last edges differ is not its own reverse. */
  lemma ReversedChangesOrder(s: seq<Edge>)
    requires |s| >= 2 && s[0] != s[|s| - 1]
    ensures Reversed(s) != s
  {
    assert Reversed(s)[0] == s[|s| - 1];
  }

  lemma ReversedMembers(s: seq<Edge>)
    ensures forall x :: x in Reversed(s) <==> x in s
  {
    forall x ensures x in Reversed(s) <==> x in s {
      if x in s {
        var i :| 0 <= i < |s| && s[i] == x;
        assert Reversed(s)[|s| - 1 - i] == x;
      }
      if x in Reversed(s) {
        var j :| 0 <= j < |s| && Reversed(s)[j] == x;
        assert s[|s| - 1 - j] == x;
      }
    }
  }

  /** The input that shows it: vertex 0 with edges 0->1 then 0->2. */
  lemma CopyReversesTwoEdges()
    ensures Reversed([Edge(0, 1, 1), Edge(0, 2, 1)]) == [Edge(0, 2, 1), Edge(0, 1, 1)]
  {
  }

  lemma FlattenAddAt(adj: seq<seq<Edge>>, v: nat, e: Edge, w: int)
    requires v < |adj|
    ensures |Flatten(adj[v := adj[v] + [e]])| == |Flatten(adj)| + 1
    ensures InCount(Flatten(adj[v := adj[v] + [e]]), w) == InCount(Flatten(adj), w) + (if e.to == w then 1 else 0)
  {
    var adj' := adj[v := adj[v] + [e]];
    FlattenSplit(adj, v);
    FlattenSplit(adj', v);
    assert adj'[..v] == adj[..v] && adj'[v + 1..] == adj[v + 1..];
    var pre, post := Flatten(adj[..v]), Flatten(adj[v + 1..]);
    InCountAppend(pre + adj[v], post, w);
    InCountAppend(pre, adj[v], w);
    assert Flatten(adj') == (pre + (adj[v] + [e])) + post;
    InCountAppend(pre + (adj[v] + [e]), post, w);
    InCountAppend(pre, adj[v] + [e], w);
    InCountAppend(adj[v], [e], w);
    assert [e][..0] == [];
  }

  class EdgeWeightedDigraph {
    const V: nat
    var E: int
    const adj: array<seq<Edge>>
    const indegree: array<int>

    ghost predicate Valid()
      reads this, adj
    {
      adj.Length == V && indegree.Length == V && WellFormed(Graph())
    }

    /** The graph as a value: V and the adjacency lists. */
    function Graph(): Digraph
      reads this, adj
    {
      Digraph(V, adj[..])
    }

    /** E is the number of stored edges and indegree[w] the number pointing at w (kept by addEdge only). */
    ghost predicate Counted()
      reads this, adj, indegree
      requires Valid()
    {
      CountedOf(adj[..], indegree[..], E)
    }

    constructor (V: nat)
      ensures Valid() && Counted() && fresh(adj) && fresh(indegree)
      ensures this.V == V && E == 0
      ensures forall v :: 0 <= v < V ==> adj[v] == [] && indegree[v] == 0
    {
      this.V := V;
      E := 0;
      indegree := new int[V](_ => 0);
      adj := new seq<Edge>[V](_ => []);
      new;
      FlattenEmpties(adj[..]);
    }

    /** `new EdgeWeightedDigraph(V)`, with the exception for a negative vertex count. */
    static method Create(V: int) returns (r: Result<EdgeWeightedDigraph, Error>)
      ensures r.Success? <==> V >= 0
      ensures r.Failure? ==> r.error == InvalidArgument
      ensures r.Success? ==> fresh(r.value) && fresh(r.value.adj) && fresh(r.value.indegree)
      ensures r.Success? ==> r.value.Valid() && r.value.Counted() && r.value.V == V && r.value.E == 0
      ensures r.Success? ==> forall v :: 0 <= v < V ==> r.value.adj[v] == []
    {
      if V < 0 {
        return Failure(InvalidArgument);
      }
      var g := new EdgeWeightedDigraph(V);
      return Success(g);
    }

    /** The copy constructor as written: each list goes through a LIFO stack and comes out reversed. */
    constructor CopyOf(G: EdgeWeightedDigraph)
      requires G.Valid()
      ensures Valid() && fresh(adj) && fresh(indegree)
      ensures V == G.V && E == G.E && indegree[..] == G.indegree[..]
      ensures forall v :: 0 <= v < V ==> adj[v] == Reversed(G.adj[v])
    {
      var a := new seq<Edge>[G.V](_ => []);
      var d := new int[G.V](_ => 0);
      for v := 0 to G.V
        invariant forall u :: 0 <= u < v ==> d[u] == G.indegree[u]
        invariant forall u :: 0 <= u < G.V ==> a[u] == []
      {
        d[v] := G.indegree[v];
      }
      for v := 0 to G.V
        invariant forall u :: 0 <= u < v ==> a[u] == Reversed(G.adj[u])
        invariant forall u :: v <= u < G.V ==> a[u] == []
        invariant forall u :: 0 <= u < G.V ==> d[u] == G.indegree[u]
      {
        var reverse: seq<Edge> := [];
        var list := G.adj[v];
        for i := 0 to |list|
          invariant reverse == Reversed(list[..i])
        {
          assert list[..i + 1][..i] == list[..i];
          reverse := [list[i]] + reverse;
        }
        assert list[..|list|] == list;
        ghost var a0 := a[..];
        for i := 0 to |reverse|
          invariant a[v] == reverse[..i]
          invariant forall u :: 0 <= u < G.V && u != v ==> a[u] == a0[u]
          invariant forall u :: 0 <= u < G.V ==> d[u] == G.indegree[u]
        {
          assert reverse[..i + 1] == reverse[..i] + [reverse[i]];
          a[v] := a[v] + [reverse[i]];
        }
        assert reverse[..|reverse|] == reverse;
      }
      V := G.V;
      E := G.E;
      adj := a;
      indegree := d;
      new;
      forall v | 0 <= v < V {
        ReversedMembers(G.adj[v]);
      }
    }

    /** The copy the comment promises: each list copied in its original order. */
    constructor CopyInOrder(G: EdgeWeightedDigraph)
      requires G.Valid()
      ensures Valid() && fresh(adj) && fresh(indegree)
      ensures V == G.V && E == G.E && indegree[..] == G.indegree[..]
      ensures adj[..] == G.adj[..]
      ensures G.Counted() ==> Counted()
    {
      var a := new seq<Edge>[G.V](_ => []);
      var d := new int[G.V](_ => 0);
      for v := 0 to G.V
        invariant forall u :: 0 <= u < v ==> d[u] == G.indegree[u]
        invariant forall u :: 0 <= u < G.V ==> a[u] == []
      {
        d[v] := G.indegree[v];
      }
      for v := 0 to G.V
        invariant forall u :: 0 <= u < v ==> a[u] == G.adj[u]
        invariant forall u :: v <= u < G.V ==> a[u] == []
        invariant forall u :: 0 <= u < G.V ==> d[u] == G.indegree[u]
      {
        var list := G.adj[v];
        ghost var a0 := a[..];
        for i := 0 to |list|
          invariant a[v] == list[..i]
          invariant forall u :: 0 <= u < G.V && u != v ==> a[u] == a0[u]
          invariant forall u :: 0 <= u < G.V ==> d[u] == G.indegree[u]
        {
          assert list[..i + 1] == list[..i] + [list[i]];
          a[v] := a[v] + [list[i]];
        }
        assert list[..|list|] == list;
      }
      V := G.V;
      E := G.E;
      adj := a;
      indegree := d;
      new;
      assert adj[..] == G.adj[..];
    }

    /** validateVertex: the vertex must lie in [0, V). */
    function ValidateVertex(v: int): (r: Outcome<Error>)
      ensures r.Pass? <==> 0 <= v < V
      ensures r.Fail? ==> r.error == InvalidVertex(v)
    {
      if v < 0 || v >= V then Fail(InvalidVertex(v)) else Pass
    }

    /** Validates both endpoints, then appends `e` to adj[from], counts it at `to` and in E. */
    method AddEdge(e: Edge) returns (o: Outcome<Error>)
      requires Valid()
      modifies this, adj, indegree
      ensures Valid()
      ensures o.Pass? <==> 0 <= e.from < V && 0 <= e.to < V
      ensures o.Fail? ==> o.error == InvalidVertex(if 0 <= e.from < V then e.to else e.from)
      ensures o.Fail? ==> E == old(E) && adj[..] == old(adj[..]) && indegree[..] == old(indegree[..])
      ensures o.Pass? ==> adj[..] == old(adj[..])[e.from := old(adj[e.from]) + [e]]
      ensures o.Pass? ==> indegree[..] == old(indegree[..])[e.to := old(indegree[e.to]) + 1]
      ensures o.Pass? ==> E == old(E) + 1
      ensures old(Counted()) ==> Counted()
    {
      var v, w := e.from, e.to;
      o := ValidateVertex(v);
      if o.Fail? {
        return;
      }
      o := ValidateVertex(w);
      if o.Fail? {
        return;
      }
      ghost var before, degrees := adj[..], indegree[..];
      AddKeepsWellFormed(Graph(), e);
      if Counted() {
        AddKeepsCounted(before, degrees, E, e);
      }
      adj[v] := adj[v] + [e];
      indegree[w] := indegree[w] + 1;
      E := E + 1;
      assert adj[..] == before[v := before[v] + [e]];
      assert indegree[..] == degrees[w := degrees[w] + 1];
    }

    /** Every edge equal to `e` leaves adj[e.from]; E and the indegrees are left as they were. */
    method DeleteEdge(e: Edge)
      requires Valid()
      modifies adj
      ensures Valid()
      ensures adj[..] == if HasEdge(old(Graph()), e)
                         then old(adj[..])[e.from := Removed(old(adj[e.from]), e)]
                         else old(adj[..])
    {
      var list := Edges();
      ghost var before := adj[..];
      ghost var target := if HasEdge(Graph(), e) then before[e.from := Removed(before[e.from], e)] else before;
      FlattenHasEdge(Graph(), e);
      RemovedKeepsWellFormed(Graph(), e);
      var i := 0;
      ghost var found := false;
      while i < |list|
        invariant 0 <= i <= |list|
        invariant found <==> exists j :: 0 <= j < i && list[j] == e
        invariant adj[..] == if found then target else before
      {
        if list[i] == e {
          ghost var current := adj[..];
          RemoveAgain(before, e.from, e);
          adj[e.from] := Removed(adj[e.from], e);
          assert adj[..] == current[e.from := Removed(current[e.from], e)];
          found := true;
        }
        i := i + 1;
      }
    }

    /** adj(v): the list of edges leaving v, or the exception for an invalid vertex. */
    function Adj(v: int): (r: Result<seq<Edge>, Error>)
      reads this, adj
      requires Valid()
      ensures r.Success? <==> 0 <= v < V
      ensures r.Failure? ==> r.error == InvalidVertex(v)
      ensures r.Success? ==> forall e :: e in r.value <==> e.from == v && HasEdge(Graph(), e)
    {
      if ValidateVertex(v).Fail? then Failure(InvalidVertex(v)) else Success(adj[v])
    }

    function Outdegree(v: int): (r: Result<nat, Error>)
      reads this, adj
      requires Valid()
      ensures r.Success? <==> 0 <= v < V
      ensures r.Failure? ==> r.error == InvalidVertex(v)
      ensures r.Success? ==> r.value == |Adj(v).value|
    {
      if ValidateVertex(v).Fail? then Failure(InvalidVertex(v)) else Success(|adj[v]|)
    }

    function Indegree(v: int): (r: Result<int, Error>)
      reads this, adj, indegree
      requires Valid()
      ensures r.Success? <==> 0 <= v < V
      ensures r.Failure? ==> r.error == InvalidVertex(v)
      ensures r.Success? && Counted() ==> r.value == InCount(Flatten(adj[..]), v)
    {
      if ValidateVertex(v).Fail? then Failure(InvalidVertex(v)) else Success(indegree[v])
    }

    /** All edges, vertex 0 first and each list in insertion order. */
    method Edges() returns (list: seq<Edge>)
      requires Valid()
      ensures list == Flatten(adj[..])
      ensures forall e :: e in list <==> HasEdge(Graph(), e)
    {
      list := [];
      for v := 0 to V
        invariant list == Flatten(adj[..v])
      {
        var l := adj[v];
        for i := 0 to |l|
          invariant list == Flatten(adj[..v]) + l[..i]
        {
          assert l[..i + 1] == l[..i] + [l[i]];
          list := list + [l[i]];
        }
        assert l[..|l|] == l;
        assert adj[..v + 1][..v] == adj[..v];
      }
      assert adj[..V] == adj[..];
      forall e ensures e in list <==> HasEdge(Graph(), e) {
        FlattenHasEdge(Graph(), e);
      }
    }

    /** The same sequence as edges(), copied into a fresh list. */
    method EdgesAsArray() returns (tmp: seq<Edge>)
      requires Valid()
      ensures tmp == Flatten(adj[..])
    {
      var list := Edges();
      tmp := [];
      for i := 0 to |list|
        invariant tmp == list[..i]
      {
        assert list[..i + 1] == list[..i] + [list[i]];
        tmp := tmp + [list[i]];
      }
      assert list[..|list|] == list;
    }

    /** `getAdg()[v].clear()`: empties one adjacency list through the exposed array. */
    method ClearAdj(v: int)
      requires Valid() && 0 <= v < V
      modifies adj
      ensures Valid()
      ensures adj[..] == old(adj[..])[v := []]
    {
      adj[v] := [];
    }
  }

  lemma {:induction false} FlattenEmpties(adj: seq<seq<Edge>>)
    requires forall v :: 0 <= v < |adj| ==> adj[v] == []
    ensures Flatten(adj) == []
  {
    if adj != [] {
      FlattenEmpties(adj[..|adj| - 1]);
    }
  }

  /** E is the number of stored edges and indegree[w] the number of them pointing at w. */
  ghost predicate CountedOf(adj: seq<seq<Edge>>, indegree: seq<int>, E: int)
  {
    |indegree| == |adj| && E == |Flatten(adj)| &&
    forall w :: 0 <= w < |adj| ==> indegree[w] == InCount(Flatten(adj), w)
  }

  lemma AddKeepsCounted(adj: seq<seq<Edge>>, indegree: seq<int>, E: int, e: Edge)
    requires CountedOf(adj, indegree, E) && 0 <= e.from < |adj| && 0 <= e.to < |adj|
    ensures CountedOf(adj[e.from := adj[e.from] + [e]], indegree[e.to := indegree[e.to] + 1], E + 1)
  {
    forall x | 0 <= x < |adj|
      ensures InCount(Flatten(adj[e.from := adj[e.from] + [e]]), x) == InCount(Flatten(adj), x) + (if e.to == x then 1 else 0)
    {
      FlattenAddAt(adj, e.from, e, x);
    }
    FlattenAddAt(adj, e.from, e, 0);
  }

  lemma AddKeepsWellFormed(g: Digraph, e: Edge)
    requires WellFormed(g) && 0 <= e.from < g.V && 0 <= e.to < g.V
    ensures WellFormed(Digraph(g.V, g.adj[e.from := g.adj[e.from] + [e]]))
  {
  }

  /** Removing the same edge from list v a second time changes nothing. */
  lemma RemoveAgain(adj: seq<seq<Edge>>, v: int, e: Edge)
    requires 0 <= v < |adj|
    ensures var t := adj[v := Removed(adj[v], e)]; t[v := Removed(t[v], e)] == t
  {
    RemovedIdempotent(adj[v], e);
  }

  /** Removing edges from one list keeps the graph well formed. */
  lemma RemovedKeepsWellFormed(g: Digraph, e: Edge)
    requires WellFormed(g)
    ensures WellFormed(Digraph(g.V, if HasEdge(g, e) then g.adj[e.from := Removed(g.adj[e.from], e)] else g.adj))
  {
    if HasEdge(g, e) {
      RemovedSpec(g.adj[e.from], e);
    }
  }

  /** While only addEdge is used, the indegrees add up to E. */
  lemma IndegreesSumToE(g: EdgeWeightedDigraph)
    requires g.Valid() && g.Counted()
    ensures InCountSum(Flatten(g.adj[..]), g.V) == g.E
  {
    var list := Flatten(g.adj[..]);
    forall e | e in list ensures 0 <= e.to < g.V {
      FlattenHasEdge(g.Graph(), e);
    }
    InCountSumIsLength(list, g.V);
  }
}
