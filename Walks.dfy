/** The value of an edge-weighted digraph, and walks in it. The algorithms read the graph as this value. */
module Walks {
  import opened Common
  import opened DirectedEdges

  /** `adj[v]` is the adjacency list of vertex v, in insertion order. */
  datatype Digraph = Digraph(V: nat, adj: seq<seq<Edge>>)

  /** Every stored edge sits in the list of its own `from` vertex and points inside [0, V). */
  ghost predicate WellFormed(g: Digraph)
  {
    |g.adj| == g.V &&
    forall v :: 0 <= v < g.V ==> forall e :: e in g.adj[v] ==> e.from == v && 0 <= e.to < g.V
  }

  predicate HasEdge(g: Digraph, e: Edge)
  {
    0 <= e.from < |g.adj| && e in g.adj[e.from]
  }

  ghost predicate Chained(c: seq<Edge>)
  {
    forall i :: 0 <= i < |c| - 1 ==> c[i].to == c[i + 1].from
  }

  /** A sequence of edges of g, each ending where the next begins. */
  ghost predicate IsWalk(g: Digraph, c: seq<Edge>)
  {
    (forall i :: 0 <= i < |c| ==> HasEdge(g, c[i])) && Chained(c)
  }

  ghost predicate IsWalkFromTo(g: Digraph, c: seq<Edge>, s: int, t: int)
  {
    IsWalk(g, c) && if c == [] then s == t else c[0].from == s && c[|c| - 1].to == t
  }

  /** A non-empty walk that ends where it starts. */
  ghost predicate IsClosedWalk(g: Digraph, c: seq<Edge>)
  {
    |c| > 0 && IsWalk(g, c) && c[|c| - 1].to == c[0].from
  }

  function Weight(c: seq<Edge>): int
  {
    if c == [] then 0 else Weight(c[..|c| - 1]) + c[|c| - 1].weight
  }

  lemma {:induction false} WeightAppend(c: seq<Edge>, d: seq<Edge>)
    ensures Weight(c + d) == Weight(c) + Weight(d)
    decreases |d|
  {
    if d == [] {
      assert c + d == c;
    } else {
      var d' := d[..|d| - 1];
      assert c + d == (c + d') + [d[|d| - 1]];
      assert (c + d)[..|c + d| - 1] == c + d';
      WeightAppend(c, d');
    }
  }

  /** An edge into the start of a walk extends it at the front, adding its weight. */
  lemma WalkPrepend(g: Digraph, e: Edge, c: seq<Edge>, t: int)
    requires HasEdge(g, e) && IsWalkFromTo(g, c, e.to, t)
    ensures IsWalkFromTo(g, [e] + c, e.from, t)
    ensures Weight([e] + c) == e.weight + Weight(c)
  {
    WeightAppend([e], c);
    assert [e][..0] == [];
    var d := [e] + c;
    forall i | 0 <= i < |d| - 1 ensures d[i].to == d[i + 1].from {
      if i > 0 {
        assert d[i] == c[i - 1] && d[i + 1] == c[i];
      }
    }
  }

  /** An edge out of the end of a walk extends it at the back, adding its weight. */
  lemma WalkAppend(g: Digraph, c: seq<Edge>, e: Edge, s: int)
    requires IsWalkFromTo(g, c, s, e.from) && HasEdge(g, e)
    ensures IsWalkFromTo(g, c + [e], s, e.to)
    ensures Weight(c + [e]) == Weight(c) + e.weight
  {
    assert (c + [e])[..|c|] == c;
  }

  /** A walk without its last edge is a walk to that edge's tail. */
  lemma WalkInit(g: Digraph, c: seq<Edge>, s: int, t: int)
    requires IsWalkFromTo(g, c, s, t) && c != []
    ensures IsWalkFromTo(g, c[..|c| - 1], s, c[|c| - 1].from)
    ensures Weight(c) == Weight(c[..|c| - 1]) + c[|c| - 1].weight
  {
    var c' := c[..|c| - 1];
    if c' != [] {
      assert c'[|c'| - 1].to == c[|c| - 1].from;
    }
  }

  /** The vertices a walk from s visits, s first. */
  function Vertices(c: seq<Edge>, s: int): (r: seq<int>)
    ensures |r| == |c| + 1 && r[0] == s
  {
    if c == [] then [s] else Vertices(c[..|c| - 1], s) + [c[|c| - 1].to]
  }

  /** `distTo[e.to] <= distTo[e.from] + e.weight`: the test of relax() fails on e. */
  ghost predicate EdgeRelaxed(dist: seq<Dist>, e: Edge)
    requires 0 <= e.from < |dist| && 0 <= e.to < |dist|
  {
    LessEq(dist[e.to], Plus(dist[e.from], e.weight))
  }

  /** Every edge leaving v is relaxed. */
  ghost predicate Relaxed(g: Digraph, dist: seq<Dist>, v: int)
    requires WellFormed(g) && |dist| == g.V && 0 <= v < g.V
  {
    forall j :: 0 <= j < |g.adj[v]| ==> EdgeRelaxed(dist, g.adj[v][j])
  }

  /** Every edge weight is non-negative. */
  ghost predicate NonNegative(g: Digraph)
  {
    forall v :: 0 <= v < |g.adj| ==> forall e :: e in g.adj[v] ==> e.weight >= 0
  }

  /** No closed walk has total weight zero (with non-negative weights: no cycle of 0-weight edges). */
  ghost predicate NoZeroCycle(g: Digraph)
  {
    forall c :: IsClosedWalk(g, c) ==> Weight(c) != 0
  }

  /** No closed walk has negative total weight. */
  ghost predicate NoNegativeCycle(g: Digraph)
  {
    forall c :: IsClosedWalk(g, c) ==> Weight(c) >= 0
  }

  /** With non-negative weights every walk weighs at least 0. */
  lemma {:induction false} NonNegativeWalk(g: Digraph, c: seq<Edge>)
    requires NonNegative(g) && forall i :: 0 <= i < |c| ==> HasEdge(g, c[i])
    ensures Weight(c) >= 0
    decreases |c|
  {
    if c != [] {
      NonNegativeWalk(g, c[..|c| - 1]);
      assert HasEdge(g, c[|c| - 1]);
    }
  }

  /** The edges of all lists, vertex 0 first, each list in its own order. */
  function Flatten(adj: seq<seq<Edge>>): seq<Edge>
  {
    if adj == [] then [] else Flatten(adj[..|adj| - 1]) + adj[|adj| - 1]
  }

  lemma {:induction false} FlattenAppend(a: seq<seq<Edge>>, b: seq<seq<Edge>>)
    ensures Flatten(a + b) == Flatten(a) + Flatten(b)
    decreases |b|
  {
    if b == [] {
      assert a + b == a;
    } else {
      var b' := b[..|b| - 1];
      assert a + b == (a + b') + [b[|b| - 1]];
      assert (a + b)[..|a + b| - 1] == a + b';
      FlattenAppend(a, b');
    }
  }

  /** Flatten of a list split around position v. */
  lemma {:induction false} FlattenSplit(adj: seq<seq<Edge>>, v: nat)
    requires v < |adj|
    ensures Flatten(adj) == Flatten(adj[..v]) + adj[v] + Flatten(adj[v + 1..])
  {
    var pre, one, post := adj[..v], [adj[v]], adj[v + 1..];
    assert adj == (pre + one) + post;
    FlattenAppend(pre + one, post);
    FlattenAppend(pre, one);
    assert one[..0] == [];
    assert Flatten(one) == adj[v];
  }

  lemma {:induction false} FlattenMember(adj: seq<seq<Edge>>, e: Edge)
    ensures e in Flatten(adj) <==> exists v :: 0 <= v < |adj| && e in adj[v]
  {
    if adj != [] {
      var init := adj[..|adj| - 1];
      FlattenMember(init, e);
      if e in Flatten(adj) && e !in adj[|adj| - 1] {
        var v :| 0 <= v < |init| && e in init[v];
        assert e in adj[v];
      }
      if v :| 0 <= v < |adj| && e in adj[v] {
        if v < |init| {
          assert e in init[v];
        }
      }
    }
  }

  /** In a well-formed graph the flat edge list holds exactly the graph's edges. */
  lemma FlattenHasEdge(g: Digraph, e: Edge)
    requires WellFormed(g)
    ensures e in Flatten(g.adj) <==> HasEdge(g, e)
  {
    FlattenMember(g.adj, e);
  }

  /** The edges of `list` that leave v, in list order. */
  function FromFilter(list: seq<Edge>, v: int): (r: seq<Edge>)
    ensures forall e :: e in r ==> e.from == v && e in list
  {
    if list == [] then []
    else
      var init := list[..|list| - 1];
      var e := list[|list| - 1];
      if e.from == v then FromFilter(init, v) + [e] else FromFilter(init, v)
  }

  lemma {:induction false} FromFilterAppend(a: seq<Edge>, b: seq<Edge>, v: int)
    ensures FromFilter(a + b, v) == FromFilter(a, v) + FromFilter(b, v)
    decreases |b|
  {
    if b == [] {
      assert a + b == a;
    } else {
      var b' := b[..|b| - 1];
      assert a + b == (a + b') + [b[|b| - 1]];
      assert (a + b)[..|a + b| - 1] == a + b';
      FromFilterAppend(a, b', v);
    }
  }

  lemma {:induction false} FromFilterAll(list: seq<Edge>, v: int)
    requires forall e :: e in list ==> e.from == v
    ensures FromFilter(list, v) == list
  {
    if list != [] {
      assert list == list[..|list| - 1] + [list[|list| - 1]];
      FromFilterAll(list[..|list| - 1], v);
    }
  }

  lemma {:induction false} FromFilterNone(list: seq<Edge>, v: int)
    requires forall e :: e in list ==> e.from != v
    ensures FromFilter(list, v) == []
  {
    if list != [] {
      FromFilterNone(list[..|list| - 1], v);
    }
  }

  /** Re-adding the flat edge list one edge at a time rebuilds every adjacency list in order. */
  lemma {:induction false} FromFilterFlatten(g: Digraph, n: nat, v: int)
    requires WellFormed(g) && n <= g.V
    ensures FromFilter(Flatten(g.adj[..n]), v) == if 0 <= v < n then g.adj[v] else []
  {
    if n > 0 {
      var a := g.adj[..n];
      assert a[..n - 1] == g.adj[..n - 1];
      FromFilterFlatten(g, n - 1, v);
      FromFilterAppend(Flatten(a[..n - 1]), a[n - 1], v);
      if v == n - 1 {
        FromFilterAll(a[n - 1], v);
      } else {
        FromFilterNone(a[n - 1], v);
      }
    }
  }

  /** The number of edges of `list` that point to w. */
  function InCount(list: seq<Edge>, w: int): nat
  {
    if list == [] then 0
    else InCount(list[..|list| - 1], w) + (if list[|list| - 1].to == w then 1 else 0)
  }

  lemma {:induction false} InCountAppend(a: seq<Edge>, b: seq<Edge>, w: int)
    ensures InCount(a + b, w) == InCount(a, w) + InCount(b, w)
    decreases |b|
  {
    if b == [] {
      assert a + b == a;
    } else {
      var b' := b[..|b| - 1];
      assert a + b == (a + b') + [b[|b| - 1]];
      assert (a + b)[..|a + b| - 1] == a + b';
      InCountAppend(a, b', w);
    }
  }

  /** InCount(list, 0) + ... + InCount(list, n - 1). */
  function InCountSum(list: seq<Edge>, n: nat): nat
  {
    if n == 0 then 0 else InCountSum(list, n - 1) + InCount(list, n - 1)
  }

  lemma {:induction false} InCountSumSnoc(list: seq<Edge>, e: Edge, n: nat)
    ensures InCountSum(list + [e], n) == InCountSum(list, n) + (if 0 <= e.to < n then 1 else 0)
  {
    if n > 0 {
      InCountSumSnoc(list, e, n - 1);
      assert (list + [e])[..|list|] == list;
    }
  }

  lemma {:induction false} InCountSumEmpty(n: nat)
    ensures InCountSum([], n) == 0
  {
    if n > 0 {
      InCountSumEmpty(n - 1);
    }
  }

  /** Double counting: when every edge points inside [0, n), the in-counts add up to the number of edges. */
  lemma {:induction false} InCountSumIsLength(list: seq<Edge>, n: nat)
    requires forall e :: e in list ==> 0 <= e.to < n
    ensures InCountSum(list, n) == |list|
  {
    if list == [] {
      InCountSumEmpty(n);
    } else {
      var init := list[..|list| - 1];
      assert list == init + [list[|list| - 1]];
      InCountSumIsLength(init, n);
      InCountSumSnoc(init, list[|list| - 1], n);
    }
  }
}
