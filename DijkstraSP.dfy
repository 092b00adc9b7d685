/**
 * Dijkstra's algorithm that keeps every predecessor on a shortest path: a strict improvement
 * replaces the predecessor list of the head, an exact tie appends to it. The lists are then
 * expanded backwards into every shortest path from the source.
 */
module Dijkstra {
  import opened Common
  import opened DirectedEdges
  import opened Walks
  import opened Digraphs
  import opened PredecessorPaths

  /** What a run needs of its graph: no negative weight and no closed walk of weight 0. */
  ghost predicate Admissible(g: Digraph)
  {
    WellFormed(g) && NonNegative(g) && NoZeroCycle(g)
  }

  /** p has a finite distance and an edge p->w for which distTo[w] == distTo[p] + weight. */
  ghost predicate TightPred(g: Digraph, dist: seq<Dist>, p: int, w: int)
    requires WellFormed(g) && |dist| == g.V
  {
    0 <= p < g.V && 0 <= w < g.V && dist[p].Fin? &&
    exists j :: 0 <= j < |g.adj[p]| && g.adj[p][j].to == w && dist[w] == Fin(dist[p].d + g.adj[p][j].weight)
  }

  /** dist[v] is no more than the weight of any walk from s to v, and is attained by one when finite. */
  ghost predicate ShortestDist(g: Digraph, s: int, dist: seq<Dist>, v: int)
    requires 0 <= v < |dist|
  {
    (forall c :: IsWalkFromTo(g, c, s, v) ==> LessEq(dist[v], Fin(Weight(c)))) &&
    (dist[v].Fin? ==> exists c :: IsWalkFromTo(g, c, s, v) && Weight(c) == dist[v].d)
  }

  /**
   * The labels of a run: the source is at 0 and marked None, every other vertex has a list
   * that is empty exactly while it is unreached, and every finite distance is the weight of a
   * routes walk from the source.
   */
  ghost predicate Labels(g: Digraph, s: int, dist: seq<Dist>, prev: Preds, wit: seq<seq<Edge>>)
  {
    WellFormed(g) && 0 <= s < g.V && |dist| == g.V && |prev| == g.V && |wit| == g.V &&
    dist[s] == Fin(0) && prev[s].None? &&
    (forall v :: 0 <= v < g.V && v != s ==> prev[v].Some? && (prev[v].value == [] <==> dist[v].Inf?)) &&
    (forall v :: 0 <= v < g.V && dist[v].Fin? ==> IsWalkFromTo(g, wit[v], s, v) && Weight(wit[v]) == dist[v].d)
  }

  /** Every listed predecessor has been taken off the queue and is tight. */
  ghost predicate PredsTight(g: Digraph, dist: seq<Dist>, prev: Preds, S: set<int>)
    requires WellFormed(g) && |dist| == g.V && |prev| == g.V
  {
    forall w, i :: 0 <= w < g.V && prev[w].Some? && 0 <= i < |prev[w].value| ==>
      prev[w].value[i] in S && TightPred(g, dist, prev[w].value[i], w)
  }

  /**
   * S holds the vertices taken off the queue (settled). They have final distances, no larger
   * than those on the queue, and the queue holds every other vertex of finite distance.
   */
  ghost predicate Frontier(g: Digraph, s: int, dist: seq<Dist>, pq: set<int>, S: set<int>)
    requires |dist| == g.V
  {
    (forall x :: x in S ==> 0 <= x < g.V && dist[x].Fin? && x !in pq) &&
    (forall x :: x in pq ==> 0 <= x < g.V && dist[x].Fin?) &&
    (forall x :: 0 <= x < g.V && dist[x].Fin? && x !in S ==> x in pq) &&
    (forall u, x :: u in S && x in pq ==> LessEq(dist[u], dist[x])) &&
    (forall u, c :: u in S && IsWalkFromTo(g, c, s, u) ==> LessEq(dist[u], Fin(Weight(c))))
  }

  /**
   * Every settled vertex has its edges relaxed, except `cur`, the one being scanned, which has
   * its first k edges relaxed and is the largest settled distance (cur == -1 between scans).
   */
  ghost predicate Scanned(g: Digraph, dist: seq<Dist>, S: set<int>, cur: int, k: nat)
    requires WellFormed(g) && |dist| == g.V
  {
    (forall u :: u in S && u != cur && 0 <= u < g.V ==> Relaxed(g, dist, u)) &&
    (cur == -1 ||
     (0 <= cur < g.V && cur in S && k <= |g.adj[cur]| &&
      (forall j :: 0 <= j < k ==> EdgeRelaxed(dist, g.adj[cur][j])) &&
      (forall u :: u in S && 0 <= u < g.V ==> LessEq(dist[u], dist[cur]))))
  }

  /**
   * If e leaves a reached vertex, enters a vertex other than the source, and its weight makes
   * the distances meet exactly, then e's tail is listed as a predecessor of its head.
   */
  ghost predicate Recorded(s: int, dist: seq<Dist>, prev: Preds, e: Edge)
  {
    (0 <= e.from < |dist| && 0 <= e.to < |dist| && e.to != s && dist[e.from].Fin? &&
     dist[e.to] == Plus(dist[e.from], e.weight)) ==>
      IsPred(prev, e.from, e.to)
  }

  /** Every scanned edge that is tight has its tail listed (the edges of cur: its first k). */
  ghost predicate PredsComplete(g: Digraph, s: int, dist: seq<Dist>, prev: Preds, S: set<int>, cur: int, k: nat)
    requires WellFormed(g)
  {
    forall u, j :: u in S && 0 <= u < g.V && 0 <= j < |g.adj[u]| && (u != cur || j < k) ==>
      Recorded(s, dist, prev, g.adj[u][j])
  }

  /** Every tight edge of g has its tail listed as a predecessor of its head. */
  ghost predicate TiesRecorded(g: Digraph, s: int, dist: seq<Dist>, prev: Preds)
  {
    forall u, j :: 0 <= u < |g.adj| && 0 <= j < |g.adj[u]| ==> Recorded(s, dist, prev, g.adj[u][j])
  }

  ghost predicate Inv(g: Digraph, s: int, dist: seq<Dist>, prev: Preds, pq: set<int>, S: set<int>,
                      wit: seq<seq<Edge>>, cur: int, k: nat)
  {
    Labels(g, s, dist, prev, wit) && PredsTight(g, dist, prev, S) &&
    Frontier(g, s, dist, pq, S) && Scanned(g, dist, S, cur, k) && PredsComplete(g, s, dist, prev, S, cur, k)
  }

  /** The state after the initialisation in the DijkstraSP constructor: only the source is reached and queued. */
  lemma InitInv(g: Digraph, s: int, dist: seq<Dist>, prev: Preds, wit: seq<seq<Edge>>)
    requires WellFormed(g) && 0 <= s < g.V && |dist| == g.V && |prev| == g.V && |wit| == g.V && wit[s] == []
    requires forall v :: 0 <= v < g.V ==> dist[v] == (if v == s then Fin(0) else Inf)
    requires forall v :: 0 <= v < g.V ==> prev[v] == (if v == s then None else Some([]))
    ensures Inv(g, s, dist, prev, {s}, {}, wit, -1, 0)
  {
  }

  /** A finite distance is never below 0: it is the weight of a walk. */
  lemma DistNonNegative(g: Digraph, s: int, dist: seq<Dist>, prev: Preds, wit: seq<seq<Edge>>, v: int)
    requires NonNegative(g) && Labels(g, s, dist, prev, wit) && 0 <= v < g.V && dist[v].Fin?
    ensures dist[v].d >= 0
  {
    NonNegativeWalk(g, wit[v]);
  }

  /**
   * A walk from the source to an unsettled vertex leaves the settled set somewhere; the edge
   * it leaves by is relaxed, so some queued vertex is no farther than the walk's weight.
   */
  lemma {:induction false} ExitBound(g: Digraph, s: int, dist: seq<Dist>, pq: set<int>, S: set<int>, c: seq<Edge>, x: int)
    requires WellFormed(g) && NonNegative(g) && |dist| == g.V && 0 <= s < g.V && dist[s] == Fin(0)
    requires Frontier(g, s, dist, pq, S) && forall u :: u in S && 0 <= u < g.V ==> Relaxed(g, dist, u)
    requires IsWalkFromTo(g, c, s, x) && 0 <= x < g.V && x !in S
    ensures exists y :: y in pq && LessEq(dist[y], Fin(Weight(c)))
    decreases |c|
  {
    if c == [] {
      assert s in pq && dist[s] == Fin(Weight(c));
    } else {
      var e := c[|c| - 1];
      var z := e.from;
      var c' := c[..|c| - 1];
      WalkInit(g, c, s, x);
      assert HasEdge(g, e) && e.to == x;
      assert e.weight >= 0;
      if z in S {
        var j :| 0 <= j < |g.adj[z]| && g.adj[z][j] == e;
        assert EdgeRelaxed(dist, g.adj[z][j]);
        assert LessEq(dist[z], Fin(Weight(c')));
        assert x in pq && LessEq(dist[x], Fin(Weight(c)));
      } else {
        ExitBound(g, s, dist, pq, S, c', z);
        var y :| y in pq && LessEq(dist[y], Fin(Weight(c')));
        assert LessEq(dist[y], Fin(Weight(c)));
      }
    }
  }

  /** Once the queue is empty, whatever a walk from the source reaches has been settled. */
  lemma {:induction false} ReachSettled(g: Digraph, s: int, dist: seq<Dist>, S: set<int>, c: seq<Edge>, x: int)
    requires WellFormed(g) && |dist| == g.V && 0 <= s < g.V && dist[s] == Fin(0)
    requires Frontier(g, s, dist, {}, S) && forall u :: u in S && 0 <= u < g.V ==> Relaxed(g, dist, u)
    requires IsWalkFromTo(g, c, s, x) && 0 <= x < g.V
    ensures x in S
    decreases |c|
  {
    if c != [] {
      var e := c[|c| - 1];
      WalkInit(g, c, s, x);
      ReachSettled(g, s, dist, S, c[..|c| - 1], e.from);
      var j :| 0 <= j < |g.adj[e.from]| && g.adj[e.from][j] == e;
      assert EdgeRelaxed(dist, g.adj[e.from][j]);
    }
  }

  /** A non-empty finite set of vertices has a vertex of least distance. */
  lemma MinExists(pq: set<int>, dist: seq<Dist>) returns (v: int)
    requires pq != {} && forall x :: x in pq ==> 0 <= x < |dist|
    ensures v in pq && forall u :: u in pq ==> LessEq(dist[v], dist[u])
    decreases pq
  {
    if forall y :: y !in pq {
      assert false;
    }
    var x :| x in pq;
    if pq == {x} {
      v := x;
      LessIsStrictOrder(dist[x], dist[x], dist[x]);
    } else {
      var m := MinExists(pq - {x}, dist);
      if LessEq(dist[x], dist[m]) {
        v := x;
        forall u | u in pq ensures LessEq(dist[v], dist[u]) {
          LessIsStrictOrder(dist[u], dist[m], dist[x]);
          LessIsStrictOrder(dist[x], dist[x], dist[x]);
        }
      } else {
        v := m;
      }
    }
  }

  /** pq.delMin(): the least queued vertex is settled, its distance is final. */
  lemma ExtractKeeps(g: Digraph, s: int, dist: seq<Dist>, prev: Preds, pq: set<int>, S: set<int>, wit: seq<seq<Edge>>, v: int)
    requires NonNegative(g) && Inv(g, s, dist, prev, pq, S, wit, -1, 0)
    requires Least(pq, dist, v)
    ensures Inv(g, s, dist, prev, pq - {v}, S + {v}, wit, v, 0)
  {
    ExtractFrontier(g, s, dist, pq, S, v);
    ExtractScanned(g, s, dist, pq, S, v);
    ExtractTight(g, dist, prev, S, v);
    ExtractComplete(g, s, dist, prev, S, v);
  }

  lemma ExtractComplete(g: Digraph, s: int, dist: seq<Dist>, prev: Preds, S: set<int>, v: int)
    requires WellFormed(g) && PredsComplete(g, s, dist, prev, S, -1, 0)
    ensures PredsComplete(g, s, dist, prev, S + {v}, v, 0)
  {
  }

  lemma ExtractFrontier(g: Digraph, s: int, dist: seq<Dist>, pq: set<int>, S: set<int>, v: int)
    requires WellFormed(g) && NonNegative(g) && |dist| == g.V && 0 <= s < g.V && dist[s] == Fin(0)
    requires Frontier(g, s, dist, pq, S) && (forall u :: u in S && 0 <= u < g.V ==> Relaxed(g, dist, u))
    requires Least(pq, dist, v)
    ensures Frontier(g, s, dist, pq - {v}, S + {v})
  {
    forall c | IsWalkFromTo(g, c, s, v) ensures LessEq(dist[v], Fin(Weight(c))) {
      ExitBound(g, s, dist, pq, S, c, v);
      var y :| y in pq && LessEq(dist[y], Fin(Weight(c)));
      LessIsStrictOrder(Fin(Weight(c)), dist[y], dist[v]);
    }
  }

  lemma ExtractScanned(g: Digraph, s: int, dist: seq<Dist>, pq: set<int>, S: set<int>, v: int)
    requires WellFormed(g) && |dist| == g.V && Frontier(g, s, dist, pq, S) && Scanned(g, dist, S, -1, 0)
    requires Least(pq, dist, v)
    ensures Scanned(g, dist, S + {v}, v, 0)
  {
    LessIsStrictOrder(dist[v], dist[v], dist[v]);
  }

  lemma ExtractTight(g: Digraph, dist: seq<Dist>, prev: Preds, S: set<int>, v: int)
    requires WellFormed(g) && |dist| == g.V && |prev| == g.V && PredsTight(g, dist, prev, S)
    ensures PredsTight(g, dist, prev, S + {v})
  {
  }

  /** relax(e), strict branch: w gets distTo[v] + weight, the single predecessor v, and a place on the queue. */
  lemma RelaxStrict(g: Digraph, s: int, dist: seq<Dist>, prev: Preds, pq: set<int>, S: set<int>, wit: seq<seq<Edge>>,
                    v: int, k: nat)
    requires NonNegative(g) && Inv(g, s, dist, prev, pq, S, wit, v, k) && 0 <= v < g.V && k < |g.adj[v]|
    requires Less(Plus(dist[v], g.adj[v][k].weight), dist[g.adj[v][k].to])
    ensures var e := g.adj[v][k];
            var w := e.to;
            w != s && w !in S &&
            Inv(g, s, dist[w := Plus(dist[v], e.weight)], prev[w := Some([v])], pq + {w}, S,
                wit[w := wit[v] + [e]], v, k + 1)
  {
    var e := g.adj[v][k];
    var w := e.to;
    assert e in g.adj[v];
    DistNonNegative(g, s, dist, prev, wit, v);
    assert w != s;
    WalkAppend(g, wit[v], e, s);
    StrictLabels(g, s, dist, prev, wit, v, e);
    StrictTight(g, dist, prev, S, v, k);
    StrictFrontier(g, s, dist, pq, S, v, e);
    StrictScanned(g, dist, S, v, k);
    StrictComplete(g, s, dist, prev, S, v, k);
  }

  /**
   * A strict improvement of w leaves no other scanned edge tight at w: each of them was
   * relaxed, so the new distance of w lies below what any of them offers.
   */
  lemma StrictComplete(g: Digraph, s: int, dist: seq<Dist>, prev: Preds, S: set<int>, v: int, k: nat)
    requires WellFormed(g) && |dist| == g.V && |prev| == g.V
    requires PredsComplete(g, s, dist, prev, S, v, k) && Scanned(g, dist, S, v, k)
    requires 0 <= v < g.V && v in S && dist[v].Fin? && k < |g.adj[v]| && g.adj[v][k].to !in S
    requires Less(Plus(dist[v], g.adj[v][k].weight), dist[g.adj[v][k].to])
    ensures var e := g.adj[v][k];
            PredsComplete(g, s, dist[e.to := Plus(dist[v], e.weight)], prev[e.to := Some([v])], S, v, k + 1)
  {
    var w := g.adj[v][k].to;
    var d := Plus(dist[v], g.adj[v][k].weight);
    var dist', prev' := dist[w := d], prev[w := Some([v])];
    forall u, j | u in S && 0 <= u < g.V && 0 <= j < |g.adj[u]| && (u != v || j < k + 1)
      ensures Recorded(s, dist', prev', g.adj[u][j])
    {
      var e := g.adj[u][j];
      assert e in g.adj[u];
      if e.to != w {
        assert Recorded(s, dist, prev, e);
      } else if u != v || j < k {
        assert EdgeRelaxed(dist, e);
        assert dist'[e.to] != Plus(dist'[e.from], e.weight);
      }
    }
  }

  lemma StrictLabels(g: Digraph, s: int, dist: seq<Dist>, prev: Preds, wit: seq<seq<Edge>>, v: int, e: Edge)
    requires Labels(g, s, dist, prev, wit) && 0 <= v < g.V && e in g.adj[v] && e.to != s && dist[v].Fin?
    requires IsWalkFromTo(g, wit[v] + [e], s, e.to) && Weight(wit[v] + [e]) == dist[v].d + e.weight
    ensures Labels(g, s, dist[e.to := Plus(dist[v], e.weight)], prev[e.to := Some([v])], wit[e.to := wit[v] + [e]])
  {
  }

  lemma StrictTight(g: Digraph, dist: seq<Dist>, prev: Preds, S: set<int>, v: int, k: nat)
    requires WellFormed(g) && |dist| == g.V && |prev| == g.V && PredsTight(g, dist, prev, S)
    requires 0 <= v < g.V && v in S && dist[v].Fin? && k < |g.adj[v]| && g.adj[v][k].to !in S
    ensures var e := g.adj[v][k];
            PredsTight(g, dist[e.to := Plus(dist[v], e.weight)], prev[e.to := Some([v])], S)
  {
    var e := g.adj[v][k];
    var w := e.to;
    var dist', prev' := dist[w := Plus(dist[v], e.weight)], prev[w := Some([v])];
    forall x, i | 0 <= x < g.V && prev'[x].Some? && 0 <= i < |prev'[x].value|
      ensures prev'[x].value[i] in S && TightPred(g, dist', prev'[x].value[i], x)
    {
      if x != w {
        var p := prev[x].value[i];
        assert p in S && TightPred(g, dist, p, x);
        var j :| 0 <= j < |g.adj[p]| && g.adj[p][j].to == x && dist[x] == Fin(dist[p].d + g.adj[p][j].weight);
        assert dist'[x] == Fin(dist'[p].d + g.adj[p][j].weight);
      } else {
        assert dist'[w] == Fin(dist'[v].d + g.adj[v][k].weight);
      }
    }
  }

  lemma StrictFrontier(g: Digraph, s: int, dist: seq<Dist>, pq: set<int>, S: set<int>, v: int, e: Edge)
    requires WellFormed(g) && |dist| == g.V && Frontier(g, s, dist, pq, S) && 0 <= v < g.V && v in S
    requires forall u :: u in S && 0 <= u < g.V ==> LessEq(dist[u], dist[v])
    requires e.weight >= 0 && 0 <= e.to < g.V && e.to !in S && dist[v].Fin?
    ensures Frontier(g, s, dist[e.to := Plus(dist[v], e.weight)], pq + {e.to}, S)
  {
    var dist' := dist[e.to := Plus(dist[v], e.weight)];
    forall u, x | u in S && x in pq + {e.to} ensures LessEq(dist'[u], dist'[x]) {
      if x == e.to {
        assert LessEq(dist[u], dist[v]);
      }
    }
  }

  lemma StrictScanned(g: Digraph, dist: seq<Dist>, S: set<int>, v: int, k: nat)
    requires WellFormed(g) && |dist| == g.V && Scanned(g, dist, S, v, k) && 0 <= v < g.V && k < |g.adj[v]|
    requires dist[v].Fin? && g.adj[v][k].to !in S && Less(Plus(dist[v], g.adj[v][k].weight), dist[g.adj[v][k].to])
    ensures var e := g.adj[v][k];
            Scanned(g, dist[e.to := Plus(dist[v], e.weight)], S, v, k + 1)
  {
    var e := g.adj[v][k];
    var dist' := dist[e.to := Plus(dist[v], e.weight)];
    assert e in g.adj[v];
    forall u | u in S && u != v && 0 <= u < g.V ensures Relaxed(g, dist', u) {
      forall j | 0 <= j < |g.adj[u]| ensures EdgeRelaxed(dist', g.adj[u][j]) {
        assert EdgeRelaxed(dist, g.adj[u][j]);
      }
    }
    forall j | 0 <= j < k + 1 ensures EdgeRelaxed(dist', g.adj[v][j]) {
      if j < k {
        assert EdgeRelaxed(dist, g.adj[v][j]);
      }
    }
  }

  /** relax(e), tie branch: w is not the source, and v joins its predecessor list. */
  lemma RelaxTie(g: Digraph, s: int, dist: seq<Dist>, prev: Preds, pq: set<int>, S: set<int>, wit: seq<seq<Edge>>,
                 v: int, k: nat)
    requires Admissible(g) && Inv(g, s, dist, prev, pq, S, wit, v, k) && 0 <= v < g.V && k < |g.adj[v]|
    requires dist[g.adj[v][k].to] == Plus(dist[v], g.adj[v][k].weight)
    ensures var w := g.adj[v][k].to;
            w != s && prev[w].Some? &&
            Inv(g, s, dist, prev[w := Some(prev[w].value + [v])], pq, S, wit, v, k + 1)
  {
    var e := g.adj[v][k];
    var w := e.to;
    assert e in g.adj[v];
    assert e.from == v && 0 <= w < g.V && e.weight >= 0;
    if w == s {
      // a zero-weight walk back to the source: wit[v] + [e] is a closed walk of weight 0
      WalkAppend(g, wit[v], e, s);
      assert false;
    }
    TieTight(g, dist, prev, S, v, k);
    TieLabels(g, s, dist, prev, wit, v, w);
    TieComplete(g, s, dist, prev, S, v, k);
  }

  lemma TieComplete(g: Digraph, s: int, dist: seq<Dist>, prev: Preds, S: set<int>, v: int, k: nat)
    requires WellFormed(g) && |prev| == g.V && PredsComplete(g, s, dist, prev, S, v, k)
    requires 0 <= v < g.V && k < |g.adj[v]| && prev[g.adj[v][k].to].Some?
    ensures var w := g.adj[v][k].to;
            PredsComplete(g, s, dist, prev[w := Some(prev[w].value + [v])], S, v, k + 1)
  {
    var w := g.adj[v][k].to;
    var prev' := prev[w := Some(prev[w].value + [v])];
    assert g.adj[v][k] in g.adj[v];
    forall u, j | u in S && 0 <= u < g.V && 0 <= j < |g.adj[u]| && (u != v || j < k + 1)
      ensures Recorded(s, dist, prev', g.adj[u][j])
    {
      var e := g.adj[u][j];
      assert e in g.adj[u];
      if (u != v || j < k) && IsPred(prev, e.from, e.to) && e.to == w {
        assert e.from in prev'[w].value;
      }
    }
  }

  lemma TieTight(g: Digraph, dist: seq<Dist>, prev: Preds, S: set<int>, v: int, k: nat)
    requires WellFormed(g) && |dist| == g.V && |prev| == g.V && PredsTight(g, dist, prev, S)
    requires 0 <= v < g.V && v in S && dist[v].Fin? && k < |g.adj[v]|
    requires dist[g.adj[v][k].to] == Plus(dist[v], g.adj[v][k].weight) && prev[g.adj[v][k].to].Some?
    ensures var w := g.adj[v][k].to;
            PredsTight(g, dist, prev[w := Some(prev[w].value + [v])], S)
  {
    var w := g.adj[v][k].to;
    var prev' := prev[w := Some(prev[w].value + [v])];
    forall x, i | 0 <= x < g.V && prev'[x].Some? && 0 <= i < |prev'[x].value|
      ensures prev'[x].value[i] in S && TightPred(g, dist, prev'[x].value[i], x)
    {
      if x == w && i == |prev[w].value| {
        assert prev'[x].value[i] == v;
        assert dist[w] == Fin(dist[v].d + g.adj[v][k].weight);
      } else {
        assert prev'[x].value[i] == prev[x].value[i];
      }
    }
  }

  lemma TieLabels(g: Digraph, s: int, dist: seq<Dist>, prev: Preds, wit: seq<seq<Edge>>, v: int, w: int)
    requires Labels(g, s, dist, prev, wit) && 0 <= w < g.V && w != s && dist[w].Fin?
    ensures prev[w].Some? && Labels(g, s, dist, prev[w := Some(prev[w].value + [v])], wit)
  {
  }

  /** relax(e), neither branch: e was already relaxed and is not tight. */
  lemma RelaxSkip(g: Digraph, s: int, dist: seq<Dist>, prev: Preds, pq: set<int>, S: set<int>, wit: seq<seq<Edge>>,
                  v: int, k: nat)
    requires Inv(g, s, dist, prev, pq, S, wit, v, k) && 0 <= v < g.V && k < |g.adj[v]|
    requires !Less(Plus(dist[v], g.adj[v][k].weight), dist[g.adj[v][k].to])
    requires dist[g.adj[v][k].to] != Plus(dist[v], g.adj[v][k].weight)
    ensures Inv(g, s, dist, prev, pq, S, wit, v, k + 1)
  {
    assert g.adj[v][k] in g.adj[v];
  }

  /** The scan of v is over: all of its edges are relaxed. */
  lemma FinishKeeps(g: Digraph, s: int, dist: seq<Dist>, prev: Preds, pq: set<int>, S: set<int>, wit: seq<seq<Edge>>, v: int)
    requires WellFormed(g) && 0 <= v < g.V && Inv(g, s, dist, prev, pq, S, wit, v, |g.adj[v]|)
    ensures Inv(g, s, dist, prev, pq, S, wit, -1, 0)
  {
  }

  /**
   * A chain of listed predecessors follows tight edges: it is the vertex sequence of a walk
   * whose weight is the difference of the end distances.
   */
  lemma {:induction false} ChainWalk(g: Digraph, dist: seq<Dist>, prev: Preds, S: set<int>, c: seq<int>)
    returns (W: seq<Edge>)
    requires WellFormed(g) && |dist| == g.V && |prev| == g.V && PredsTight(g, dist, prev, S)
    requires Chain(prev, c) && |c| >= 2
    ensures IsWalkFromTo(g, W, c[0], c[|c| - 1]) && Vertices(W, c[0]) == c
    ensures dist[c[0]].Fin? && dist[c[|c| - 1]].Fin? && Weight(W) == dist[c[|c| - 1]].d - dist[c[0]].d
    decreases |c|
  {
    var p, w := c[|c| - 2], c[|c| - 1];
    assert IsPred(prev, p, w);
    var i :| 0 <= i < |prev[w].value| && prev[w].value[i] == p;
    assert TightPred(g, dist, p, w);
    var j :| 0 <= j < |g.adj[p]| && g.adj[p][j].to == w && dist[w] == Fin(dist[p].d + g.adj[p][j].weight);
    var e := g.adj[p][j];
    assert e in g.adj[p] && e.from == p;
    if |c| == 2 {
      W := [e];
      assert W[..0] == [];
    } else {
      var c' := c[..|c| - 1];
      assert Chain(prev, c') by {
        forall a | 0 <= a < |c'| - 1 ensures IsPred(prev, c'[a], c'[a + 1]) {
          assert c'[a] == c[a] && c'[a + 1] == c[a + 1];
        }
      }
      var W' := ChainWalk(g, dist, prev, S, c');
      W := W' + [e];
      WalkAppend(g, W', e, c[0]);
      assert W[..|W| - 1] == W';
      assert c == c' + [w];
    }
  }

  /** With no closed walk of weight 0, the predecessor lists never lead back to where they started. */
  lemma PredsAcyclic(g: Digraph, dist: seq<Dist>, prev: Preds, S: set<int>)
    requires Admissible(g) && |dist| == g.V && |prev| == g.V && PredsTight(g, dist, prev, S)
    ensures InRange(prev) && Acyclic(prev)
  {
    forall c {:trigger Chain(prev, c)} | Chain(prev, c) && |c| >= 2 ensures c[0] != c[|c| - 1] {
      var W := ChainWalk(g, dist, prev, S, c);
      if c[0] == c[|c| - 1] {
        assert IsClosedWalk(g, W);
        assert false;
      }
    }
  }

  /** Once the queue is empty, every distance is a shortest distance and unreached vertices have no walk. */
  lemma FinalOptimal(g: Digraph, s: int, dist: seq<Dist>, prev: Preds, S: set<int>, wit: seq<seq<Edge>>)
    requires Admissible(g) && Inv(g, s, dist, prev, {}, S, wit, -1, 0)
    ensures forall v :: 0 <= v < g.V ==> ShortestDist(g, s, dist, v)
    ensures InRange(prev) && Acyclic(prev)
  {
    forall v, c | 0 <= v < g.V && IsWalkFromTo(g, c, s, v) ensures LessEq(dist[v], Fin(Weight(c))) {
      ReachSettled(g, s, dist, S, c, v);
    }
    PredsAcyclic(g, dist, prev, S);
  }

  /**
   * The state the constructor leaves: the queue loop is over, the distances are shortest,
   * a vertex is listed as a predecessor of w exactly when an edge from it to w is tight
   * (PredsTight one way, TiesRecorded the other), and every path is collected.
   */
  ghost predicate Done(g: Digraph, s: int, dist: seq<Dist>, prev: Preds, pq: set<int>, S: set<int>,
                       wit: seq<seq<Edge>>, paths: seq<seq<int>>)
  {
    Inv(g, s, dist, prev, pq, S, wit, -1, 0) && pq == {} && InRange(prev) && Acyclic(prev) &&
    (forall v :: 0 <= v < g.V ==> ShortestDist(g, s, dist, v)) && TiesRecorded(g, s, dist, prev) &&
    paths == Collected(prev, dist, s, g.V)
  }

  lemma Finish(g: Digraph, s: int, dist: seq<Dist>, prev: Preds, S: set<int>, wit: seq<seq<Edge>>, paths: seq<seq<int>>)
    requires Admissible(g) && Inv(g, s, dist, prev, {}, S, wit, -1, 0) && InRange(prev)
    requires paths == Collected(prev, dist, s, g.V)
    ensures Done(g, s, dist, prev, {}, S, wit, paths)
  {
    FinalOptimal(g, s, dist, prev, S, wit);
    forall u, j | 0 <= u < |g.adj| && 0 <= j < |g.adj[u]| ensures Recorded(s, dist, prev, g.adj[u][j]) {
      if dist[u].Fin? {
        assert u in S;
      }
    }
  }

  /**
   * Completeness of the lists: the vertices of a walk from the source whose weight is the
   * distance of its end form a chain of listed predecessors rooted at the source. Each prefix
   * of such a walk is itself shortest, so each of its edges is tight, and no prefix returns to
   * the source, since that would close a walk of weight 0.
   */
  lemma {:induction false} ShortestChain(g: Digraph, s: int, dist: seq<Dist>, prev: Preds, S: set<int>,
                                         wit: seq<seq<Edge>>, paths: seq<seq<int>>, W: seq<Edge>, t: int)
    requires Admissible(g) && Done(g, s, dist, prev, {}, S, wit, paths)
    requires 0 <= t < g.V && IsWalkFromTo(g, W, s, t) && dist[t] == Fin(Weight(W))
    ensures Rooted(prev, Vertices(W, s), t)
    decreases |W|
  {
    if W != [] {
      var e := W[|W| - 1];
      var x := e.from;
      var W' := W[..|W| - 1];
      WalkInit(g, W, s, t);
      assert HasEdge(g, e) && 0 <= x < g.V;
      assert ShortestDist(g, s, dist, x) && ShortestDist(g, s, dist, t);
      assert LessEq(dist[x], Fin(Weight(W')));
      WalkAppend(g, wit[x], e, s);
      assert LessEq(dist[t], Fin(Weight(wit[x] + [e])));
      assert dist[x] == Fin(Weight(W'));
      ShortestChain(g, s, dist, prev, S, wit, paths, W', x);
      if t == s {
        assert IsClosedWalk(g, W);
        assert false;
      }
      var j :| 0 <= j < |g.adj[x]| && g.adj[x][j] == e;
      assert Recorded(s, dist, prev, g.adj[x][j]);
      var r, r' := Vertices(W, s), Vertices(W', s);
      assert r == r' + [t];
      forall i | 0 <= i < |r| - 1 ensures IsPred(prev, r[i], r[i + 1]) {
        if i < |r'| - 1 {
          assert r[i] == r'[i] && r[i + 1] == r'[i + 1];
        }
      }
    }
  }

  /** A listed path to a reached target other than the source is among the collected paths. */
  lemma {:induction false} CollectedHas(prev: Preds, dist: seq<Dist>, s: int, n: nat, t: int, r: seq<int>)
    requires InRange(prev) && n <= |prev| && |dist| == |prev|
    requires 0 <= t < n && t != s && dist[t].Fin? && r in AllPaths(prev, t)
    ensures r in Collected(prev, dist, s, n)
  {
    if t < n - 1 {
      CollectedHas(prev, dist, s, n - 1, t, r);
    }
  }

  /** Every shortest path from the source to another vertex is among the paths of a finished run. */
  lemma ShortestCollected(g: Digraph, s: int, dist: seq<Dist>, prev: Preds, S: set<int>, wit: seq<seq<Edge>>,
                          paths: seq<seq<int>>, r: seq<int>)
    requires Admissible(g) && Done(g, s, dist, prev, {}, S, wit, paths)
    requires IsShortestPath(g, s, dist, r) && r[|r| - 1] != s
    ensures r in paths
  {
    var t := r[|r| - 1];
    var W :| IsWalkFromTo(g, W, s, t) && Vertices(W, s) == r && Weight(W) == dist[t].d;
    ShortestChain(g, s, dist, prev, S, wit, paths, W, t);
    RootedListed(prev, r, t);
    CollectedHas(prev, dist, s, g.V, t, r);
  }

  /**
   * Every path the lists spell out for t is the vertex sequence of a walk from the source to t
   * of weight dist[t]: a shortest path.
   */
  lemma ListedPathShortest(g: Digraph, s: int, dist: seq<Dist>, prev: Preds, S: set<int>, wit: seq<seq<Edge>>,
                           t: int, r: seq<int>)
    requires Labels(g, s, dist, prev, wit) && PredsTight(g, dist, prev, S) && InRange(prev) && Acyclic(prev)
    requires 0 <= t < g.V && exists n: nat :: r in Paths(prev, t, n)
    ensures |r| >= 1 && r[|r| - 1] == t && IsShortestPath(g, s, dist, r) && Distinct(r)
    ensures r[0] == s && Below(r, g.V)
  {
    var n: nat :| r in Paths(prev, t, n);
    PathsRooted(prev, t, n);
    var i :| 0 <= i < |Paths(prev, t, n)| && Paths(prev, t, n)[i] == r;
    assert Rooted(prev, r, t);
    ChainDistinct(prev, r);
    ChainInRange(prev, r);
    assert r[0] == s;
    if |r| == 1 {
      assert IsWalkFromTo(g, [], s, t) && Vertices([], s) == r;
    } else {
      var W := ChainWalk(g, dist, prev, S, r);
    }
  }

  /** Every collected path is a shortest path from the source to a vertex other than the source. */
  lemma CollectedAreShortest(g: Digraph, s: int, dist: seq<Dist>, prev: Preds, S: set<int>, wit: seq<seq<Edge>>, n: nat)
    requires Labels(g, s, dist, prev, wit) && PredsTight(g, dist, prev, S) && InRange(prev) && Acyclic(prev) && n <= g.V
    ensures forall r :: r in Collected(prev, dist, s, n) ==> SimpleShortest(g, s, dist, r)
  {
    forall r | r in Collected(prev, dist, s, n) ensures SimpleShortest(g, s, dist, r) {
      CollectedListed(prev, dist, s, n, r);
      var t :| 0 <= t < n && t != s && dist[t].Fin? && r in AllPaths(prev, t);
      ListedPathShortest(g, s, dist, prev, S, wit, t, r);
    }
  }

  /**
   * r is a shortest path from s to a vertex other than s that repeats no vertex and names only
   * vertices of g.
   */
  ghost predicate SimpleShortest(g: Digraph, s: int, dist: seq<Dist>, r: seq<int>)
  {
    IsShortestPath(g, s, dist, r) && r[|r| - 1] != s && r[0] == s && Distinct(r) && Below(r, g.V)
  }

  /** r is the vertex sequence of a walk from s to r's last vertex whose weight is that vertex's distance. */
  ghost predicate IsShortestPath(g: Digraph, s: int, dist: seq<Dist>, r: seq<int>)
  {
    |r| >= 1 && |dist| == g.V && 0 <= r[|r| - 1] < g.V && dist[r[|r| - 1]].Fin? &&
    exists W :: IsWalkFromTo(g, W, s, r[|r| - 1]) && Vertices(W, s) == r && Weight(W) == dist[r[|r| - 1]].d
  }

  lemma Shrinks(n: int, S: set<int>, v: int)
    requires 0 <= v < n && v !in S
    ensures (set x | 0 <= x < n && x !in S + {v}) < (set x | 0 <= x < n && x !in S)
  {
    var A, B := set x | 0 <= x < n && x !in S + {v}, set x | 0 <= x < n && x !in S;
    assert v in B && v !in A;
    assert A <= B;
  }

  /** v is a queued vertex of least distance. */
  predicate Least(pq: set<int>, dist: seq<Dist>, v: int)
  {
    v in pq && 0 <= v < |dist| && forall u :: u in pq && 0 <= u < |dist| ==> LessEq(dist[v], dist[u])
  }

  /** The paths collected for targets 0..n-1: all paths to each reached target other than the source. */
  function Collected(prev: Preds, dist: seq<Dist>, s: int, n: nat): seq<seq<int>>
    requires InRange(prev) && n <= |prev| && |dist| == |prev|
  {
    if n == 0 then []
    else Collected(prev, dist, s, n - 1) + (if n - 1 != s && dist[n - 1].Fin? then AllPaths(prev, n - 1) else [])
  }

  lemma CollectedNext(prev: Preds, dist: seq<Dist>, s: int, n: nat, X: seq<seq<int>>, T: seq<seq<int>>)
    requires InRange(prev) && n < |prev| && |dist| == |prev| && X == Collected(prev, dist, s, n)
    ensures n == s || dist[n].Inf? ==> X == Collected(prev, dist, s, n + 1)
    ensures n != s && dist[n].Fin? && T == AllPaths(prev, n) ==> X + T == Collected(prev, dist, s, n + 1)
  {
    assert X + [] == X;
  }

  /** Each collected path is a listed path to a reached target other than the source. */
  lemma {:induction false} CollectedListed(prev: Preds, dist: seq<Dist>, s: int, n: nat, r: seq<int>)
    requires InRange(prev) && n <= |prev| && |dist| == |prev| && r in Collected(prev, dist, s, n)
    ensures exists t :: 0 <= t < n && t != s && dist[t].Fin? && r in AllPaths(prev, t)
  {
    if r !in Collected(prev, dist, s, n - 1) {
      assert n - 1 != s && dist[n - 1].Fin? && r in AllPaths(prev, n - 1);
    } else {
      CollectedListed(prev, dist, s, n - 1, r);
    }
  }

  class DijkstraSP {
    const distTo: array<Dist>
    const prevEdges: array<Option<seq<int>>>
    var pq: set<int>
    const sourceNode: int
    var tempPathList: seq<seq<int>>
    var allShortestPaths: seq<seq<int>>
    ghost const graph: Digraph
    ghost var settled: set<int>
    ghost var routes: seq<seq<Edge>>

    ghost predicate Sized()
    {
      Admissible(graph) && 0 <= sourceNode < graph.V && distTo.Length == graph.V && prevEdges.Length == graph.V
    }

    /** In the queue loop: cur is being scanned with k edges done (cur == -1 between scans). */
    ghost predicate Running(cur: int, k: nat)
      reads this`pq, this`settled, this`routes, distTo, prevEdges
    {
      Sized() && Inv(graph, sourceNode, distTo[..], prevEdges[..], pq, settled, routes, cur, k)
    }

    /** A finished run: shortest distances, tight and acyclic predecessor lists, and the collected paths. */
    ghost predicate Valid()
      reads this, distTo, prevEdges
    {
      Sized() && Done(graph, sourceNode, distTo[..], prevEdges[..], pq, settled, routes, allShortestPaths)
    }

    /**
     * The constructor once its check of the weights has passed: the queue loop, then the
     * collection of the paths to every reached target.
     */
    constructor (G: EdgeWeightedDigraph, s: int)
      requires G.Valid() && 0 <= s < G.V && Admissible(G.Graph())
      ensures graph == G.Graph() && sourceNode == s && Valid()
    {
      graph := G.Graph();
      prevEdges := new Option<seq<int>>[G.V](v => if v == s then None else Some([]));
      sourceNode := s;
      allShortestPaths := [];
      tempPathList := [];
      distTo := new Dist[G.V](v => if v == s then Fin(0) else Inf);
      settled := {};
      routes := seq(G.V, _ => []);
      pq := {s};
      new;
      InitInv(graph, s, distTo[..], prevEdges[..], routes);
      Run(G);
      ghost var D, P := distTo[..], prevEdges[..];
      PredsAcyclic(graph, D, P, settled);
      CollectPaths(D, P);
      Finish(graph, s, D, P, settled, routes, allShortestPaths);
    }

    /** The queue loop of the DijkstraSP constructor: take the least queued vertex and relax its edges until the queue is empty. */
    method Run(G: EdgeWeightedDigraph)
      requires G.Valid() && graph == G.Graph() && Running(-1, 0)
      modifies this`pq, this`settled, this`routes, distTo, prevEdges
      ensures Running(-1, 0) && pq == {}
    {
      while pq != {}
        invariant Running(-1, 0)
        decreases Unsettled()
      {
        var v := DelMin();
        Scan(G, v);
      }
    }

    ghost function Unsettled(): set<int>
      reads this`settled
    {
      set x | 0 <= x < graph.V && x !in settled
    }

    /** pq.delMin(): a queued vertex of least distance leaves the queue and is settled. */
    method DelMin() returns (v: int)
      requires Running(-1, 0) && pq != {}
      modifies this`pq, this`settled
      ensures 0 <= v < graph.V && v in old(pq) && pq == old(pq) - {v} && settled == old(settled) + {v}
      ensures forall u :: u in old(pq) ==> LessEq(distTo[v], distTo[u])
      ensures Running(v, 0) && Unsettled() < old(Unsettled())
    {
      ghost var m := MinExists(pq, distTo[..]);
      assert Least(pq, distTo[..], m);
      v :| v in pq && Least(pq, distTo[..], v);
      ExtractKeeps(graph, sourceNode, distTo[..], prevEdges[..], pq, settled, routes, v);
      Shrinks(graph.V, settled, v);
      pq := pq - {v};
      settled := settled + {v};
    }

    /** The inner loop of the constructor: relax every edge leaving v, in list order. */
    method Scan(G: EdgeWeightedDigraph, v: int)
      requires G.Valid() && graph == G.Graph() && 0 <= v < graph.V && Running(v, 0)
      modifies this`pq, this`routes, distTo, prevEdges
      ensures Running(-1, 0) && settled == old(settled)
    {
      var list := G.adj[v];
      for i := 0 to |list|
        invariant list == graph.adj[v]
        invariant Running(v, i)
      {
        Relax(list[i], i);
      }
      FinishKeeps(graph, sourceNode, distTo[..], prevEdges[..], pq, settled, routes, v);
    }

    /** The collection loop of the DijkstraSP constructor: the paths to every reached vertex other than the source, target by target. */
    method CollectPaths(ghost D: seq<Dist>, ghost P: Preds)
      requires Sized() && distTo[..] == D && prevEdges[..] == P && InRange(P) && Acyclic(P) && allShortestPaths == []
      modifies this`tempPathList, this`allShortestPaths
      ensures distTo[..] == D && prevEdges[..] == P
      ensures allShortestPaths == Collected(P, D, sourceNode, graph.V)
    {
      for v := 0 to distTo.Length
        invariant allShortestPaths == Collected(P, D, sourceNode, v)
      {
        assert distTo[v] == D[v];
        ghost var X := allShortestPaths;
        if v != sourceNode {
          GetAllShortestPathsTo(v, P);
          if Less(distTo[v], Inf) {
            allShortestPaths := allShortestPaths + tempPathList;
          }
        }
        CollectedNext(P, D, sourceNode, v, X, tempPathList);
      }
    }

    /** relax(e) for the k-th edge of the vertex being scanned. */
    method Relax(e: Edge, ghost k: nat)
      requires Running(e.from, k) && 0 <= e.from < graph.V && k < |graph.adj[e.from]| && e == graph.adj[e.from][k]
      modifies this`pq, this`routes, distTo, prevEdges
      ensures Running(e.from, k + 1)
      ensures var d := Plus(old(distTo[e.from]), e.weight);
              if Less(d, old(distTo[e.to])) then
                distTo[..] == old(distTo[..])[e.to := d] &&
                prevEdges[..] == old(prevEdges[..])[e.to := Some([e.from])] && pq == old(pq) + {e.to}
              else if d == old(distTo[e.to]) then
                distTo[..] == old(distTo[..]) && old(prevEdges[e.to]).Some? &&
                prevEdges[..] == old(prevEdges[..])[e.to := Some(old(prevEdges[e.to]).value + [e.from])] && pq == old(pq)
              else
                distTo[..] == old(distTo[..]) && prevEdges[..] == old(prevEdges[..]) && pq == old(pq)
    {
      var v, w := e.from, e.to;
      ghost var d0, p0, q0, w0 := distTo[..], prevEdges[..], pq, routes;
      if Less(Plus(distTo[v], e.weight), distTo[w]) {
        RelaxStrict(graph, sourceNode, d0, p0, q0, settled, w0, v, k);
        distTo[w] := Plus(distTo[v], e.weight);
        prevEdges[w] := Some([v]);
        pq := pq + {w};  // insert, or decreaseKey when w is queued: the key is distTo[w]
        routes := routes[w := routes[v] + [e]];
        assert distTo[..] == d0[w := Plus(d0[v], e.weight)];
        assert prevEdges[..] == p0[w := Some([v])];
      } else if distTo[w] == Plus(distTo[v], e.weight) {
        RelaxTie(graph, sourceNode, d0, p0, q0, settled, w0, v, k);
        prevEdges[w] := Some(prevEdges[w].value + [v]);
        assert prevEdges[..] == p0[w := Some(p0[w].value + [v])];
      } else {
        RelaxSkip(graph, sourceNode, d0, p0, q0, settled, w0, v, k);
      }
    }

    /** getAllShortestPathsTo(dest): tempPathList becomes every listed path to dest. */
    method GetAllShortestPathsTo(dest: int, ghost P: Preds)
      requires prevEdges[..] == P && InRange(P) && Acyclic(P) && 0 <= dest < |P|
      modifies this`tempPathList
      ensures tempPathList == AllPaths(P, dest)
    {
      tempPathList := [];
      assert Pending(P, [], dest) by {
        assert [dest] + [] == [dest];
      }
      var _ := GetShortestPaths([], dest, P);
      ExtendNil(AllPaths(P, dest));
    }

    /**
     * getShortestPaths(suffix, dest): append to tempPathList every listed path to dest,
     * each followed by suffix; returns suffix, with dest in front at the source.
     */
    method GetShortestPaths(suffix: seq<int>, dest: int, ghost P: Preds) returns (r: seq<int>)
      requires prevEdges[..] == P && Pending(P, suffix, dest)
      modifies this`tempPathList
      ensures tempPathList == old(tempPathList) + Extend(Paths(P, dest, |P| - |suffix| - 1), suffix)
      ensures r == if P[dest].None? then [dest] + suffix else suffix
      decreases |P| - |suffix|
    {
      ghost var n: nat := |P| - |suffix| - 1;
      var prev := prevEdges[dest];
      if prev == None {
        r := [dest] + suffix;
        tempPathList := tempPathList + [r];
        GatherMarked(P, dest, n, suffix, old(tempPathList), tempPathList);
      } else {
        var updatedPath := [dest] + suffix;
        var list := prev.value;
        ghost var m: nat := 0;
        if |list| > 0 {
          Fresh(P, suffix, dest, list[0]);
          m := n - 1;
        }
        assert list == P[dest].value;
        for i := 0 to |list|
          invariant prevEdges[..] == P
          invariant tempPathList == old(tempPathList) + Extend(PathsVia(P, dest, P[dest].value, i, m), suffix)
        {
          Fresh(P, suffix, dest, list[i]);
          assert |P| - |updatedPath| - 1 == m;
          var _ := GetShortestPaths(updatedPath, list[i], P);
          GatherStep(P, dest, i, m, suffix, old(tempPathList), tempPathList);
        }
        GatherDone(P, dest, n, m, suffix, old(tempPathList), tempPathList);
        r := suffix;
      }
    }

    /**
     * getAllShortestPaths(): the paths to every reached vertex other than the source, in
     * ascending order of target; each is a shortest path.
     */
    function GetAllShortestPaths(): (r: seq<seq<int>>)
      reads this, distTo, prevEdges
      requires Valid()
      ensures r == Collected(prevEdges[..], distTo[..], sourceNode, graph.V)
      ensures forall i :: 0 <= i < |r| ==> SimpleShortest(graph, sourceNode, distTo[..], r[i])
      ensures forall p :: IsShortestPath(graph, sourceNode, distTo[..], p) && p[|p| - 1] != sourceNode ==> p in r
    {
      CollectedAreShortest(graph, sourceNode, distTo[..], prevEdges[..], settled, routes, graph.V);
      forall p | IsShortestPath(graph, sourceNode, distTo[..], p) && p[|p| - 1] != sourceNode
        ensures p in allShortestPaths
      {
        ShortestCollected(graph, sourceNode, distTo[..], prevEdges[..], settled, routes, allShortestPaths, p);
      }
      allShortestPaths
    }

    /** The constructor as a whole: it throws when an edge of G has negative weight. */
    static method Create(G: EdgeWeightedDigraph, s: int) returns (r: Result<DijkstraSP, Error>)
      requires G.Valid() && 0 <= s < G.V && (NonNegative(G.Graph()) ==> NoZeroCycle(G.Graph()))
      ensures r.Failure? <==> !NonNegative(G.Graph())
      ensures r.Failure? ==> r.error == NegativeWeight
      ensures r.Success? ==> fresh(r.value) && r.value.Valid() && r.value.graph == G.Graph() && r.value.sourceNode == s
    {
      var edges := G.Edges();
      for i := 0 to |edges|
        invariant forall j :: 0 <= j < i ==> edges[j].weight >= 0
      {
        if edges[i].weight < 0 {
          assert HasEdge(G.Graph(), edges[i]);
          return Failure(NegativeWeight);
        }
      }
      forall v, e | 0 <= v < |G.Graph().adj| && e in G.Graph().adj[v] ensures e.weight >= 0 {
        assert HasEdge(G.Graph(), e);
        var j :| 0 <= j < |edges| && edges[j] == e;
      }
      var d := new DijkstraSP(G, s);
      return Success(d);
    }
  }
}
