/** One tie-keeping Dijkstra run per source vertex. */
module AllPairs {
  import opened Common
  import opened Walks
  import opened Digraphs
  import opened Dijkstra

  class DijkstraAllPairsSP {
    /** all[v] is the run from source v; the array is filled in vertex order. */
    const all: array<DijkstraSP?>
    ghost const graph: Digraph
    /** The table, the runs and their arrays. */
    ghost var Repr: set<object>

    /** Run v is a finished run from source v over the graph the table was built for. */
    ghost predicate RunOk(v: int)
      reads this, Repr
      requires all in Repr && 0 <= v < all.Length
    {
      all[v] != null && all[v] in Repr && all[v].distTo in Repr && all[v].prevEdges in Repr &&
      all[v].sourceNode == v && all[v].graph == graph && all[v].Valid()
    }

    ghost predicate Valid()
      reads this, Repr
    {
      all in Repr && all.Length == graph.V && forall v :: 0 <= v < all.Length ==> RunOk(v)
    }

    /** The constructor once the weights are known to be admissible: run v is `new DijkstraSP(G, v)`. */
    constructor (G: EdgeWeightedDigraph)
      requires G.Valid() && Admissible(G.Graph())
      ensures graph == G.Graph() && Valid() && fresh(all)
      ensures unchanged(G, G.adj)
    {
      graph := G.Graph();
      all := new DijkstraSP?[G.V](_ => null);
      Repr := {all};
      new;
      Fill(G);
    }

    /** The loop of the constructor: all[v] := new DijkstraSP(G, v) for every vertex in turn. */
    method Fill(G: EdgeWeightedDigraph)
      requires G.Valid() && Admissible(G.Graph()) && graph == G.Graph() && all in Repr && all.Length == G.V
      modifies this`Repr, all
      ensures all in Repr && forall v :: 0 <= v < all.Length ==> RunOk(v)
    {
      for v := 0 to G.V
        invariant all in Repr
        invariant forall u :: 0 <= u < v ==> RunOk(u)
      {
        Place(G, v);
      }
    }

    /** One step of the loop: the run from v is built and stored; every other entry stays. */
    method Place(G: EdgeWeightedDigraph, v: int)
      requires G.Valid() && Admissible(G.Graph()) && graph == G.Graph() && all in Repr && all.Length == G.V
      requires 0 <= v < G.V
      modifies this`Repr, all
      ensures all in Repr && old(Repr) <= Repr && RunOk(v)
      ensures forall u :: 0 <= u < all.Length && u != v ==> all[u] == old(all[u])
      ensures forall u :: 0 <= u < all.Length && u != v && old(RunOk(u)) ==> RunOk(u)
    {
      var run := new DijkstraSP(G, v);
      all[v] := run;
      Repr := Repr + {run, run.distTo, run.prevEdges};
      assert RunOk(v);
    }

    /** getAll(): the table itself; entry v is the finished run from v. */
    function GetAll(): (r: array<DijkstraSP?>)
      reads this, Repr
      requires Valid()
      ensures r.Length == graph.V
      ensures forall v :: 0 <= v < r.Length ==> r[v] != null && r[v].sourceNode == v && r[v].graph == graph && r[v].Valid()
    {
      assert forall v :: 0 <= v < all.Length ==> all[v] != null && all[v].sourceNode == v && all[v].graph == graph && all[v].Valid() by {
        forall v | 0 <= v < all.Length
          ensures all[v] != null && all[v] in Repr && all[v].distTo in Repr && all[v].prevEdges in Repr && all[v].sourceNode == v && all[v].graph == graph && all[v].Valid() {
          assert RunOk(v);
        }
      }
      all
    }

    /**
     * The constructor as a whole. The first run, from vertex 0, throws exactly when an edge has a
     * negative weight; with no vertex there is no edge and nothing throws.
     */
    static method Create(G: EdgeWeightedDigraph) returns (r: Result<DijkstraAllPairsSP, Error>)
      requires G.Valid() && (NonNegative(G.Graph()) ==> NoZeroCycle(G.Graph()))
      ensures r.Failure? <==> !NonNegative(G.Graph())
      ensures r.Failure? ==> r.error == NegativeWeight
      ensures r.Success? ==> fresh(r.value) && r.value.Valid() && r.value.graph == G.Graph()
    {
      if G.V > 0 {
        var first := DijkstraSP.Create(G, 0);
        if first.Failure? {
          return Failure(first.error);
        }
      } else {
        assert G.Graph().adj == [];
      }
      var ap := new DijkstraAllPairsSP(G);
      return Success(ap);
    }
  }
}
