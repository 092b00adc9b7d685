/** A weighted directed edge `from -> to`. */
module DirectedEdges {
  import opened Common

  /** The value of an edge. Two DirectedEdge objects are `equals` exactly when their values agree. */
  datatype Edge = Edge(from: int, to: int, weight: int)

  /** The constructor's validation: vertex names must be non-negative; there is no upper bound here. */
  function CheckEdge(v: int, w: int, weight: int): (r: Result<Edge, Error>)
    ensures r.Success? <==> 0 <= v && 0 <= w
    ensures r.Failure? ==> r.error == InvalidArgument
    ensures r.Success? ==> r.value.from == v && r.value.to == w && r.value.weight == weight
  {
    if v < 0 || w < 0 then Failure(InvalidArgument) else Success(Edge(v, w, weight))
  }

  class DirectedEdge {
    const v: int
    const w: int
    var weight: int

    constructor (v: int, w: int, weight: int)
      requires 0 <= v && 0 <= w
      ensures Value() == Edge(v, w, weight)
    {
      this.v := v;
      this.w := w;
      this.weight := weight;
    }

    /** `new DirectedEdge(v, w, weight)`, with the exception for a negative vertex name. */
    static method Create(v: int, w: int, weight: int) returns (r: Result<DirectedEdge, Error>)
      ensures r.Success? <==> CheckEdge(v, w, weight).Success?
      ensures r.Failure? ==> r.error == InvalidArgument
      ensures r.Success? ==> fresh(r.value) && r.value.Value() == CheckEdge(v, w, weight).value
    {
      if v < 0 || w < 0 {
        return Failure(InvalidArgument);
      }
      var e := new DirectedEdge(v, w, weight);
      return Success(e);
    }

    /** The tail of the edge. */
    function From(): (r: int)
      ensures r == Value().from
    {
      v
    }

    /** The head of the edge. */
    function To(): (r: int)
      ensures r == Value().to
    {
      w
    }

    /** The current weight. */
    function Weight(): (r: int)
      reads this
      ensures r == Value().weight
    {
      weight
    }

    function Value(): Edge reads this { Edge(v, w, weight) }

    /** Only the weight changes; the endpoints are final. */
    method SetWeight(weight: int)
      modifies this
      ensures Value() == old(Value()).(weight := weight)
    {
      this.weight := weight;
    }

    predicate Equals(that: DirectedEdge)
      reads this, that
      ensures Equals(that) <==> Value() == that.Value()
    {
      that.From() == From() && that.To() == To() && that.weight == weight
    }
  }

  /** `equals` is an equivalence: reflexive, symmetric and transitive. */
  lemma EqualsIsEquivalence(a: DirectedEdge, b: DirectedEdge, c: DirectedEdge)
    ensures a.Equals(a)
    ensures a.Equals(b) <==> b.Equals(a)
    ensures a.Equals(b) && b.Equals(c) ==> a.Equals(c)
  {
  }
}
