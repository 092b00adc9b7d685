/** Shared value types: optional values, results with an error, and distances with +infinity. */
module Common {

  datatype Option<+T> = None | Some(value: T)

  datatype Result<+T, +E> = Success(value: T) | Failure(error: E)

  /** The outcome of an operation that returns nothing but may throw. */
  datatype Outcome<+E> = Pass | Fail(error: E)

  /** The exceptions the source throws, one constructor per kind. */
  datatype Error =
    | InvalidVertex(v: int)           // vertex id outside [0, V)
    | InvalidArgument                 // a negative vertex name or vertex count
    | NegativeWeight                  // Dijkstra given an edge of negative weight
    | NegativeCycleExists             // a query on a Bellman-Ford run that found a negative cycle
    | NotConverged                    // a query on a Bellman-Ford run stopped by its round bound

  /** A distance as held in a `double[] distTo`: a finite value or +infinity. */
  datatype Dist = Fin(d: int) | Inf

  /** `dist + w` with IEEE semantics for +infinity: Inf + w == Inf. */
  function Plus(a: Dist, w: int): (r: Dist)
    ensures r.Inf? <==> a.Inf?
    ensures a.Fin? ==> r.d - a.d == w
  {
    match a
    case Inf => Inf
    case Fin(x) => Fin(x + w)
  }

  /** `a < b` on extended distances: every finite value is below +infinity, which is below nothing. */
  predicate Less(a: Dist, b: Dist)
  {
    match (a, b)
    case (Fin(x), Fin(y)) => x < y
    case (Fin(_), Inf) => true
    case (Inf, _) => false
  }

  predicate LessEq(a: Dist, b: Dist)
  {
    !Less(b, a)
  }

  lemma LessIsStrictOrder(a: Dist, b: Dist, c: Dist)
    ensures !Less(a, a)
    ensures Less(a, b) ==> !Less(b, a)
    ensures Less(a, b) && Less(b, c) ==> Less(a, c)
    ensures LessEq(a, b) <==> (Less(a, b) || a == b)
  {
  }
}
