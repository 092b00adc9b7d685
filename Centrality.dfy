/**
 * The counting behind betweenness centrality, on the lists of shortest paths a source's
 * Dijkstra run collects: sigma(s, t), sigma(s, t, v), the vertices strictly inside the paths,
 * the share each inner vertex gains, and the scores summed over all ordered pairs.
 */
module Centrality {
  import opened PredecessorPaths

  /** A list of paths as sigmaST reads it: every path has a last vertex. */
  predicate NonEmpty(P: seq<seq<int>>)
  {
    forall i :: 0 <= i < |P| ==> |P[i]| >= 1
  }

  /** Every listed path starts at s and repeats no vertex. */
  ghost predicate SimpleFrom(P: seq<seq<int>>, s: int)
  {
    NonEmpty(P) && forall i :: 0 <= i < |P| ==> P[i][0] == s && Distinct(P[i])
  }

  function Last(p: seq<int>): int
    requires |p| >= 1
  {
    p[|p| - 1]
  }

  /** The vertices at positions 1 .. |p| - 2, the ones the inner loop of sigmaST visits. */
  function Interior(p: seq<int>): seq<int>
  {
    if |p| < 2 then [] else p[1..|p| - 1]
  }

  /** sigma(s, t): the number of listed paths that end at t. */
  function Sigma(P: seq<seq<int>>, t: int): nat
    requires NonEmpty(P)
  {
    if P == [] then 0
    else Sigma(P[..|P| - 1], t) + (if Last(P[|P| - 1]) == t then 1 else 0)
  }

  /** sigma(s, t, v): how often v occurs strictly inside a listed path that ends at t. */
  function SigmaV(P: seq<seq<int>>, t: int, v: int): nat
    requires NonEmpty(P)
  {
    if P == [] then 0
    else SigmaV(P[..|P| - 1], t, v) + (if Last(P[|P| - 1]) == t then multiset(Interior(P[|P| - 1]))[v] else 0)
  }

  /** The vertices strictly inside some listed path that ends at t (containedVertices after sigmaST). */
  function Through(P: seq<seq<int>>, t: int): set<int>
    requires NonEmpty(P)
  {
    if P == [] then {}
    else Through(P[..|P| - 1], t) + (if Last(P[|P| - 1]) == t then Members(Interior(P[|P| - 1])) else {})
  }

  function Members(q: seq<int>): set<int>
  {
    set x | x in q
  }

  /** The number of listed paths that end at t and have v strictly inside. */
  function PathsThrough(P: seq<seq<int>>, t: int, v: int): nat
    requires NonEmpty(P)
  {
    if P == [] then 0
    else PathsThrough(P[..|P| - 1], t, v) + (if Last(P[|P| - 1]) == t && v in Interior(P[|P| - 1]) then 1 else 0)
  }

  /** What vertex v gains from the ordered pair (s, t): sigma(s, t, v) / sigma(s, t) for an inner vertex. */
  function Gain(P: seq<seq<int>>, s: int, t: int, v: int): real
    requires NonEmpty(P)
  {
    if s != t && Sigma(P, t) != 0 && v in Through(P, t) then (SigmaV(P, t, v) as real) / (Sigma(P, t) as real)
    else 0.0
  }

  /** The gains of v from the pairs (s, t) with t < n. */
  function RowGain(P: seq<seq<int>>, s: int, n: nat, v: int): real
    requires NonEmpty(P)
  {
    if n == 0 then 0.0 else RowGain(P, s, n - 1, v) + Gain(P, s, n - 1, v)
  }

  /** Every source below m has its list of paths in T. */
  predicate Tabled(T: map<int, seq<seq<int>>>, m: nat)
  {
    forall s :: 0 <= s < m ==> s in T && NonEmpty(T[s])
  }

  /** The score of v once the sources below m are done, each over the targets below n. */
  function Score(T: map<int, seq<seq<int>>>, m: nat, n: nat, v: int): real
    requires Tabled(T, m)
  {
    if m == 0 then 0.0 else Score(T, m - 1, n, v) + RowGain(T[m - 1], m - 1, n, v)
  }

  // ---------------------------------------------------------------------------
  // What the counts mean

  /** sigma(s, t) is positive exactly when some listed path ends at t, and never exceeds the list. */
  lemma {:induction false} SigmaMeaning(P: seq<seq<int>>, t: int)
    requires NonEmpty(P)
    ensures Sigma(P, t) <= |P|
    ensures Sigma(P, t) > 0 <==> exists i :: 0 <= i < |P| && Last(P[i]) == t
  {
    if P != [] {
      var init := P[..|P| - 1];
      SigmaMeaning(init, t);
      if exists i :: 0 <= i < |init| && Last(init[i]) == t {
        var i :| 0 <= i < |init| && Last(init[i]) == t;
        assert P[i] == init[i];
      }
      if exists i :: 0 <= i < |P| && Last(P[i]) == t {
        var i :| 0 <= i < |P| && Last(P[i]) == t;
        if i < |init| {
          assert init[i] == P[i];
        }
      }
    }
  }

  /** containedVertices holds exactly the inner vertices of the paths that end at t. */
  lemma {:induction false} ThroughMeaning(P: seq<seq<int>>, t: int, v: int)
    requires NonEmpty(P)
    ensures v in Through(P, t) <==> exists i :: 0 <= i < |P| && Last(P[i]) == t && v in Interior(P[i])
  {
    if P != [] {
      var init := P[..|P| - 1];
      var k := |P| - 1;
      ThroughMeaning(init, t, v);
      if v in Through(P, t) {
        if v in Through(init, t) {
          var i :| 0 <= i < |init| && Last(init[i]) == t && v in Interior(init[i]);
          assert P[i] == init[i];
        } else {
          assert Last(P[k]) == t && v in Interior(P[k]);
        }
      } else {
        forall i | 0 <= i < |P| ensures !(Last(P[i]) == t && v in Interior(P[i])) {
          if i < k {
            assert P[i] == init[i];
          }
        }
      }
    }
  }

  /** sigma(s, t, v) is positive exactly for the vertices of containedVertices. */
  lemma {:induction false} SigmaVPositive(P: seq<seq<int>>, t: int, v: int)
    requires NonEmpty(P)
    ensures SigmaV(P, t, v) > 0 <==> v in Through(P, t)
  {
    if P != [] {
      SigmaVPositive(P[..|P| - 1], t, v);
    }
  }

  /** On paths that repeat no vertex, sigma(s, t, v) counts paths: it is the number of s-t paths through v. */
  lemma {:induction false} SigmaVCountsPaths(P: seq<seq<int>>, t: int, v: int)
    requires NonEmpty(P) && forall i :: 0 <= i < |P| ==> Distinct(P[i])
    ensures SigmaV(P, t, v) == PathsThrough(P, t, v)
    ensures SigmaV(P, t, v) <= Sigma(P, t)
  {
    if P != [] {
      var p := P[|P| - 1];
      SigmaVCountsPaths(P[..|P| - 1], t, v);
      InteriorOnce(p, v);
    }
  }

  /** A vertex occurs at most once inside a path that repeats no vertex. */
  lemma InteriorOnce(p: seq<int>, v: int)
    requires Distinct(p)
    ensures multiset(Interior(p))[v] == if v in Interior(p) then 1 else 0
  {
    var q := Interior(p);
    if |p| >= 2 {
      assert forall i, j :: 0 <= i < j < |q| ==> q[i] == p[i + 1] && q[j] == p[j + 1];
    }
    DistinctOnce(q, v);
  }

  lemma {:induction false} DistinctOnce(q: seq<int>, v: int)
    requires Distinct(q)
    ensures multiset(q)[v] == if v in q then 1 else 0
  {
    if q != [] {
      var init := q[..|q| - 1];
      assert q == init + [q[|q| - 1]];
      assert Distinct(init) by {
        forall i, j | 0 <= i < j < |init| ensures init[i] != init[j] {
          assert init[i] == q[i] && init[j] == q[j];
        }
      }
      DistinctOnce(init, v);
      if q[|q| - 1] == v {
        assert v !in init by {
          forall i | 0 <= i < |init| ensures init[i] != v {
            assert init[i] == q[i];
          }
        }
      }
    }
  }

  /** Neither end of a pair is ever inside one of its paths, when the paths start at s and repeat no vertex. */
  lemma {:induction false} EndsNotThrough(P: seq<seq<int>>, s: int, t: int)
    requires SimpleFrom(P, s)
    ensures s !in Through(P, t) && t !in Through(P, t)
  {
    if P != [] {
      var p := P[|P| - 1];
      assert SimpleFrom(P[..|P| - 1], s) by {
        forall i | 0 <= i < |P| - 1 ensures P[..|P| - 1][i] == P[i] {
        }
      }
      EndsNotThrough(P[..|P| - 1], s, t);
      if |p| >= 2 && Last(p) == t {
        forall k | 0 <= k < |Interior(p)| ensures Interior(p)[k] != s && Interior(p)[k] != t {
          assert Interior(p)[k] == p[k + 1];
          assert p[0] != p[k + 1] && p[k + 1] != p[|p| - 1];
        }
      }
    }
  }

  /**
   * The share of one pair is in [0, 1]; it is positive exactly for a vertex strictly inside one of
   * the pair's paths, and a pair without paths or a vertex at either end gains nothing.
   */
  lemma GainBounds(P: seq<seq<int>>, s: int, t: int, v: int)
    requires SimpleFrom(P, s)
    ensures 0.0 <= Gain(P, s, t, v) <= 1.0
    ensures Gain(P, s, t, v) > 0.0 <==> s != t && v in Through(P, t)
    ensures Gain(P, s, t, s) == 0.0 && Gain(P, s, t, t) == 0.0
  {
    SigmaVCountsPaths(P, t, v);
    SigmaVPositive(P, t, v);
    EndsNotThrough(P, s, t);
    if s != t && v in Through(P, t) {
      RatioInUnit(SigmaV(P, t, v), Sigma(P, t));
    }
  }

  lemma RatioInUnit(a: nat, b: nat)
    requires 0 < a <= b
    ensures 0.0 < (a as real) / (b as real) <= 1.0
  {
    var x, y := a as real, b as real;
    assert x / y * y == x;
  }

  /** Every path in T[s] starts at s and repeats no vertex, for each source below m. */
  ghost predicate SimpleTable(T: map<int, seq<seq<int>>>, m: nat)
  {
    Tabled(T, m) && forall s :: 0 <= s < m ==> SimpleFrom(T[s], s)
  }

  /** v is strictly inside a listed path from s to some target t < n other than s. */
  ghost predicate Inside(P: seq<seq<int>>, s: int, n: nat, v: int)
    requires NonEmpty(P)
  {
    exists t :: 0 <= t < n && t != s && v in Through(P, t)
  }

  /** A row is a sum of shares: between 0 and n, and positive exactly when v is inside an s-t path for some t != s. */
  lemma {:induction false} RowBounds(P: seq<seq<int>>, s: int, n: nat, v: int)
    requires SimpleFrom(P, s)
    ensures 0.0 <= RowGain(P, s, n, v) <= n as real
    ensures RowGain(P, s, n, v) > 0.0 <==> Inside(P, s, n, v)
  {
    if n > 0 {
      RowBounds(P, s, n - 1, v);
      GainBounds(P, s, n - 1, v);
    }
  }

  /**
   * The score of v sums the shares of the pairs (s, t) with s < m and t < n: it lies in [0, m * n]
   * and is positive exactly when v is strictly inside a listed path between two distinct vertices.
   */
  lemma {:induction false} ScoreBounds(T: map<int, seq<seq<int>>>, m: nat, n: nat, v: int)
    requires SimpleTable(T, m)
    ensures 0.0 <= Score(T, m, n, v) <= (m * n) as real
    ensures Score(T, m, n, v) > 0.0 <==> exists s :: 0 <= s < m && Inside(T[s], s, n, v)
  {
    if m > 0 {
      ScoreBounds(T, m - 1, n, v);
      RowBounds(T[m - 1], m - 1, n, v);
    }
  }

  /** The four minimal paths from 0 in the diamond 0->1, 0->2, 1->3, 2->3 with unit weights, each once. */
  function DiamondPaths(): seq<seq<int>>
  {
    [[0, 1], [0, 2], [0, 1, 3], [0, 2, 3]]
  }

  /** The first three paths of the diamond: one of them ends at 3, with 1 inside. */
  lemma DiamondPrefix()
    ensures Sigma(DiamondPaths()[..3], 3) == 1 && Through(DiamondPaths()[..3], 3) == {1}
    ensures SigmaV(DiamondPaths()[..3], 3, 1) == 1 && SigmaV(DiamondPaths()[..3], 3, 2) == 0
  {
    var P3 := DiamondPaths()[..3];
    var P1, P2 := [[0, 1]], [[0, 1], [0, 2]];
    assert P3 == [[0, 1], [0, 2], [0, 1, 3]];
    assert P3[..2] == P2 && P2[..1] == P1 && P1[..0] == [];
    assert Interior(P3[2]) == [1] && Interior(P2[1]) == [] && Interior(P1[0]) == [];
    assert Members([1]) == {1} by {
      assert [1][0] == 1;
    }
    assert Sigma(P1, 3) == 0 && SigmaV(P1, 3, 1) == 0 && SigmaV(P1, 3, 2) == 0 && Through(P1, 3) == {};
    assert Sigma(P2, 3) == 0 && SigmaV(P2, 3, 1) == 0 && SigmaV(P2, 3, 2) == 0 && Through(P2, 3) == {};
  }

  /** Two of the diamond's paths end at 3, one through 1 and one through 2. */
  lemma DiamondCounts()
    ensures Sigma(DiamondPaths(), 3) == 2 && Through(DiamondPaths(), 3) == {1, 2}
    ensures SigmaV(DiamondPaths(), 3, 1) == 1 && SigmaV(DiamondPaths(), 3, 2) == 1
  {
    var P := DiamondPaths();
    DiamondPrefix();
    assert P[..|P| - 1] == P[..3] && Interior(P[3]) == [2];
    assert Members([2]) == {2} by {
      assert [2][0] == 2;
    }
  }

  /** In the diamond, 1 and 2 each gain 1/2 from the pair (0, 3), and the ends gain nothing. */
  lemma DiamondShares()
    ensures Gain(DiamondPaths(), 0, 3, 1) == 0.5 && Gain(DiamondPaths(), 0, 3, 2) == 0.5
    ensures Gain(DiamondPaths(), 0, 3, 0) == 0.0 && Gain(DiamondPaths(), 0, 3, 3) == 0.0
  {
    DiamondCounts();
  }
}
