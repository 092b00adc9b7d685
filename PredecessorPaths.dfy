/**
 * The predecessor lists that a tie-keeping Dijkstra run records, and the paths they spell out.
 * `prev[w]` lists the vertices that precede w on some shortest path, in the order they were
 * recorded; `None` marks the source (a null list in the Java code).
 */
module PredecessorPaths {
  import opened Common

  type Preds = seq<Option<seq<int>>>

  /** Every listed predecessor is a vertex. */
  ghost predicate InRange(prev: Preds)
  {
    forall w, i :: 0 <= w < |prev| && prev[w].Some? && 0 <= i < |prev[w].value| ==> 0 <= prev[w].value[i] < |prev|
  }

  /** a is listed as a predecessor of b. */
  predicate IsPred(prev: Preds, a: int, b: int)
  {
    0 <= b < |prev| && prev[b].Some? && a in prev[b].value
  }

  /** Each vertex of c is listed as a predecessor of the next one. */
  ghost predicate Chain(prev: Preds, c: seq<int>)
  {
    forall i :: 0 <= i < |c| - 1 ==> IsPred(prev, c[i], c[i + 1])
  }

  /** No chain of predecessors comes back to the vertex it started from. */
  ghost predicate Acyclic(prev: Preds)
  {
    forall c {:trigger Chain(prev, c)} :: Chain(prev, c) && |c| >= 2 ==> c[0] != c[|c| - 1]
  }

  ghost predicate Distinct(c: seq<int>)
  {
    forall i, j :: 0 <= i < j < |c| ==> c[i] != c[j]
  }

  /** Every entry of c is one of the vertices 0..n-1. */
  ghost predicate Below(c: seq<int>, n: int)
  {
    forall i :: 0 <= i < |c| ==> 0 <= c[i] < n
  }

  /**
   * The arguments getShortestPaths(suffix, dest) may be called with: [dest] + suffix is a
   * chain, read backwards from the target, over an acyclic predecessor relation.
   */
  ghost predicate Pending(prev: Preds, suffix: seq<int>, dest: int)
  {
    InRange(prev) && Acyclic(prev) && 0 <= dest < |prev| && |suffix| < |prev| && Chain(prev, [dest] + suffix)
  }

  /** Each path of P followed by suffix. */
  function Extend(P: seq<seq<int>>, suffix: seq<int>): (r: seq<seq<int>>)
    ensures |r| == |P|
    ensures forall i :: 0 <= i < |P| ==> r[i] == P[i] + suffix
  {
    seq(|P|, i requires 0 <= i < |P| => P[i] + suffix)
  }

  /**
   * The paths that end at dest and follow at most n predecessor steps back to a vertex
   * marked None: [dest] when dest is marked, otherwise, for each listed predecessor p in
   * list order, the paths to p extended by dest.
   */
  function Paths(prev: Preds, dest: int, n: nat): seq<seq<int>>
    requires InRange(prev) && 0 <= dest < |prev|
    decreases n, 1, 0
  {
    if prev[dest].None? then [[dest]]
    else if n == 0 then []
    else PathsVia(prev, dest, prev[dest].value, |prev[dest].value|, n - 1)
  }

  /** The paths through the first k entries of list, a predecessor list of dest. */
  function PathsVia(prev: Preds, dest: int, list: seq<int>, k: nat, n: nat): seq<seq<int>>
    requires InRange(prev) && 0 <= dest < |prev| && k <= |list|
    requires forall i :: 0 <= i < |list| ==> 0 <= list[i] < |prev|
    decreases n + 1, 0, k
  {
    if k == 0 then [] else PathsVia(prev, dest, list, k - 1, n) + Extend(Paths(prev, list[k - 1], n), [dest])
  }

  /** The paths the recursion of getAllShortestPathsTo(dest) lists: enough steps for any chain of distinct vertices. */
  function AllPaths(prev: Preds, dest: int): seq<seq<int>>
    requires InRange(prev) && 0 <= dest < |prev|
  {
    Paths(prev, dest, |prev| - 1)
  }

  /** The number of paths to each entry of list, summed over its first k entries. */
  function CountVia(prev: Preds, list: seq<int>, k: nat): nat
    requires InRange(prev) && k <= |list|
    requires forall i :: 0 <= i < |list| ==> 0 <= list[i] < |prev|
  {
    if k == 0 then 0 else CountVia(prev, list, k - 1) + |AllPaths(prev, list[k - 1])|
  }

  /** A path as listed: it starts at a vertex marked None, ends at dest, and is a chain. */
  ghost predicate Rooted(prev: Preds, r: seq<int>, dest: int)
  {
    |r| >= 1 && 0 <= r[0] < |prev| && prev[r[0]].None? && r[|r| - 1] == dest && Chain(prev, r)
  }

  lemma ExtendAppend(A: seq<seq<int>>, B: seq<seq<int>>, suffix: seq<int>)
    ensures Extend(A + B, suffix) == Extend(A, suffix) + Extend(B, suffix)
  {
  }

  lemma ExtendTwice(P: seq<seq<int>>, a: seq<int>, b: seq<int>)
    ensures Extend(Extend(P, a), b) == Extend(P, a + b)
  {
    forall i | 0 <= i < |P| ensures Extend(Extend(P, a), b)[i] == Extend(P, a + b)[i] {
      assert P[i] + a + b == P[i] + (a + b);
    }
  }

  lemma ExtendNil(P: seq<seq<int>>)
    ensures Extend(P, []) == P
  {
    forall i | 0 <= i < |P| ensures Extend(P, [])[i] == P[i] {
      assert P[i] + [] == P[i];
    }
  }

  /** The paths gathered so far, followed by those through the next entry of dest's list. */
  lemma GatherStep(prev: Preds, dest: int, k: nat, n: nat, suffix: seq<int>, T: seq<seq<int>>, X: seq<seq<int>>)
    requires InRange(prev) && 0 <= dest < |prev| && prev[dest].Some? && k < |prev[dest].value|
    requires X == T + Extend(PathsVia(prev, dest, prev[dest].value, k, n), suffix) +
                  Extend(Paths(prev, prev[dest].value[k], n), [dest] + suffix)
    ensures X == T + Extend(PathsVia(prev, dest, prev[dest].value, k + 1, n), suffix)
  {
    ViaExtend(prev, dest, k, n, suffix);
    var A, B := Extend(PathsVia(prev, dest, prev[dest].value, k, n), suffix), Extend(Paths(prev, prev[dest].value[k], n), [dest] + suffix);
    assert T + A + B == T + (A + B);
  }

  /** getShortestPaths at a vertex marked None: the one path [dest], followed by suffix. */
  lemma GatherMarked(prev: Preds, dest: int, n: nat, suffix: seq<int>, T: seq<seq<int>>, X: seq<seq<int>>)
    requires InRange(prev) && 0 <= dest < |prev| && prev[dest].None? && X == T + [[dest] + suffix]
    ensures X == T + Extend(Paths(prev, dest, n), suffix)
  {
    assert Extend(Paths(prev, dest, n), suffix) == [[dest] + suffix];
  }

  /** getShortestPaths after its loop: the paths through every entry are all the paths to dest. */
  lemma GatherDone(prev: Preds, dest: int, n: nat, m: nat, suffix: seq<int>, T: seq<seq<int>>, X: seq<seq<int>>)
    requires InRange(prev) && 0 <= dest < |prev| && prev[dest].Some?
    requires m == if |prev[dest].value| == 0 then 0 else n - 1
    requires X == T + Extend(PathsVia(prev, dest, prev[dest].value, |prev[dest].value|, m), suffix)
    ensures X == T + Extend(Paths(prev, dest, n), suffix)
  {
    if |prev[dest].value| == 0 {
      NoPredsNoPaths(prev, dest, n);
    }
  }

  /** One more entry of dest's list, with every path followed by suffix. */
  lemma ViaExtend(prev: Preds, dest: int, k: nat, n: nat, suffix: seq<int>)
    requires InRange(prev) && 0 <= dest < |prev| && prev[dest].Some? && k < |prev[dest].value|
    ensures Extend(PathsVia(prev, dest, prev[dest].value, k + 1, n), suffix) ==
            Extend(PathsVia(prev, dest, prev[dest].value, k, n), suffix) +
            Extend(Paths(prev, prev[dest].value[k], n), [dest] + suffix)
  {
    var list := prev[dest].value;
    ExtendAppend(PathsVia(prev, dest, list, k, n), Extend(Paths(prev, list[k], n), [dest]), suffix);
    ExtendTwice(Paths(prev, list[k], n), [dest], suffix);
  }

  /** Pigeonhole: distinct values below n number at most n. */
  lemma {:induction false} DistinctBound(c: seq<int>, n: nat)
    requires Distinct(c) && forall i :: 0 <= i < |c| ==> 0 <= c[i] < n
    ensures |c| <= n
    decreases |c|
  {
    if c != [] {
      // drop the last value x and rename n - 1 to x: distinct values below n - 1 remain
      var x := c[|c| - 1];
      var c' := seq(|c| - 1, i requires 0 <= i < |c| - 1 => if c[i] == n - 1 then x else c[i]);
      forall i, j | 0 <= i < j < |c'| ensures c'[i] != c'[j] {
        assert c[i] != c[j] && c[i] != x && c[j] != x;
      }
      forall i | 0 <= i < |c'| ensures 0 <= c'[i] < n - 1 {
        assert c[i] != x;
      }
      DistinctBound(c', n - 1);
    }
  }

  /** A chain through an acyclic predecessor graph never repeats a vertex. */
  lemma ChainDistinct(prev: Preds, c: seq<int>)
    requires Acyclic(prev) && Chain(prev, c)
    ensures Distinct(c)
  {
    forall i, j | 0 <= i < j < |c| ensures c[i] != c[j] {
      var loop := c[i..j + 1];
      assert Chain(prev, loop) by {
        forall a | 0 <= a < |loop| - 1 ensures IsPred(prev, loop[a], loop[a + 1]) {
          assert loop[a] == c[i + a] && loop[a + 1] == c[i + a + 1];
        }
      }
      assert loop[0] == c[i] && loop[|loop| - 1] == c[j];
    }
  }

  lemma ChainBound(prev: Preds, c: seq<int>)
    requires InRange(prev) && Acyclic(prev) && Chain(prev, c) && |c| >= 1 && 0 <= c[|c| - 1] < |prev|
    ensures |c| <= |prev|
  {
    ChainDistinct(prev, c);
    ChainInRange(prev, c);
    DistinctBound(c, |prev|);
  }

  /** Every vertex of a chain ending at a vertex is a vertex. */
  lemma ChainInRange(prev: Preds, c: seq<int>)
    requires InRange(prev) && Chain(prev, c) && |c| >= 1 && 0 <= c[|c| - 1] < |prev|
    ensures Below(c, |prev|)
  {
    forall i | 0 <= i < |c| ensures 0 <= c[i] < |prev| {
      if i < |c| - 1 {
        assert IsPred(prev, c[i], c[i + 1]);
        var k :| 0 <= k < |prev[c[i + 1]].value| && prev[c[i + 1]].value[k] == c[i];
      }
    }
  }

  /**
   * A listed predecessor p of dest may extend the partial path [dest] + suffix, and the
   * partial path has room to grow.
   */
  lemma Fresh(prev: Preds, suffix: seq<int>, dest: int, p: int)
    requires Pending(prev, suffix, dest) && IsPred(prev, p, dest)
    ensures Pending(prev, [dest] + suffix, p)
    ensures |suffix| + 2 <= |prev|
  {
    var u := [dest] + suffix;
    var c := [p] + u;
    forall i | 0 <= i < |c| - 1 ensures IsPred(prev, c[i], c[i + 1]) {
      if i > 0 {
        assert c[i] == u[i - 1] && c[i + 1] == u[i];
      }
    }
    var k :| 0 <= k < |prev[dest].value| && prev[dest].value[k] == p;
    assert Chain(prev, c);
    assert c[|c| - 1] == u[|u| - 1];
    if |u| > 1 {
      assert IsPred(prev, u[|u| - 2], u[|u| - 1]);
    }
    ChainBound(prev, c);
  }

  /** Every listed path is rooted: from a vertex marked None, through listed predecessors, to dest. */
  lemma {:induction false} PathsRooted(prev: Preds, dest: int, n: nat)
    requires InRange(prev) && 0 <= dest < |prev|
    ensures forall i :: 0 <= i < |Paths(prev, dest, n)| ==> Rooted(prev, Paths(prev, dest, n)[i], dest)
    decreases n, 1, 0
  {
    if prev[dest].None? {
      assert Paths(prev, dest, n) == [[dest]];
    } else if n > 0 {
      PathsViaRooted(prev, dest, |prev[dest].value|, n - 1);
      assert Paths(prev, dest, n) == PathsVia(prev, dest, prev[dest].value, |prev[dest].value|, n - 1);
    }
  }

  lemma {:induction false} PathsViaRooted(prev: Preds, dest: int, k: nat, n: nat)
    requires InRange(prev) && 0 <= dest < |prev| && prev[dest].Some? && k <= |prev[dest].value|
    ensures forall i :: 0 <= i < |PathsVia(prev, dest, prev[dest].value, k, n)| ==>
              Rooted(prev, PathsVia(prev, dest, prev[dest].value, k, n)[i], dest)
    decreases n + 1, 0, k
  {
    var list := prev[dest].value;
    if k > 0 {
      var p := list[k - 1];
      PathsViaRooted(prev, dest, k - 1, n);
      PathsRooted(prev, p, n);
      var A, B := PathsVia(prev, dest, list, k - 1, n), Paths(prev, p, n);
      var X := Extend(B, [dest]);
      forall i | 0 <= i < |X| ensures Rooted(prev, X[i], dest) {
        var r := B[i];
        assert Rooted(prev, r, p);
        var r' := r + [dest];
        assert X[i] == r';
        forall j | 0 <= j < |r'| - 1 ensures IsPred(prev, r'[j], r'[j + 1]) {
          if j < |r| - 1 {
            assert r'[j] == r[j] && r'[j + 1] == r[j + 1];
          } else {
            assert r'[j] == p && list[k - 1] == p;
          }
        }
      }
      var P := PathsVia(prev, dest, list, k, n);
      assert P == A + X;
      forall i | 0 <= i < |P| ensures Rooted(prev, P[i], dest) {
        if i < |A| {
          assert P[i] == A[i];
        } else {
          assert P[i] == X[i - |A|];
        }
      }
    }
  }

  /** An empty predecessor list spells out no path. */
  lemma NoPredsNoPaths(prev: Preds, dest: int, n: nat)
    requires InRange(prev) && 0 <= dest < |prev| && prev[dest] == Some([])
    ensures Paths(prev, dest, n) == []
  {
    if n > 0 {
      assert PathsVia(prev, dest, [], 0, n - 1) == [];
    }
  }

  /**
   * Once the step bound covers every chain of distinct vertices, more steps list the same
   * paths: the recursion never runs out of steps on an acyclic predecessor relation.
   */
  lemma {:induction false} PathsStable(prev: Preds, suffix: seq<int>, dest: int, n: nat, m: nat)
    requires Pending(prev, suffix, dest)
    requires n >= |prev| - |suffix| - 1 && m >= |prev| - |suffix| - 1
    ensures Paths(prev, dest, n) == Paths(prev, dest, m)
    decreases |prev| - |suffix|, 1, 0
  {
    if prev[dest].Some? {
      if |prev[dest].value| == 0 {
        NoPredsNoPaths(prev, dest, n);
        NoPredsNoPaths(prev, dest, m);
      } else {
        Fresh(prev, suffix, dest, prev[dest].value[0]);
        PathsViaStable(prev, suffix, dest, |prev[dest].value|, n - 1, m - 1);
      }
    }
  }

  lemma {:induction false} PathsViaStable(prev: Preds, suffix: seq<int>, dest: int, k: nat, n: nat, m: nat)
    requires Pending(prev, suffix, dest) && prev[dest].Some? && k <= |prev[dest].value|
    requires n >= |prev| - |suffix| - 2 && m >= |prev| - |suffix| - 2
    ensures PathsVia(prev, dest, prev[dest].value, k, n) == PathsVia(prev, dest, prev[dest].value, k, m)
    decreases |prev| - |suffix|, 0, k
  {
    if k > 0 {
      var list := prev[dest].value;
      var p := list[k - 1];
      PathsViaStable(prev, suffix, dest, k - 1, n, m);
      Fresh(prev, suffix, dest, p);
      PathsStable(prev, [dest] + suffix, p, n, m);
      var X := Extend(Paths(prev, p, n), [dest]);
      assert X == Extend(Paths(prev, p, m), [dest]);
      assert PathsVia(prev, dest, list, k, n) == PathsVia(prev, dest, list, k - 1, n) + X;
      assert PathsVia(prev, dest, list, k, m) == PathsVia(prev, dest, list, k - 1, m) + X;
    }
  }

  /**
   * The path-count recurrence: one path to a vertex marked None, and otherwise the number of
   * paths to its listed predecessors, summed entry by entry (duplicates count twice); an
   * empty list gives no path at all.
   */
  lemma PathCount(prev: Preds, dest: int)
    requires InRange(prev) && Acyclic(prev) && 0 <= dest < |prev|
    ensures prev[dest].None? ==> |AllPaths(prev, dest)| == 1
    ensures prev[dest].Some? ==> |AllPaths(prev, dest)| == CountVia(prev, prev[dest].value, |prev[dest].value|)
    ensures prev[dest] == Some([]) ==> AllPaths(prev, dest) == []
  {
    if prev[dest].Some? {
      var list := prev[dest].value;
      if |list| == 0 {
        NoPredsNoPaths(prev, dest, |prev| - 1);
      } else {
        EntriesStable(prev, dest);
        CountViaPaths(prev, dest, |list|, |prev| - 2);
        assert AllPaths(prev, dest) == PathsVia(prev, dest, list, |list|, |prev| - 2);
      }
    }
  }

  /** The paths to a listed predecessor need one step fewer than |prev| - 1. */
  lemma EntriesStable(prev: Preds, dest: int)
    requires InRange(prev) && Acyclic(prev) && 0 <= dest < |prev| && prev[dest].Some? && |prev[dest].value| > 0
    ensures |prev| >= 2
    ensures forall j :: 0 <= j < |prev[dest].value| ==>
              Paths(prev, prev[dest].value[j], |prev| - 2) == AllPaths(prev, prev[dest].value[j])
  {
    var list := prev[dest].value;
    assert Pending(prev, [], dest) by {
      assert [dest] + [] == [dest];
    }
    Fresh(prev, [], dest, list[0]);
    forall j | 0 <= j < |list| ensures Paths(prev, list[j], |prev| - 2) == AllPaths(prev, list[j]) {
      Fresh(prev, [], dest, list[j]);
      PathsStable(prev, [dest], list[j], |prev| - 2, |prev| - 1);
    }
  }

  lemma {:induction false} CountViaPaths(prev: Preds, dest: int, k: nat, n: nat)
    requires InRange(prev) && 0 <= dest < |prev| && prev[dest].Some? && k <= |prev[dest].value|
    requires forall j :: 0 <= j < k ==> Paths(prev, prev[dest].value[j], n) == AllPaths(prev, prev[dest].value[j])
    ensures |PathsVia(prev, dest, prev[dest].value, k, n)| == CountVia(prev, prev[dest].value, k)
  {
    var list := prev[dest].value;
    if k > 0 {
      CountViaPaths(prev, dest, k - 1, n);
      assert PathsVia(prev, dest, list, k, n) ==
        PathsVia(prev, dest, list, k - 1, n) + Extend(Paths(prev, list[k - 1], n), [dest]);
    }
  }

  /**
   * The converse of PathsRooted: every rooted chain within the step bound is listed, so the
   * recursion misses no path that the predecessor lists spell out.
   */
  lemma {:induction false} ChainListed(prev: Preds, r: seq<int>, dest: int, n: nat)
    requires InRange(prev) && 0 <= dest < |prev| && Rooted(prev, r, dest) && n >= |r| - 1
    ensures r in Paths(prev, dest, n)
    decreases n
  {
    if |r| == 1 {
      assert r == [dest];
    } else {
      var p := r[|r| - 2];
      assert IsPred(prev, p, dest);
      var list := prev[dest].value;
      var j :| 0 <= j < |list| && list[j] == p;
      var r' := r[..|r| - 1];
      assert Rooted(prev, r', p) by {
        forall i | 0 <= i < |r'| - 1 ensures IsPred(prev, r'[i], r'[i + 1]) {
          assert IsPred(prev, r[i], r[i + 1]);
        }
      }
      ChainListed(prev, r', p, n - 1);
      var i :| 0 <= i < |Paths(prev, p, n - 1)| && Paths(prev, p, n - 1)[i] == r';
      assert r == r' + [dest];
      assert Extend(Paths(prev, p, n - 1), [dest])[i] == r;
      ViaContains(prev, dest, |list|, n - 1, j, r);
    }
  }

  /** A path through the j-th entry of the list is among the paths through its first k > j entries. */
  lemma {:induction false} ViaContains(prev: Preds, dest: int, k: nat, n: nat, j: nat, x: seq<int>)
    requires InRange(prev) && 0 <= dest < |prev| && prev[dest].Some? && j < k <= |prev[dest].value|
    requires x in Extend(Paths(prev, prev[dest].value[j], n), [dest])
    ensures x in PathsVia(prev, dest, prev[dest].value, k, n)
    decreases k
  {
    var list := prev[dest].value;
    var A := PathsVia(prev, dest, list, k - 1, n);
    var B := Extend(Paths(prev, list[k - 1], n), [dest]);
    assert PathsVia(prev, dest, list, k, n) == A + B;
    if j < k - 1 {
      ViaContains(prev, dest, k - 1, n, j, x);
    }
  }

  /** Over an acyclic relation, every rooted chain ending at dest is among the paths listed for dest. */
  lemma RootedListed(prev: Preds, r: seq<int>, dest: int)
    requires InRange(prev) && Acyclic(prev) && 0 <= dest < |prev| && Rooted(prev, r, dest)
    ensures r in AllPaths(prev, dest)
  {
    ChainBound(prev, r);
    ChainListed(prev, r, dest, |prev| - 1);
  }
}
