/** The ArrayList-backed bag: insertion-ordered, with removal of all equal items. */
module Bags {

  /** `s` without any element equal to `x`; the other elements keep their order. */
  function Removed<T(==)>(s: seq<T>, x: T): seq<T>
  {
    if s == [] then []
    else
      var init := s[..|s| - 1];
      if s[|s| - 1] == x then Removed(init, x) else Removed(init, x) + [s[|s| - 1]]
  }

  /** Removal drops exactly the copies of `x`: every other element keeps its multiplicity. */
  lemma {:induction false} RemovedSpec<T>(s: seq<T>, x: T)
    ensures x !in Removed(s, x)
    ensures multiset(Removed(s, x)) == multiset(s)[x := 0]
    ensures forall y :: y in Removed(s, x) ==> y in s
    ensures x !in s ==> Removed(s, x) == s
  {
    if s != [] {
      var init := s[..|s| - 1];
      assert s == init + [s[|s| - 1]];
      RemovedSpec(init, x);
    }
  }

  lemma RemovedSnoc<T>(s: seq<T>, y: T, x: T)
    ensures Removed(s + [y], x) == if y == x then Removed(s, x) else Removed(s, x) + [y]
  {
    assert (s + [y])[..|s|] == s;
  }

  /** One step of the removal loop: with the first `k` items done, item `k` is dropped or kept. */
  lemma RemoveStep<T>(s: seq<T>, k: nat, x: T)
    requires k < |s|
    ensures var done := Removed(s[..k], x);
            var b := done + s[k..];
            |done| < |b| && b[|done|] == s[k] &&
            (s[k] == x ==> b[..|done|] + b[|done| + 1..] == Removed(s[..k + 1], x) + s[k + 1..] &&
                           |Removed(s[..k + 1], x)| == |done|) &&
            (s[k] != x ==> b == Removed(s[..k + 1], x) + s[k + 1..] &&
                           |Removed(s[..k + 1], x)| == |done| + 1)
  {
    assert s[..k + 1] == s[..k] + [s[k]];
    RemovedSnoc(s[..k], s[k], x);
    DropFirstOf(Removed(s[..k], x), s[k..]);
    assert s[k..][1..] == s[k + 1..];
  }

  /** Deleting the element just after `d` from `d + t` leaves `d + t[1..]`. */
  lemma DropFirstOf<T>(d: seq<T>, t: seq<T>)
    requires |t| > 0
    ensures (d + t)[|d|] == t[0]
    ensures (d + t)[..|d|] + (d + t)[|d| + 1..] == d + t[1..]
  {
    assert (d + t)[..|d|] == d;
    assert (d + t)[|d| + 1..] == t[1..];
  }

  lemma RemovedIdempotent<T>(s: seq<T>, x: T)
    ensures Removed(Removed(s, x), x) == Removed(s, x)
  {
    RemovedSpec(s, x);
    RemovedSpec(Removed(s, x), x);
  }

  class Bag<T(==)> {
    var b: seq<T>

    constructor ()
      ensures b == [] && Size() == 0 && IsEmpty()
    {
      b := [];
    }

    /** Iterator removal of every item equal to `item`; the rest stay in order. */
    method Remove(item: T)
      modifies this
      ensures b == Removed(old(b), item)
      ensures !Contains(item) && Size() == old(Size()) - multiset(old(b))[item]
    {
      ghost var orig := b;
      var i := 0;
      ghost var k := 0;
      while i < |b|
        invariant 0 <= k <= |orig|
        invariant i == |Removed(orig[..k], item)|
        invariant b == Removed(orig[..k], item) + orig[k..]
        decreases |b| - i
      {
        RemoveStep(orig, k, item);
        if b[i] == item {
          b := b[..i] + b[i + 1..];
        } else {
          i := i + 1;
        }
        k := k + 1;
      }
      assert orig[..k] == orig;
      RemovedSpec(orig, item);
      assert |multiset(b)| == |multiset(orig)| - multiset(orig)[item];
    }

    method Clear()
      modifies this
      ensures b == [] && IsEmpty()
    {
      b := [];
    }

    predicate IsEmpty()
      reads this
      ensures IsEmpty() <==> Size() == 0
    {
      b == []
    }

    /** The number of items, each copy counted. */
    function Size(): (r: nat)
      reads this
      ensures r == |multiset(Items())|
    {
      |b|
    }

    /** The item is appended at the end; earlier items are untouched. */
    method Add(item: T)
      modifies this
      ensures b == old(b) + [item]
      ensures Size() == old(Size()) + 1 && !IsEmpty()
    {
      b := b + [item];
    }

    /** Iteration order: the items in insertion order. */
    function Items(): seq<T>
      reads this
    {
      b
    }

    /** Some copy of i is among the items. */
    predicate Contains(i: T)
      reads this
      ensures Contains(i) <==> multiset(Items())[i] > 0
    {
      i in b
    }
  }
}
