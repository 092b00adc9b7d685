/** A named tally with a 32-bit `int` count. */
module Counters {

  const MinInt: int := -0x8000_0000
  const MaxInt: int := 0x7fff_ffff

  class Counter {
    const name: string
    var count: int

    ghost predicate Valid()
      reads this
    {
      MinInt <= count <= MaxInt
    }

    constructor (id: string)
      ensures Valid() && name == id && Tally() == 0
    {
      name := id;
      count := 0;
    }

    /** `count++` on a Java int: one more, wrapping from the largest int to the smallest. */
    method Increment()
      requires Valid()
      modifies this
      ensures Valid()
      ensures old(count) < MaxInt ==> Tally() == old(Tally()) + 1
      ensures old(count) == MaxInt ==> Tally() == MinInt
    {
      count := if count == MaxInt then MinInt else count + 1;
    }

    /** The current count; a valid counter's is a Java int. */
    function Tally(): (r: int)
      reads this
      ensures Valid() ==> MinInt <= r <= MaxInt
    {
      count
    }

    /** -1, 0 or +1 as this count is below, equal to or above the other's. */
    function CompareTo(that: Counter): (r: int)
      reads this, that
      ensures r == -1 <==> Tally() < that.Tally()
      ensures r == 0 <==> Tally() == that.Tally()
      ensures r == 1 <==> Tally() > that.Tally()
    {
      if count < that.count then -1
      else if count > that.count then 1
      else 0
    }
  }

  lemma CompareToAntisymmetric(a: Counter, b: Counter)
    ensures a.CompareTo(b) == -b.CompareTo(a)
  {
  }
}
