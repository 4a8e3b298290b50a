/** Positions in a container that is read by subscript, with 32-bit indices that wrap around. */
module Iterators {

  const WRAP: int := 0x1_0000_0000

  type SizeType = n: int | 0 <= n < WRAP
  type DiffType = n: int | -WRAP / 2 <= n < WRAP / 2

  function Wrap(n: int): SizeType {
    n % WRAP
  }

  /** The unsigned value read as a signed one. */
  function Signed(n: SizeType): DiffType {
    if n < WRAP / 2 then n else n - WRAP
  }

  /** `d` stands for the address of the container. */
  datatype Iterator = Iterator(d: nat, i: SizeType) {

    predicate Equal(j: Iterator) {
      d == j.d && i == j.i
    }

    predicate NotEqual(j: Iterator) {
      d == j.d && i != j.i
    }

    predicate Before(j: Iterator) {
      d == j.d && i < j.i
    }

    predicate After(j: Iterator) {
      d == j.d && i > j.i
    }

    function Next(): Iterator {
      this.(i := Wrap(i + 1))
    }

    function Plus(n: SizeType): Iterator {
      this.(i := Wrap(i + n))
    }

    function Minus(n: SizeType): Iterator {
      this.(i := Wrap(i - n))
    }

    function Distance(j: Iterator): DiffType {
      if d == j.d then Signed(Wrap(i - j.i)) else 0
    }
  }

  function Begin(d: nat): Iterator {
    Iterator(d, 0)
  }

  function End(d: nat, size: SizeType): Iterator {
    Iterator(d, size)
  }

  /** Adding a distance to where it was measured from leads back, whatever wraps around on the way. */
  lemma DistanceThenPlus(i: Iterator, j: Iterator)
    requires i.d == j.d
    ensures j.Plus(Wrap(i.Distance(j))) == i
  {
  }

  lemma PlusThenMinus(i: Iterator, n: SizeType)
    ensures i.Plus(n).Minus(n) == i == i.Minus(n).Plus(n)
  {
  }

  /** Distances are true exactly when they fit in the signed type. */
  lemma DistanceIsTrue(i: Iterator, j: Iterator, n: SizeType)
    requires i.d == j.d
    ensures i.Distance(j) == i.i - j.i <==> -0x8000_0000 <= i.i - j.i <= 0x7fff_ffff
    ensures i.Plus(n).Distance(i) == n <==> n <= 0x7fff_ffff
  {
  }

  /** An iterator is before another when some steps forward, without wrapping around, lead from it to the other. */
  lemma BeforeIsSteps(i: Iterator, j: Iterator)
    ensures i.Before(j) <==> exists n: SizeType :: n > 0 && i.i + n <= 0xffff_ffff && i.Plus(n) == j
    ensures i.After(j) <==> j.Before(i)
    ensures i.Next() == i.Plus(1) && i.Equal(i.Plus(0))
  {
    if i.Before(j) {
      assert i.Plus(j.i - i.i) == j;
    }
  }

  /** Exactly one of the three comparisons holds within one container, and none across containers. */
  lemma Trichotomy(i: Iterator, j: Iterator)
    ensures multiset{i.Before(j), i.Equal(j), i.After(j)}[true] == if i.d == j.d then 1 else 0
    ensures i.NotEqual(j) == !i.Equal(j) <==> i.d == j.d
  {
  }
}
