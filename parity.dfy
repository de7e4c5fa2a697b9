/** `isEven` and `isOdd` test the lowest bit, `self & 1`.  In two's
    complement that bit is the Euclidean remainder modulo 2, for negative
    numbers too, which is what `%` computes on Dafny's `int`. */
module Parity {

  /** `x & 1`. */
  function LowestBit(x: int): (b: int)
    ensures b == 0 || b == 1
    ensures x == 2 * (x / 2) + b
  {
    x % 2
  }

  /** `isEven`: the value is evenly divisible by two. */
  function IsEven(x: int): (r: bool)
    ensures r <==> exists k :: x == Twice(k)
  {
    EvenDivisible(x);
    LowestBit(x) == 0
  }

  /** `isOdd`: the value is not evenly divisible by two. */
  function IsOdd(x: int): (r: bool)
    ensures r <==> !exists k :: x == Twice(k)
  {
    EvenDivisible(x);
    LowestBit(x) == 1
  }

  function Twice(k: int): int
  {
    2 * k
  }

  lemma EvenDivisible(x: int)
    ensures x % 2 == 0 <==> exists k :: x == Twice(k)
  {
    if x % 2 == 0 {
      assert x == Twice(x / 2);
    }
    if exists k :: x == Twice(k) {
      var k :| x == Twice(k);
      assert x / 2 == k;
    }
  }

  /** Every integer, negative ones included, is exactly one of even and odd. */
  lemma ExactlyOneParity(x: int)
    ensures IsEven(x) != IsOdd(x)
  {
  }

  /** Parity alternates between neighbours and survives negation. */
  lemma ParityAlternates(x: int)
    ensures IsEven(x) <==> IsOdd(x + 1)
    ensures IsEven(x) <==> IsEven(-x)
  {
    var b := LowestBit(x);
    assert x + 1 == 2 * (x / 2) + b + 1;
    assert -x == 2 * (-(x / 2)) - b;
  }
}
