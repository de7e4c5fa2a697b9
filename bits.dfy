/** The bit helpers the structures rely on, over unbounded non-negative
    integers: powers of two, `MSBIndex`/`MSB` (floor of log2 and the value of
    the highest set bit), `LSBIndex`/`LSB` (trailing zeros and the value of the
    lowest set bit) and `LSB2`, the `x & -x` isolation of the lowest set bit.
    Each optional helper is `nil` for inputs at or below 0. */
module Bits {
  import opened Optional

  function Pow2(k: nat): (r: nat)
    ensures r >= 1
  {
    if k == 0 then 1 else 2 * Pow2(k - 1)
  }

  lemma Pow2Succ(k: nat)
    ensures Pow2(k + 1) == 2 * Pow2(k)
  {
  }

  lemma {:induction false} Pow2Strict(a: nat, b: nat)
    requires a < b
    ensures Pow2(a) < Pow2(b)
  {
    if a < b - 1 {
      Pow2Strict(a, b - 1);
    }
  }

  lemma Pow2Monotone(a: nat, b: nat)
    requires a <= b
    ensures Pow2(a) <= Pow2(b)
  {
    if a < b {
      Pow2Strict(a, b);
    }
  }

  // ---------------------------------------------------------------------
  // Most significant bit

  /** floor(log2 x): the index of the highest set bit of a positive x. */
  function FloorLog2(x: int): (r: nat)
    requires x >= 1
    ensures Pow2(r) <= x < Pow2(r + 1)
    decreases x
  {
    if x == 1 then 0 else 1 + FloorLog2(x / 2)
  }

  /** The bounds of `FloorLog2` pin it down: it is the only such exponent. */
  lemma FloorLog2Unique(x: int, r: nat)
    requires x >= 1
    requires Pow2(r) <= x < Pow2(r + 1)
    ensures r == FloorLog2(x)
  {
    var f := FloorLog2(x);
    if r < f {
      Pow2Monotone(r + 1, f);
    } else if f < r {
      Pow2Monotone(f + 1, r);
    }
  }

  lemma FloorLog2Monotone(x: int, y: int)
    requires 1 <= x <= y
    ensures FloorLog2(x) <= FloorLog2(y)
  {
    if FloorLog2(y) < FloorLog2(x) {
      Pow2Monotone(FloorLog2(y) + 1, FloorLog2(x));
    }
  }

  /** `MSBIndex`: nil for x <= 0, otherwise floor(log2 x). */
  function MSBIndex(x: int): (r: Option<nat>)
    ensures r.Some? <==> x > 0
    ensures r.Some? ==> Pow2(r.value) <= x < Pow2(r.value + 1)
  {
    if x <= 0 then None else Some(FloorLog2(x))
  }

  /** `MSB`: nil for x <= 0, otherwise the value of the highest set bit. */
  function MSB(x: int): (r: Option<nat>)
    ensures r.Some? <==> x > 0
    ensures r.Some? ==> r.value <= x < 2 * r.value
    ensures r.Some? ==> exists k: nat :: r.value == Pow2(k) && Pow2(k) <= x < Pow2(k + 1)
  {
    match MSBIndex(x)
    case None => None
    case Some(i) => Some(Pow2(i))
  }

  /** `MSBIndex2`: the same index found by shifting right until nothing is left. */
  method MSBIndex2(x: int) returns (r: Option<nat>)
    ensures r == MSBIndex(x)
  {
    if x <= 0 {
      return None;
    }
    var v := x / 2;
    var position: nat := 0;
    while v > 0
      invariant v >= 0
      invariant v > 0 ==> FloorLog2(x) == position + 1 + FloorLog2(v)
      invariant v == 0 ==> FloorLog2(x) == position
    {
      position := position + 1;
      v := v / 2;
    }
    return Some(position);
  }

  // ---------------------------------------------------------------------
  // Least significant bit

  /** Number of trailing zero bits of a positive x. */
  function TrailingZeros(x: int): (t: nat)
    requires x > 0
    ensures Pow2(t) <= x
    decreases x
  {
    if x % 2 == 1 then 0 else 1 + TrailingZeros(x / 2)
  }

  /** `LSBIndex`: nil for x <= 0, otherwise the index of the lowest set bit. */
  function LSBIndex(x: int): (r: Option<nat>)
    ensures r.Some? <==> x > 0
    ensures r.Some? ==> Aligned(x, r.value) && !Aligned(x, r.value + 1)
  {
    if x <= 0 then None
    else
      LowBitAligned(x);
      LowBitExact(x);
      Some(TrailingZeros(x))
  }

  /** `LSB`: nil for x <= 0, otherwise the value of the lowest set bit. */
  function LSB(x: int): (r: Option<nat>)
    ensures r.Some? <==> x > 0
    ensures r.Some? ==> 1 <= r.value <= x
    ensures r.Some? ==> exists k: nat :: r.value == Pow2(k) && Aligned(x, k) && !Aligned(x, k + 1)
  {
    match LSBIndex(x)
    case None => None
    case Some(i) => Some(Pow2(i))
  }

  /** `LSB2`, that is `x & -x`, for the positive arguments it is used on: the
      value of the lowest set bit. */
  function LowBit(x: int): (r: nat)
    requires x > 0
    ensures 1 <= r <= x
  {
    Pow2(TrailingZeros(x))
  }

  /** `Aligned(a, t)`: a is a multiple of 2^t, so its low t bits are zero. */
  ghost predicate Aligned(a: int, t: nat)
    decreases t
  {
    t == 0 || (a % 2 == 0 && Aligned(a / 2, t - 1))
  }

  lemma {:induction false} LowBitAligned(x: int)
    requires x > 0
    ensures Aligned(x, TrailingZeros(x))
    ensures Aligned(x - LowBit(x), TrailingZeros(x) + 1)
    decreases x
  {
    if x % 2 == 0 {
      LowBitAligned(x / 2);
      assert (x - LowBit(x)) / 2 == x / 2 - LowBit(x / 2);
    }
  }

  /** The lowest set bit of x is not followed by a zero: x is not a multiple
      of twice its lowest bit. */
  lemma {:induction false} LowBitExact(x: int)
    requires x > 0
    ensures !Aligned(x, TrailingZeros(x) + 1)
    decreases x
  {
    if x % 2 == 0 {
      LowBitExact(x / 2);
    }
  }

  lemma {:induction false} AlignedMonotone(a: int, t: nat, s: nat)
    requires Aligned(a, t)
    requires s <= t
    ensures Aligned(a, s)
    decreases s
  {
    if s > 0 {
      AlignedMonotone(a / 2, t - 1, s - 1);
    }
  }

  lemma {:induction false} AlignedAdd(a: int, b: int, t: nat)
    requires Aligned(a, t) && Aligned(b, t)
    ensures Aligned(a + b, t)
    decreases t
  {
    if t > 0 {
      AlignedAdd(a / 2, b / 2, t - 1);
      assert (a + b) / 2 == a / 2 + b / 2;
    }
  }

  lemma {:induction false} AlignedPow2(k: nat, t: nat)
    requires t <= k
    ensures Aligned(Pow2(k), t)
  {
    if t > 0 {
      AlignedPow2(k - 1, t - 1);
    }
  }

  lemma {:induction false} AlignedSubPow2(a: int, t: nat)
    requires Aligned(a, t)
    ensures Aligned(a - Pow2(t), t)
    decreases t
  {
    if t > 0 {
      AlignedSubPow2(a / 2, t - 1);
      assert (a - Pow2(t)) / 2 == a / 2 - Pow2(t - 1);
    }
  }

  /** A positive multiple of 2^s has at least s trailing zeros. */
  lemma {:induction false} AlignedTrailingZeros(y: int, s: nat)
    requires y > 0 && Aligned(y, s)
    ensures s <= TrailingZeros(y)
    ensures Pow2(s) <= LowBit(y)
  {
    if s > 0 {
      AlignedTrailingZeros(y / 2, s - 1);
    }
    Pow2Monotone(s, TrailingZeros(y));
  }

  /** A lowest set bit above 2^c sits at a position above c. */
  lemma LowBitExceeds(x: int, c: nat)
    requires x > 0 && LowBit(x) > Pow2(c)
    ensures c < TrailingZeros(x)
  {
    if TrailingZeros(x) <= c {
      Pow2Monotone(TrailingZeros(x), c);
    }
  }

  /** A positive x is a multiple of 2^s for every s up to its trailing zeros. */
  lemma AlignedBelowLowBit(x: int, s: nat)
    requires x > 0 && s <= TrailingZeros(x)
    ensures Aligned(x, s) && Pow2(s) <= x
  {
    LowBitAligned(x);
    AlignedMonotone(x, TrailingZeros(x), s);
    Pow2Monotone(s, TrailingZeros(x));
  }

  /** Adding something smaller than 2^t to a multiple of 2^t keeps its low bits:
      the lowest set bit is that of the addend. */
  lemma {:induction false} AlignedAddLow(a: int, t: nat, d: int)
    requires a >= 0 && Aligned(a, t)
    requires 0 < d < Pow2(t)
    ensures TrailingZeros(a + d) == TrailingZeros(d)
    ensures LowBit(a + d) == LowBit(d)
  {
    if d % 2 == 0 {
      assert (a + d) / 2 == a / 2 + d / 2;
      AlignedAddLow(a / 2, t - 1, d / 2);
    }
  }

  lemma {:induction false} TrailingZerosOfPow2(k: nat)
    ensures TrailingZeros(Pow2(k)) == k
    ensures LowBit(Pow2(k)) == Pow2(k)
  {
    if k > 0 {
      TrailingZerosOfPow2(k - 1);
    }
  }

  /** Adding 2^k to a multiple of 2^(k+1) gives a number whose lowest set
      bit is 2^k and that is a multiple of 2^k. */
  lemma AlignedAddPow2(a: int, k: nat)
    requires a >= 0 && Aligned(a, k + 1)
    ensures LowBit(a + Pow2(k)) == Pow2(k)
    ensures Aligned(a + Pow2(k), k)
  {
    TrailingZerosOfPow2(k);
    AlignedAddLow(a, k + 1, Pow2(k));
    AlignedMonotone(a, k + 1, k);
    AlignedPow2(k, k);
    AlignedAdd(a, Pow2(k), k);
  }

  lemma {:induction false} AlignedZero(t: nat)
    ensures Aligned(0, t)
  {
    if t > 0 {
      AlignedZero(t - 1);
    }
  }

  /** Between a multiple a of 2^t and a + 2^t, stripping the lowest set bit
      never goes below a. */
  lemma LowBitStaysAbove(a: int, t: nat, x: int)
    requires a >= 0 && Aligned(a, t)
    requires a < x < a + Pow2(t)
    ensures x - LowBit(x) >= a
  {
    AlignedAddLow(a, t, x - a);
  }

  /** Moving to the next Fenwick slot at least doubles the lowest set bit. */
  lemma LowBitGrows(x: int)
    requires x > 0
    ensures TrailingZeros(x + LowBit(x)) > TrailingZeros(x)
    ensures LowBit(x + LowBit(x)) >= 2 * LowBit(x)
  {
    var t := TrailingZeros(x);
    LowBitAligned(x);
    AlignedPow2(t + 1, t + 1);
    AlignedAdd(x - LowBit(x), Pow2(t + 1), t + 1);
    assert x + LowBit(x) == (x - LowBit(x)) + Pow2(t + 1);
    AlignedTrailingZeros(x + LowBit(x), t + 1);
  }

  // ---------------------------------------------------------------------
  // Ceiling of log2 (a proof device)

  /** ceil(log2 x) for x >= 1: the exponent of the smallest power of two at
      or above x. */
  function CeilLog2(x: int): (r: nat)
    requires x >= 1
    ensures x <= Pow2(r)
    ensures r > 0 ==> Pow2(r - 1) < x
    decreases x
  {
    if x == 1 then 0 else 1 + CeilLog2((x + 1) / 2)
  }

  lemma CeilLog2Unique(x: int, r: nat)
    requires x >= 1
    requires x <= Pow2(r)
    requires r > 0 ==> Pow2(r - 1) < x
    ensures r == CeilLog2(x)
  {
    var c := CeilLog2(x);
    if r < c {
      Pow2Monotone(r, c - 1);
    } else if c < r {
      Pow2Monotone(c, r - 1);
    }
  }

  lemma CeilLog2OfPow2(t: nat)
    ensures CeilLog2(Pow2(t)) == t
  {
    if t > 0 {
      Pow2Strict(t - 1, t);
    }
    CeilLog2Unique(Pow2(t), t);
  }

  /** ceil(log2) steps up right after a power of two and stays put elsewhere. */
  lemma CeilLog2Step(m: int)
    requires m >= 1
    ensures m == Pow2(CeilLog2(m)) ==> CeilLog2(m + 1) == CeilLog2(m) + 1
    ensures m != Pow2(CeilLog2(m)) ==> CeilLog2(m + 1) == CeilLog2(m)
  {
    var c := CeilLog2(m);
    if m == Pow2(c) {
      CeilLog2Unique(m + 1, c + 1);
    } else {
      CeilLog2Unique(m + 1, c);
    }
  }
}
