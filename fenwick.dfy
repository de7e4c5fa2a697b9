/** `FenwickTree`: a binary indexed tree over `Int` elements.  Working with
    1-based positions, slot j (stored at `tree[j - 1]`) holds the sum of the
    elements over (j - lowbit(j), j], where lowbit is `LSB2`.  The logical
    elements are the ghost field `elements`; every operation is specified
    against them. */
module Fenwick {
  import opened IntGroup
  import opened Bits
  import opened Optional

  // ---------------------------------------------------------------------
  // The layout

  /** The sum slot j is responsible for: elements j - lowbit(j) .. j - 1
      (0-based), that is the 1-based interval (j - lowbit(j), j]. */
  ghost function Slot(e: seq<int>, j: int): int
    requires 1 <= j <= |e|
  {
    Sum(e[j - LowBit(j)..j])
  }

  ghost predicate IsFenwick(tree: seq<int>, e: seq<int>)
  {
    |tree| == |e| &&
    forall j {:trigger Slot(e, j)} :: 1 <= j <= |e| ==> tree[j - 1] == Slot(e, j)
  }

  /** Sum of the first k elements. */
  ghost function Prefix(e: seq<int>, k: int): int
    requires 0 <= k <= |e|
  {
    Sum(e[..k])
  }

  ghost predicate NonNegative(e: seq<int>)
  {
    forall i :: 0 <= i < |e| ==> e[i] >= 0
  }

  /** Position idx lies in the range of slot j exactly when
      j - lowbit(j) <= idx < j; changing it moves that slot by the difference
      and leaves every other slot alone. */
  lemma SlotUpdate(e: seq<int>, idx: int, v: int, j: int)
    requires 0 <= idx < |e|
    requires 1 <= j <= |e|
    ensures Slot(e[idx := v], j) == if j - LowBit(j) <= idx < j then Slot(e, j) - e[idx] + v else Slot(e, j)
  {
    SumUpdate(e, idx, v, j - LowBit(j), j);
  }

  /** The state of `addOn` when it reaches 1-based index i: slots below i
      already describe the new elements, the others still the old ones. */
  ghost predicate Propagating(tree: seq<int>, e0: seq<int>, e1: seq<int>, i: int)
  {
    |tree| == |e0| == |e1| &&
    (forall j {:trigger Slot(e1, j)} :: 1 <= j < i && j <= |e1| ==> tree[j - 1] == Slot(e1, j)) &&
    (forall j {:trigger Slot(e0, j)} :: i <= j <= |e0| && 1 <= j ==> tree[j - 1] == Slot(e0, j))
  }

  /** No slot below idx + 1 covers idx. */
  lemma PropagateStart(tree: seq<int>, e0: seq<int>, idx: int, extra: int)
    requires IsFenwick(tree, e0)
    requires 0 <= idx < |e0|
    ensures Propagating(tree, e0, e0[idx := e0[idx] + extra], idx + 1)
  {
    var e1 := e0[idx := e0[idx] + extra];
    forall j | 1 <= j < idx + 1
      ensures tree[j - 1] == Slot(e1, j)
    {
      SlotUpdate(e0, idx, e1[idx], j);
      assert tree[j - 1] == Slot(e0, j);
    }
  }

  /** Slot i covers idx and takes the extra; the slots strictly between i
      and its parent i + lowbit(i) do not cover idx; the parent does. */
  lemma PropagateStep(tree: seq<int>, e0: seq<int>, idx: int, extra: int, i: int)
    requires 0 <= idx < |e0|
    requires idx + 1 <= i <= |e0| && i - LowBit(i) <= idx
    requires Propagating(tree, e0, e0[idx := e0[idx] + extra], i)
    ensures i + LowBit(i) - LowBit(i + LowBit(i)) <= idx
    ensures Propagating(tree[i - 1 := tree[i - 1] + extra], e0, e0[idx := e0[idx] + extra], i + LowBit(i))
  {
    var e1 := e0[idx := e0[idx] + extra];
    var next := tree[i - 1 := tree[i - 1] + extra];
    LowBitAligned(i);
    forall j | i <= j < i + LowBit(i) && j <= |e0|
      ensures next[j - 1] == Slot(e1, j)
    {
      if j > i {
        LowBitStaysAbove(i, TrailingZeros(i), j);
      }
      SlotUpdate(e0, idx, e1[idx], j);
      assert tree[j - 1] == Slot(e0, j);
    }
    LowBitGrows(i);
  }

  /** Past the end every slot describes the new elements. */
  lemma PropagateEnd(tree: seq<int>, e0: seq<int>, e1: seq<int>)
    requires Propagating(tree, e0, e1, |e0| + 1)
    ensures IsFenwick(tree, e1)
  {
  }

  /** One step of the getter: for z = p - lowbit(p) < i < p, slot i lies
      inside [z, p - 1), so stripping it keeps the walk at or above z. */
  lemma StripStep(tree: seq<int>, e: seq<int>, p: int, i: int)
    requires IsFenwick(tree, e)
    requires 1 <= p <= |e|
    requires p - LowBit(p) < i < p
    ensures p - LowBit(p) <= i - LowBit(i)
    ensures Sum(e[i - LowBit(i)..p - 1]) == tree[i - 1] + Sum(e[i..p - 1])
  {
    var z := p - LowBit(p);
    LowBitAligned(p);
    AlignedMonotone(z, TrailingZeros(p) + 1, TrailingZeros(p));
    LowBitStaysAbove(z, TrailingZeros(p), i);
    SumSplit(e, i - LowBit(i), i, p - 1);
    assert tree[i - 1] == Slot(e, i);
  }

  lemma {:induction false} SumNonNegative(s: seq<int>)
    requires NonNegative(s)
    ensures Sum(s) >= 0
  {
    if |s| > 0 {
      SumNonNegative(s[..|s| - 1]);
    }
  }

  /** With non-negative elements prefix sums never decrease. */
  lemma PrefixMonotone(e: seq<int>, a: int, b: int)
    requires NonNegative(e)
    requires 0 <= a <= b <= |e|
    ensures Prefix(e, a) <= Prefix(e, b)
  {
    SumSplit(e, 0, a, b);
    assert NonNegative(e[a..b]);
    SumNonNegative(e[a..b]);
  }

  lemma PrefixSplit(e: seq<int>, a: int, b: int)
    requires 0 <= a <= b <= |e|
    ensures Prefix(e, b) == Prefix(e, a) + Sum(e[a..b])
  {
    SumSplit(e, 0, a, b);
  }

  // ---------------------------------------------------------------------
  // What `populate` has folded in so far

  function Min(a: int, b: int): int
  {
    if a < b then a else b
  }

  /** Before 1-based index k is processed, slot j >= k holds its own element
      plus the slots of those children c = j - 2^s that are below k, and those
      cover e[j - lowbit(j) .. Folded(j, k)). */
  ghost function Folded(j: int, k: int): (f: int)
    requires 1 <= k <= j
    ensures j - LowBit(j) <= f < j
  {
    j - Min(LowBit(j), Pow2(CeilLog2(j - k + 1)))
  }

  lemma FoldedAtStart(j: int)
    requires 1 <= j
    ensures Folded(j, 1) == j - LowBit(j)
  {
  }

  /** When k reaches j, every child of j has been folded in. */
  lemma FoldedAtSelf(k: int)
    requires 1 <= k
    ensures Folded(k, k) == k - 1
  {
  }

  /** Processing k adds slot k to its parent k + lowbit(k), and moves the
      parent's folded boundary from k - lowbit(k) up to k. */
  lemma FoldedAtParent(k: int)
    requires 1 <= k
    ensures Folded(k + LowBit(k), k) == k - LowBit(k)
    ensures Folded(k + LowBit(k), k + 1) == k
  {
    var t := TrailingZeros(k);
    var q := k + LowBit(k);
    LowBitGrows(k);
    CeilLog2OfPow2(t);
    CeilLog2Step(Pow2(t));
  }

  /** A slot j whose lowest bit exceeds 2^c has j - 2^c as a child: that
      index has lowest bit 2^c, so its parent is j. */
  lemma ChildOf(j: int, c: nat)
    requires j >= 1
    requires LowBit(j) > Pow2(c)
    ensures LowBit(j - Pow2(c)) == Pow2(c)
  {
    LowBitExceeds(j, c);
    AlignedBelowLowBit(j, c + 1);
    ChildOfAligned(j, c);
  }

  lemma ChildOfAligned(j: int, c: nat)
    requires j >= Pow2(c + 1) && Aligned(j, c + 1)
    ensures j - Pow2(c) >= 1 && LowBit(j - Pow2(c)) == Pow2(c)
  {
    var a := j - Pow2(c + 1);
    AlignedSubPow2(j, c + 1);
    AlignedAddPow2(a, c);
    Pow2Succ(c);
    assert a + Pow2(c) == j - Pow2(c);
  }

  /** Processing k changes nothing for any later slot but its parent. */
  lemma FoldedStep(k: int, j: int)
    requires 1 <= k < j
    requires j != k + LowBit(k)
    ensures Folded(j, k + 1) == Folded(j, k)
  {
    var m := j - k;
    var c := CeilLog2(m);
    var c1 := CeilLog2(m + 1);
    assert Folded(j, k) == j - Min(LowBit(j), Pow2(c1));
    assert Folded(j, k + 1) == j - Min(LowBit(j), Pow2(c));
    CeilLog2Step(m);
    if m == Pow2(c) {
      if LowBit(j) > Pow2(c) {
        ChildOf(j, c);
        assert false;
      }
      Pow2Monotone(c, c1);
    }
  }

  /** The state of `populate` before 1-based index k is processed: slots
      below k are complete, later ones hold their element plus the children
      folded in so far. */
  ghost predicate Populating(tree: seq<int>, e: seq<int>, k: int)
    requires 1 <= k
  {
    |tree| == |e| &&
    (forall j {:trigger Slot(e, j)} :: 1 <= j < k && j <= |e| ==> tree[j - 1] == Slot(e, j)) &&
    (forall j {:trigger Folded(j, k)} :: k <= j <= |e| ==> tree[j - 1] == e[j - 1] + Sum(e[j - LowBit(j)..Folded(j, k)]))
  }

  /** Initially nothing is folded in: every slot holds just its element. */
  lemma PopulateStart(e: seq<int>)
    ensures Populating(e, e, 1)
  {
    forall j | 1 <= j <= |e|
      ensures e[j - 1] == e[j - 1] + Sum(e[j - LowBit(j)..Folded(j, 1)])
    {
      FoldedAtStart(j);
    }
  }

  /** Once every index is processed every slot is complete. */
  lemma PopulateEnd(tree: seq<int>, e: seq<int>)
    requires Populating(tree, e, |e| + 1)
    ensures IsFenwick(tree, e)
  {
  }

  /** Adding the complete slot k into its parent q extends the parent's
      folded part by exactly slot k's range. */
  lemma ParentFold(e: seq<int>, k: int)
    requires 1 <= k && k + LowBit(k) <= |e|
    ensures var q := k + LowBit(k);
            Sum(e[q - LowBit(q)..Folded(q, k)]) + Slot(e, k) == Sum(e[q - LowBit(q)..Folded(q, k + 1)])
  {
    var q := k + LowBit(k);
    FoldedAtParent(k);
    SumSplit(e, q - LowBit(q), k - LowBit(k), k);
  }

  /** What processing k does to a later slot j, on its value alone. */
  lemma SlotAfterStep(e: seq<int>, k: int, j: int, before: int, added: int, after: int)
    requires 1 <= k < j <= |e|
    requires before == e[j - 1] + Sum(e[j - LowBit(j)..Folded(j, k)])
    requires added == Slot(e, k)
    requires after == if j == k + LowBit(k) then before + added else before
    ensures after == e[j - 1] + Sum(e[j - LowBit(j)..Folded(j, k + 1)])
  {
    if j == k + LowBit(k) {
      ParentFold(e, k);
    } else {
      FoldedStep(k, j);
    }
  }

  /** Processing k completes slot k and adds it into its parent, if there
      is one within the tree. */
  lemma PopulateStep(tree: seq<int>, e: seq<int>, k: int, next: seq<int>)
    requires 1 <= k <= |e|
    requires Populating(tree, e, k)
    requires next == if k + LowBit(k) <= |e| then tree[k + LowBit(k) - 1 := tree[k + LowBit(k) - 1] + tree[k - 1]] else tree
    ensures Populating(next, e, k + 1)
  {
    var parent := k + LowBit(k);
    FoldedAtSelf(k);
    SumSplit(e, k - LowBit(k), k - 1, k);
    SumSingleton(e, k - 1);
    assert tree[k - 1] == Slot(e, k);
    forall j | k + 1 <= j <= |e|
      ensures next[j - 1] == e[j - 1] + Sum(e[j - LowBit(j)..Folded(j, k + 1)])
    {
      SlotAfterStep(e, k, j, tree[j - 1], tree[k - 1], next[j - 1]);
    }
  }

  // ---------------------------------------------------------------------
  // The tree

  class FenwickTree {
    var tree: seq<int>
    ghost var elements: seq<int>

    ghost predicate Valid()
      reads this
    {
      IsFenwick(tree, elements)
    }

    /** `init(size:)`: `size` neutral elements. */
    constructor BySize(size: int)
      requires size >= 0
      ensures Valid()
      ensures elements == seq(size, _ => NeutralElement())
    {
      tree := seq(size, _ => NeutralElement());
      elements := seq(size, _ => NeutralElement());
      new;
      forall j | 1 <= j <= size
        ensures tree[j - 1] == Slot(elements, j)
      {
        SumZeros(elements[j - LowBit(j)..j]);
      }
    }

    /** `init(_:)`. */
    constructor (es: seq<int>)
      ensures Valid()
      ensures elements == es
    {
      var t := Populate(es);
      tree := t;
      elements := es;
    }

    /** `populate(with:)`: starts from a copy of the elements and adds each
        slot, once complete, into its parent, left to right. */
    static method Populate(es: seq<int>) returns (tree: seq<int>)
      ensures IsFenwick(tree, es)
    {
      if |es| == 0 {
        return [];
      }
      var n := |es|;
      tree := es;
      PopulateStart(es);
      var idx := 1;
      while idx <= n
        invariant 1 <= idx <= n + 1
        invariant |tree| == n
        invariant Populating(tree, es, idx)
      {
        var parent := idx + LowBit(idx);
        ghost var before := tree;
        if parent <= n {
          tree := tree[parent - 1 := IntGroup.AddOn(tree[parent - 1], tree[idx - 1])];
        }
        PopulateStep(before, es, idx, tree);
        idx := idx + 1;
      }
      PopulateEnd(tree, es);
    }

    /** The number of elements; no operation changes it. */
    function Count(): (r: nat)
      requires Valid()
      reads this
      ensures r == |elements|
    {
      |tree|
    }

    /** `addOn(_:at:)`: adds `extra` to element idx, walking up through every
        slot whose range contains it. */
    method AddOn(extra: int, idx: int)
      requires Valid()
      requires 0 <= idx < |elements|
      modifies this
      ensures Valid()
      ensures elements == old(elements)[idx := AddingOn(old(elements)[idx], extra)]
    {
      ghost var e0 := elements;
      elements := elements[idx := AddingOn(elements[idx], extra)];
      PropagateStart(tree, e0, idx, extra);
      var i := idx + 1;
      while i <= |tree|
        invariant idx + 1 <= i && i - LowBit(i) <= idx
        invariant |tree| == |e0|
        invariant elements == e0[idx := e0[idx] + extra]
        invariant Propagating(tree, e0, elements, i)
        decreases |tree| + 1 - i
      {
        PropagateStep(tree, e0, idx, extra, i);
        tree := tree[i - 1 := IntGroup.AddOn(tree[i - 1], extra)];
        i := i + LowBit(i);
      }
      PropagateEnd(tree, e0, elements);
    }

    /** `prefixSum(_:)`: the sum of elements 0 ..= idx; 0 when idx < 0.
        `idx &= ~idx.LSB2` clears the lowest set bit, that is subtracts it. */
    method PrefixSum(idx: int) returns (sum: int)
      requires Valid()
      requires idx < |elements|
      ensures sum == if idx < 0 then 0 else Prefix(elements, idx + 1)
    {
      var i := idx + 1;
      sum := NeutralElement();
      while i > 0
        invariant i <= idx + 1
        invariant idx + 1 <= 0 ==> sum == 0
        invariant idx + 1 > 0 ==> 0 <= i && sum + Prefix(elements, i) == Prefix(elements, idx + 1)
        decreases i
      {
        PrefixSplit(elements, i - LowBit(i), i);
        assert tree[i - 1] == Slot(elements, i);
        sum := IntGroup.AddOn(sum, tree[i - 1]);
        i := i - LowBit(i);
      }
    }

    /** `rangeQuery(in:)` over the half-open [lo, hi): the sum of those
        elements, 0 when the range is empty. */
    method RangeQuery(lo: int, hi: int) returns (r: int)
      requires Valid()
      requires 0 <= lo <= hi <= |elements|
      ensures r == Sum(elements[lo..hi])
    {
      var upper := PrefixSum(hi - 1);
      var lower := NeutralElement();
      if lo > 0 {
        lower := PrefixSum(lo - 1);
      }
      r := Excluding(upper, lower);
      PrefixSplit(elements, lo, hi);
    }

    /** The subscript getter: slot idx + 1 minus the slots that tile the part
        of its range below idx. */
    method Get(idx: int) returns (sum: int)
      requires Valid()
      requires 0 <= idx < |elements|
      ensures sum == elements[idx]
    {
      var p := idx + 1;
      sum := tree[p - 1];
      assert sum == Slot(elements, p);
      if p > 0 {
        var z := p - LowBit(p);
        var i := p - 1;
        while i != z
          invariant z <= i <= p - 1
          invariant sum == Sum(elements[z..p]) - Sum(elements[i..p - 1])
          decreases i - z
        {
          StripStep(tree, elements, p, i);
          sum := Exclude(sum, tree[i - 1]);
          i := i - LowBit(i);
        }
        SumSplit(elements, z, p - 1, p);
        SumSingleton(elements, p - 1);
      }
    }

    /** The subscript setter: adds the difference between the new and the
        current value. */
    method Set(idx: int, newValue: int)
      requires Valid()
      requires 0 <= idx < |elements|
      modifies this
      ensures Valid()
      ensures elements == old(elements)[idx := newValue]
    {
      var current := Get(idx);
      AddOn(Excluding(newValue, current), idx);
    }

    /** `findAnyIndex(of:)`: descends one bit at a time from the highest bit
        of the count, stopping at the first slot that matches what is left of
        the target.  A result i means the sum of elements 0 ..= i is the
        target (-1 stands for the empty prefix).  When the elements are
        non-negative it finds one whenever one exists. */
    method FindAnyIndex(target: int) returns (r: Option<int>)
      requires Valid()
      requires |elements| > 0
      ensures r.Some? ==> -1 <= r.value < |elements| && Prefix(elements, r.value + 1) == target
      ensures NonNegative(elements) ==>
                (r.Some? <==> exists p :: 0 <= p <= |elements| && Prefix(elements, p) == target)
    {
      var cum := target;
      var maxIdx := |tree|;
      var bitMask := MSB(maxIdx).value;
      var idx := 0;
      ghost var k: int := FloorLog2(maxIdx);
      DescentStart(elements, target, true);
      while bitMask != 0
        invariant -1 <= k
        invariant bitMask == if k >= 0 then Pow2(k) else 0
        invariant Descending(elements, target, idx, k, cum, true)
        decreases bitMask
      {
        var tIdx := idx + bitMask;
        bitMask := bitMask / 2;
        if tIdx > maxIdx {
          DescentSkip(elements, target, idx, k, cum, true);
          k := k - 1;
          continue;
        }
        DescentVisit(tree, elements, target, idx, k, tIdx, cum, true);
        k := k - 1;
        if cum == tree[tIdx - 1] {
          return Some(tIdx - 1);
        } else if cum > tree[tIdx - 1] {
          idx := tIdx;
          cum := Excluding(cum, tree[tIdx - 1]);
        }
      }
      DescentEnd(elements, target, idx, cum, true);
      if cum != 0 {
        return None;
      } else {
        return Some(idx - 1);
      }
    }

    /** `findGreatestIndex(of:)`: the same descent, but it moves right
        whenever the slot does not exceed what is left of the target.  The
        result must match the target exactly.  When the elements are
        non-negative it is the greatest i whose prefix 0 ..= i sums to the
        target, and nil when no prefix does. */
    method FindGreatestIndex(target: int) returns (r: Option<int>)
      requires Valid()
      requires |elements| > 0
      ensures r.Some? ==> -1 <= r.value < |elements| && Prefix(elements, r.value + 1) == target
      ensures NonNegative(elements) ==>
                (r.Some? <==> exists p :: 0 <= p <= |elements| && Prefix(elements, p) == target)
      ensures NonNegative(elements) && r.Some? ==>
                forall p :: r.value + 1 < p <= |elements| ==> Prefix(elements, p) != target
    {
      var cum := target;
      var maxIdx := |tree|;
      var bitMask := MSB(maxIdx).value;
      var idx := 0;
      ghost var k: int := FloorLog2(maxIdx);
      DescentStart(elements, target, false);
      while bitMask != 0
        invariant -1 <= k
        invariant bitMask == if k >= 0 then Pow2(k) else 0
        invariant Descending(elements, target, idx, k, cum, false)
        decreases bitMask
      {
        var tIdx := idx + bitMask;
        bitMask := bitMask / 2;
        if tIdx > maxIdx {
          DescentSkip(elements, target, idx, k, cum, false);
          k := k - 1;
          continue;
        }
        DescentVisit(tree, elements, target, idx, k, tIdx, cum, false);
        k := k - 1;
        if cum >= tree[tIdx - 1] {
          idx := tIdx;
          cum := Excluding(cum, tree[tIdx - 1]);
        }
      }
      DescentEnd(elements, target, idx, cum, false);
      if cum != 0 {
        return None;
      } else {
        return Some(idx - 1);
      }
    }
  }

  // ---------------------------------------------------------------------
  // The descent of the finders

  /** The state of a finder's descent at bit 2^k (k = -1 once the mask is
      exhausted): idx is a multiple of 2^(k+1), `cum` is what is left of the
      target after elements 0 .. idx - 1, and, for non-negative elements,
      every prefix from idx + 2^(k+1) on exceeds the target while idx's own
      prefix is below it (`strict`, findAnyIndex) or at most it
      (findGreatestIndex), unless idx is still 0. */
  ghost predicate Descending(e: seq<int>, target: int, idx: int, k: int, cum: int, strict: bool)
  {
    -1 <= k && 0 <= idx <= |e| &&
    (k >= 0 ==> Aligned(idx, k + 1)) &&
    cum == target - Prefix(e, idx) &&
    (NonNegative(e) ==>
       (forall q {:trigger Prefix(e, q)} :: idx + Pow2(k + 1) <= q <= |e| ==> Prefix(e, q) > target) &&
       (idx == 0 || (if strict then Prefix(e, idx) < target else Prefix(e, idx) <= target)))
  }

  /** The descent starts at 0 with the highest bit of the count. */
  lemma DescentStart(e: seq<int>, target: int, strict: bool)
    requires |e| > 0
    ensures Descending(e, target, 0, FloorLog2(|e|), target, strict)
  {
    AlignedZero(FloorLog2(|e|) + 1);
  }

  /** A candidate beyond the count is skipped. */
  lemma DescentSkip(e: seq<int>, target: int, idx: int, k: int, cum: int, strict: bool)
    requires Descending(e, target, idx, k, cum, strict)
    requires k >= 0 && idx + Pow2(k) > |e|
    ensures Descending(e, target, idx, k - 1, cum, strict)
  {
    if k >= 1 {
      AlignedMonotone(idx, k + 1, k);
    }
  }

  /** Visiting the candidate idx + 2^k: its slot holds exactly elements
      idx .. idx + 2^k - 1; moving to it or staying keeps the descent going,
      and a slot equal to what is left of the target is an exact match. */
  lemma DescentVisit(tree: seq<int>, e: seq<int>, target: int, idx: int, k: int, tIdx: int, cum: int, strict: bool)
    requires IsFenwick(tree, e)
    requires Descending(e, target, idx, k, cum, strict)
    requires k >= 0 && tIdx == idx + Pow2(k) <= |e|
    ensures Prefix(e, tIdx) == target - Excluding(cum, tree[tIdx - 1])
    ensures (if strict then cum > tree[tIdx - 1] else cum >= tree[tIdx - 1]) ==>
              Descending(e, target, tIdx, k - 1, Excluding(cum, tree[tIdx - 1]), strict)
    ensures cum < tree[tIdx - 1] ==> Descending(e, target, idx, k - 1, cum, strict)
  {
    AlignedAddPow2(idx, k);
    AlignedMonotone(idx, k + 1, k);
    assert tree[tIdx - 1] == Slot(e, tIdx);
    PrefixSplit(e, idx, tIdx);
    Pow2Succ(k);
    if NonNegative(e) {
      forall q | tIdx <= q <= |e|
        ensures Prefix(e, tIdx) <= Prefix(e, q)
      {
        PrefixMonotone(e, tIdx, q);
      }
    }
  }

  /** When the mask is exhausted, idx's prefix is the only candidate: the
      target is matched exactly when nothing is left of it. */
  lemma DescentEnd(e: seq<int>, target: int, idx: int, cum: int, strict: bool)
    requires Descending(e, target, idx, -1, cum, strict)
    ensures cum == 0 ==> Prefix(e, idx) == target
    ensures cum != 0 && NonNegative(e) ==> forall p :: 0 <= p <= |e| ==> Prefix(e, p) != target
    ensures NonNegative(e) ==> forall p :: idx < p <= |e| ==> Prefix(e, p) != target
  {
    if NonNegative(e) {
      forall p | 0 <= p <= idx
        ensures Prefix(e, p) <= Prefix(e, idx)
      {
        PrefixMonotone(e, p, idx);
      }
    }
  }
}
