/** `PrefixSums`: a plain cumulative array.  Entry i of `prefixSums` holds
    the sum of the elements 0 ..= i, so a range sum is the difference of two
    entries.  The logical elements are the ghost field `elements`. */
module Prefix {
  import opened IntGroup

  function Max(a: int, b: int): int { if a < b then b else a }

  /** Every entry is the running sum of the elements up to and including
      its own position. */
  ghost predicate IsPrefixSums(p: seq<int>, e: seq<int>)
  {
    |p| == |e| &&
    forall i :: 0 <= i < |e| ==> p[i] == Sum(e[..i + 1])
  }

  /** What `precomputePrefixSumsInPlace(_:startingAt:)` makes of p: entries
      below max(1, start) stay, and every later entry i becomes the entry
      just below the start plus the old entries from the start up to i. */
  ghost predicate Accumulated(p: seq<int>, q: seq<int>, start: int)
  {
    |q| == |p| &&
    (forall i :: 0 <= i < |p| && i < Max(1, start) ==> q[i] == p[i]) &&
    (forall i :: Max(1, start) <= i < |p| ==> q[i] == p[Max(1, start) - 1] + Sum(p[Max(1, start)..i + 1]))
  }

  lemma PrefixStep(e: seq<int>, k: int)
    requires 0 <= k < |e|
    ensures Sum(e[..k + 1]) == Sum(e[..k]) + e[k]
  {
    assert e[..k + 1][..k] == e[..k];
  }

  lemma SliceStep(p: seq<int>, a: int, b: int)
    requires 0 <= a <= b < |p|
    ensures Sum(p[a..b + 1]) == Sum(p[a..b]) + p[b]
  {
    SumSplit(p, a, b, b + 1);
    SumSingleton(p, b);
  }

  /** Accumulating the raw elements from position 1 yields their prefix
      sums: `init(_:)` lays out its elements. */
  lemma AccumulatedFromStart(e: seq<int>, q: seq<int>)
    requires Accumulated(e, q, 1)
    ensures IsPrefixSums(q, e)
  {
    forall i | 0 <= i < |e|
      ensures q[i] == Sum(e[..i + 1])
    {
      SumSingleton(e, 0);
      assert e[..1] == e[0..1];
      if i >= 1 {
        SumSplit(e, 0, 1, i + 1);
        assert e[..i + 1] == e[0..i + 1];
      }
    }
  }

  /** The tail of the subscript setter: when the entries below idx are
      still prefix sums, idx holds the new value and the entries above it
      hold the raw elements, accumulating from idx lays out the elements
      with idx replaced. */
  lemma TailRestores(p: seq<int>, q: seq<int>, e: seq<int>, idx: int, v: int)
    requires 0 <= idx < |e| == |p|
    requires forall k :: 0 <= k < idx ==> p[k] == Sum(e[..k + 1])
    requires p[idx] == v
    requires forall k :: idx < k < |p| ==> p[k] == e[k]
    requires Accumulated(p, q, idx)
    ensures IsPrefixSums(q, e[idx := v])
  {
    var e1 := e[idx := v];
    var s := Max(1, idx);
    assert p[s - 1] == Sum(e1[..s]) by {
      SumSingleton(e1, 0);
      assert e1[..1] == e1[0..1];
      assert e1[..s] == e[..s] || idx == 0;
    }
    forall i | 0 <= i < |e1|
      ensures q[i] == Sum(e1[..i + 1])
    {
      if i < s {
        if i < idx {
          assert e1[..i + 1] == e[..i + 1];
        } else {
          SumSingleton(e1, 0);
          assert e1[..1] == e1[0..1];
        }
      } else {
        assert p[s..i + 1] == e1[s..i + 1];
        SumSplit(e1, 0, s, i + 1);
        assert e1[..i + 1] == e1[0..i + 1];
        assert e1[..s] == e1[0..s];
      }
    }
  }

  /** The entry difference the getter reads is the element, as long as the
      entries up to idx are prefix sums. */
  lemma ElementOfPrefix(p: seq<int>, e: seq<int>, idx: int)
    requires 0 <= idx < |p| == |e|
    requires forall k :: 0 <= k <= idx ==> p[k] == Sum(e[..k + 1])
    ensures Element(p, idx) == e[idx]
  {
    PrefixStep(e, idx);
    if idx == 0 {
      assert e[..0] == [];
    }
  }

  /** `rangeQuery(in:)` on the raw entries: the entry at hi - 1 minus the
      entry at lo - 1 (the neutral element when lo is 0). */
  function Query(p: seq<int>, lo: int, hi: int): int
    requires 0 <= lo <= hi <= |p| && hi >= 1
  {
    Excluding(p[hi - 1], if lo > 0 then p[lo - 1] else NeutralElement())
  }

  /** The subscript getter on the raw entries. */
  function Element(p: seq<int>, idx: int): int
    requires 0 <= idx < |p|
  {
    if idx > 0 then Query(p, idx, idx + 1) else p[0]
  }

  /** `addOn(_:at:)` as written, on element 0: it stores the extra into
      entry 0 instead of adding it, so the result lays out the elements with
      the extra added only when element 0 was the neutral element. */
  lemma AddOnOverwritesAtZero(p: seq<int>, e: seq<int>, q: seq<int>, extra: int)
    requires IsPrefixSums(p, e) && |e| >= 1
    requires Accumulated(p[0 := extra], q, 0)
    ensures q[0] == extra
    ensures IsPrefixSums(q, e[0 := AddingOn(e[0], extra)]) ==> e[0] == NeutralElement()
  {
    if IsPrefixSums(q, e[0 := AddingOn(e[0], extra)]) {
      var e1 := e[0 := AddingOn(e[0], extra)];
      SumSingleton(e1, 0);
      assert e1[..1] == e1[0..1];
      assert q[0] == Sum(e1[..1]);
    }
  }

  /** The smallest instance: elements [1, 2] and `addOn(0, at: 0)`, which
      should change nothing, leave entries [0, 3], that is elements [0, 3]. */
  lemma AddOnAsWrittenCounterexample(p: seq<int>, e: seq<int>, q: seq<int>)
    requires |e| == 2 && e[0] == 1 && e[1] == 2
    requires IsPrefixSums(p, e)
    requires Accumulated(p[0 := 0], q, 0)
    ensures q[0] == 0 && q[1] == 3
    ensures !IsPrefixSums(q, e[0 := AddingOn(e[0], 0)])
  {
    AddOnOverwritesAtZero(p, e, q, 0);
    PrefixStep(e, 1);
    assert e[..1] == e[0..1];
    SumSingleton(e, 0);
    SumSingleton(p[0 := 0], 1);
  }

  /** The state of `precomputePrefixSumsInPlace` when it reaches entry i,
      having started at s: entries from s up to i are accumulated, the
      others are as before. */
  ghost predicate Accumulating(p: seq<int>, q: seq<int>, s: int, i: int)
  {
    1 <= s <= i <= |p| && |q| == |p| &&
    (forall k :: 0 <= k < s ==> q[k] == p[k]) &&
    (forall k :: i <= k < |p| ==> q[k] == p[k]) &&
    (forall k :: s - 1 <= k < i ==> q[k] == p[s - 1] + Sum(p[s..k + 1]))
  }

  lemma AccumulateStep(p: seq<int>, q: seq<int>, q1: seq<int>, s: int, i: int)
    requires Accumulating(p, q, s, i) && i < |p|
    requires q1 == q[i := AddOn(q[i], q[i - 1])]
    ensures Accumulating(p, q1, s, i + 1)
  {
    SliceStep(p, s, i);
    assert q[i - 1] == p[s - 1] + Sum(p[s..i]);
  }

  /** Once the walk has reached the end it has done what
      `Accumulated` describes. */
  lemma AccumulateEnd(p: seq<int>, q: seq<int>, start: int)
    requires Accumulating(p, q, Max(1, start), |p|)
    ensures Accumulated(p, q, start)
  {
  }

  class PrefixSums {
    var prefixSums: seq<int>
    ghost var elements: seq<int>

    ghost predicate Valid()
      reads this
    {
      IsPrefixSums(prefixSums, elements)
    }

    /** `init(size:)`: `size` neutral elements, whose prefix sums are all
        neutral too. */
    constructor BySize(size: int)
      requires size >= 0
      ensures Valid()
      ensures elements == seq(size, _ => NeutralElement())
      ensures prefixSums == seq(size, _ => NeutralElement())
    {
      prefixSums := seq(size, _ => NeutralElement());
      elements := seq(size, _ => NeutralElement());
      new;
      forall i | 0 <= i < size
        ensures prefixSums[i] == Sum(elements[..i + 1])
      {
        SumZeros(elements[..i + 1]);
      }
    }

    /** `init(_:)`: the elements, accumulated in place. */
    constructor (es: seq<int>)
      ensures Valid()
      ensures elements == es
    {
      prefixSums := es;
      elements := es;
      new;
      PrecomputeInPlace(1);
      AccumulatedFromStart(es, prefixSums);
    }

    /** `precomputePrefixSumsInPlace(_:startingAt:)`: for i from
        max(1, start) to the end, adds entry i - 1 into entry i.  The loop
        range traps when it would start past the end of a non-empty
        array. */
    method PrecomputeInPlace(start: int)
      requires |prefixSums| == 0 || Max(1, start) <= |prefixSums|
      modifies this
      ensures Accumulated(old(prefixSums), prefixSums, start)
      ensures unchanged(this`elements)
    {
      if |prefixSums| == 0 {
        return;
      }
      ghost var p := prefixSums;
      var s := Max(1, start);
      var i := s;
      assert p[s..s] == [];
      while i < |prefixSums|
        invariant s <= i <= |prefixSums| == |p|
        invariant elements == old(elements)
        invariant Accumulating(p, prefixSums, s, i)
      {
        ghost var q := prefixSums;
        prefixSums := prefixSums[i := IntGroup.AddOn(prefixSums[i], prefixSums[i - 1])];
        AccumulateStep(p, q, prefixSums, s, i);
        i := i + 1;
      }
      AccumulateEnd(p, prefixSums, start);
    }

    /** `addOn(_:at:)` as written: stores the extra into entry idx and
        accumulates from there.  It lays out anything meaningful only when
        the entries above idx hold raw elements, which only the subscript
        setter arranges; `elements` is left as it was. */
    method AddOnAsWritten(extra: int, idx: int)
      requires 0 <= idx < |prefixSums|
      modifies this
      ensures Accumulated(old(prefixSums)[idx := extra], prefixSums, idx)
      ensures unchanged(this`elements)
    {
      prefixSums := prefixSums[idx := extra];
      PrecomputeInPlace(idx);
    }

    /** `addOn(_:at:)` as its documentation states it: adds the extra to
        element idx, by setting it to its current value plus the extra. */
    method AddOn(extra: int, idx: int)
      requires Valid()
      requires 0 <= idx < |elements|
      modifies this
      ensures Valid()
      ensures elements == old(elements)[idx := AddingOn(old(elements)[idx], extra)]
    {
      Set(idx, AddingOn(Get(idx), extra));
    }

    /** `rangeQuery(in:)` over the half-open [lo, hi): the sum of those
        elements.  hi = 0 reads entry -1 and traps. */
    function RangeQuery(lo: int, hi: int): (r: int)
      requires Valid()
      requires 0 <= lo <= hi <= |elements| && hi >= 1
      reads this
      ensures r == Sum(elements[lo..hi])
    {
      assert Sum(elements[..hi]) == Sum(elements[..lo]) + Sum(elements[lo..hi]) by {
        SumSplit(elements, 0, lo, hi);
        assert elements[..hi] == elements[0..hi];
        assert elements[..lo] == elements[0..lo];
        PrefixStep(elements, hi - 1);
        assert elements[..hi - 1 + 1] == elements[..hi];
        if lo > 0 {
          assert elements[..lo - 1 + 1] == elements[..lo];
        } else {
          assert elements[..lo] == [];
        }
      }
      Query(prefixSums, lo, hi)
    }

    /** The subscript getter: the range [idx, idx + 1), or entry 0 itself
        at position 0. */
    function Get(idx: int): (r: int)
      requires Valid()
      requires 0 <= idx < |elements|
      reads this
      ensures r == elements[idx]
    {
      ElementOfPrefix(prefixSums, elements, idx);
      Element(prefixSums, idx)
    }

    /** The subscript setter: walking down from the last entry to idx + 1,
        turns each entry back into its raw element (each read still sees
        prefix sums below it), then `addOn` as written stores the new value
        and accumulates again. */
    method Set(idx: int, newValue: int)
      requires Valid()
      requires 0 <= idx < |elements|
      modifies this
      ensures Valid()
      ensures elements == old(elements)[idx := newValue]
    {
      var j := |prefixSums| - 1;
      while j > idx
        invariant idx <= j < |prefixSums| == |elements|
        invariant elements == old(elements)
        invariant forall k :: 0 <= k <= j ==> prefixSums[k] == Sum(elements[..k + 1])
        invariant forall k :: j < k < |prefixSums| ==> prefixSums[k] == elements[k]
      {
        ElementOfPrefix(prefixSums, elements, j);
        prefixSums := prefixSums[j := Element(prefixSums, j)];
        j := j - 1;
      }
      ghost var p := prefixSums[idx := newValue];
      AddOnAsWritten(newValue, idx);
      TailRestores(p, prefixSums, elements, idx, newValue);
      elements := elements[idx := newValue];
    }
  }
}
