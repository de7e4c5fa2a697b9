/** `IterativeSegmentTree`: a 1-based heap layout in an array of 2·maxSize
    slots, where maxSize is the smallest power of two above the element
    count.  Leaves maxSize .. 2·maxSize - 1 hold the elements (padding
    leaves hold 0), node x in [1, maxSize) holds the sum of nodes 2x and
    2x + 1, and slot 0 is never used. */
module IterativeTree {
  import opened IntGroup
  import opened Bits
  import opened Optional

  /** `size.MSBIndex.map { 1 << ($0 + 1) } ?? 0`: the smallest power of two
      strictly above a positive size, and 0 for an empty tree. */
  function MaxSize(size: int): (r: nat)
    ensures size <= 0 ==> r == 0
    ensures size > 0 ==> size < r <= 2 * size && r == Pow2(FloorLog2(size) + 1)
  {
    match MSBIndex(size)
    case None => 0
    case Some(i) => Pow2(i + 1)
  }

  /** The sum of the two children of node x. */
  ghost function ChildSum(t: seq<int>, x: int): int
    requires 1 <= x && 2 * x + 1 < |t|
  {
    t[2 * x] + t[2 * x + 1]
  }

  /** Every inner node holds the sum of its two children. */
  ghost predicate Aggregated(t: seq<int>, m: int)
  {
    |t| == 2 * m &&
    forall x {:trigger ChildSum(t, x)} :: 1 <= x < m ==> t[x] == ChildSum(t, x)
  }

  /** The nodes above i already hold the sum of their children. */
  ghost predicate AggregatedAbove(t: seq<int>, m: int, i: int)
  {
    |t| == 2 * m &&
    forall x {:trigger ChildSum(t, x)} :: 1 <= x < m && i < x ==> t[x] == ChildSum(t, x)
  }

  /** Filling node i: its children lie above it, so the nodes already
      filled keep their sums. */
  lemma PopulateStep(t: seq<int>, m: int, i: int)
    requires 1 <= i < m && AggregatedAbove(t, m, i)
    ensures AggregatedAbove(t[i := ChildSum(t, i)], m, i - 1)
  {
    var t1 := t[i := ChildSum(t, i)];
    forall x | 1 <= x < m && i - 1 < x
      ensures t1[x] == ChildSum(t1, x)
    {
      if x != i {
        assert t[x] == ChildSum(t, x);
      }
    }
  }

  lemma AggregatedFromAbove(t: seq<int>, m: int)
    requires AggregatedAbove(t, m, 0)
    ensures Aggregated(t, m)
  {
    forall x | 1 <= x < m
      ensures t[x] == ChildSum(t, x)
    {
      assert t[x] == ChildSum(t, x);
    }
  }

  /** Node x lies on the path from node y up to the root (node 1). */
  ghost predicate OnPath(x: int, y: int)
    decreases y
  {
    y >= 1 && (x == y || OnPath(x, y / 2))
  }

  lemma {:induction false} OnPathBounds(x: int, y: int)
    requires OnPath(x, y)
    ensures 1 <= x <= y
    decreases y
  {
    if x != y {
      OnPathBounds(x, y / 2);
    }
  }

  /** The parent of a node on the path is on the path too. */
  lemma {:induction false} OnPathParent(i: int, y: int)
    requires OnPath(i, y) && i >= 2
    ensures OnPath(i / 2, y)
    decreases y
  {
    if i != y {
      OnPathParent(i, y / 2);
    }
  }

  /** Two nodes on one path are on each other's path. */
  lemma {:induction false} OnPathChain(x: int, i: int, y: int)
    requires OnPath(x, y) && OnPath(i, y) && x <= i
    ensures OnPath(x, i)
    decreases y
  {
    OnPathBounds(x, y);
    OnPathBounds(i, y);
    if i != y && x != y {
      OnPathChain(x, i, y / 2);
    }
  }

  /** An inner node is on the path exactly when one, and only one, of its
      children is. */
  lemma {:induction false} OnPathChildren(x: int, y: int)
    requires 1 <= x < y
    ensures OnPath(x, y) <==> (OnPath(2 * x, y) || OnPath(2 * x + 1, y))
    ensures !(OnPath(2 * x, y) && OnPath(2 * x + 1, y))
    decreases y
  {
    if OnPath(2 * x, y / 2) {
      OnPathBounds(2 * x, y / 2);
    }
    if OnPath(2 * x + 1, y / 2) {
      OnPathBounds(2 * x + 1, y / 2);
    }
    if OnPath(x, y / 2) && x != y / 2 {
      OnPathBounds(x, y / 2);
    }
    if y / 2 > x {
      OnPathChildren(x, y / 2);
    }
  }

  /** Among leaves, only the leaf itself is on its own path. */
  lemma OnPathLeaf(x: int, y: int, m: int)
    requires m <= x && m <= y < 2 * m
    ensures OnPath(x, y) <==> x == y
  {
    if x != y && OnPath(x, y) {
      OnPathBounds(x, y / 2);
    }
  }

  /** Replacing two sibling runs by their parents keeps the sum. */
  lemma {:induction false} HalveSum(t: seq<int>, m: int, l: int, u: int)
    requires Aggregated(t, m)
    requires 2 <= l <= u <= 2 * m && l % 2 == 0 && u % 2 == 0
    ensures Sum(t[l..u]) == Sum(t[l / 2..u / 2])
    decreases u - l
  {
    if l < u {
      HalveSum(t, m, l, u - 2);
      SumSplit(t, l, u - 2, u);
      SumSplit(t, u - 2, u - 1, u);
      SumSingleton(t, u - 2);
      SumSingleton(t, u - 1);
      SumSplit(t, l / 2, u / 2 - 1, u / 2);
      SumSingleton(t, u / 2 - 1);
      var x := u / 2 - 1;
      assert 2 * x == u - 2 && 1 <= x < m;
      assert t[x] == ChildSum(t, x);
    }
  }

  /** The layout over m leaves of the elements e: inner nodes sum their
      children, leaf m + i holds e[i] (0 past the end of e), and slot 0
      holds 0. */
  ghost predicate Layout(t: seq<int>, m: int, e: seq<int>)
  {
    Aggregated(t, m) && |e| <= m &&
    (m > 0 ==> t[0] == NeutralElement()) &&
    forall y :: m <= y < 2 * m ==> t[y] == Padded(e, y - m)
  }

  /** Element i of e, and the neutral element past its end. */
  function Padded(e: seq<int>, i: int): int
    requires 0 <= i
  {
    if i < |e| then e[i] else NeutralElement()
  }

  /** The state of `addOn` when it reaches node i: nodes of the path from
      the leaf that lie above i have taken the extra, the rest is as before. */
  ghost predicate Climbing(tree: seq<int>, t0: seq<int>, leaf: int, extra: int, i: int)
  {
    |tree| == |t0| &&
    forall x :: 0 <= x < |tree| ==> tree[x] == t0[x] + (if OnPath(x, leaf) && x > i then extra else 0)
  }

  lemma ClimbStart(t0: seq<int>, leaf: int, extra: int)
    ensures Climbing(t0, t0, leaf, extra, leaf)
  {
    forall x | 0 <= x < |t0| && OnPath(x, leaf)
      ensures x <= leaf
    {
      OnPathBounds(x, leaf);
    }
  }

  /** Taking the extra at node i and moving to its parent: no path node lies
      strictly between them. */
  lemma ClimbStep(tree: seq<int>, t0: seq<int>, leaf: int, extra: int, i: int)
    requires 1 <= i < |tree| && OnPath(i, leaf)
    requires Climbing(tree, t0, leaf, extra, i)
    ensures Climbing(tree[i := tree[i] + extra], t0, leaf, extra, i / 2)
    ensures i / 2 > 0 ==> OnPath(i / 2, leaf)
  {
    forall x | 0 <= x < |tree| && OnPath(x, leaf) && i / 2 < x < i
      ensures false
    {
      OnPathChain(x, i, leaf);
      OnPathBounds(x, i);
      if x != i {
        OnPathBounds(x, i / 2);
      }
    }
    if i / 2 > 0 {
      OnPathParent(i, leaf);
    }
  }

  /** What a whole climb from `leaf` does: the nodes on the path take the
      extra, and no other node changes. */
  ghost predicate Climbed(t0: seq<int>, t1: seq<int>, leaf: int, extra: int)
  {
    |t1| == |t0| &&
    forall x :: 0 <= x < |t1| ==> t1[x] == t0[x] + if OnPath(x, leaf) then extra else 0
  }

  lemma ClimbDone(t0: seq<int>, t1: seq<int>, leaf: int, extra: int)
    requires Climbing(t1, t0, leaf, extra, 0)
    ensures Climbed(t0, t1, leaf, extra)
  {
    forall x | 0 <= x < |t1|
      ensures t1[x] == t0[x] + if OnPath(x, leaf) then extra else 0
    {
      if OnPath(x, leaf) {
        OnPathBounds(x, leaf);
      }
    }
  }

  /** A climb from a leaf keeps every inner node the sum of its children. */
  lemma ClimbAggregated(t0: seq<int>, t1: seq<int>, m: int, leaf: int, extra: int)
    requires Aggregated(t0, m) && m <= leaf
    requires Climbed(t0, t1, leaf, extra)
    ensures Aggregated(t1, m)
  {
    forall x | 1 <= x < m
      ensures t1[x] == ChildSum(t1, x)
    {
      assert t0[x] == ChildSum(t0, x);
      OnPathChildren(x, leaf);
      assert t1[x] == t0[x] + if OnPath(x, leaf) then extra else 0;
      assert t1[2 * x] == t0[2 * x] + if OnPath(2 * x, leaf) then extra else 0;
      assert t1[2 * x + 1] == t0[2 * x + 1] + if OnPath(2 * x + 1, leaf) then extra else 0;
    }
  }

  /** Once the climb has passed the root, every node of the path has taken
      the extra, and the tree lays out the updated elements. */
  lemma ClimbEnd(t0: seq<int>, t1: seq<int>, m: int, e: seq<int>, idx: int, extra: int)
    requires Layout(t0, m, e) && 0 <= idx < |e|
    requires Climbing(t1, t0, m + idx, extra, 0)
    ensures Layout(t1, m, e[idx := AddingOn(e[idx], extra)])
    ensures Climbed(t0, t1, m + idx, extra)
  {
    var leaf := m + idx;
    ClimbDone(t0, t1, leaf, extra);
    ClimbAggregated(t0, t1, m, leaf, extra);
    if m > 0 && OnPath(0, leaf) {
      OnPathBounds(0, leaf);
    }
    var e1 := e[idx := AddingOn(e[idx], extra)];
    forall y | m <= y < 2 * m
      ensures t1[y] == Padded(e1, y - m)
    {
      OnPathLeaf(y, leaf, m);
      assert t1[y] == t0[y] + if y == leaf then extra else 0;
    }
  }

  /** The leaves of a range are the range's elements. */
  lemma QueryStart(t: seq<int>, m: int, e: seq<int>, lo: int, hi: int)
    requires Layout(t, m, e) && 0 <= lo <= hi <= |e|
    ensures Sum(t[m + lo..m + hi]) == Sum(e[lo..hi])
  {
    assert t[m + lo..m + hi] == e[lo..hi];
  }

  /** Where the pointers of `rangeQuery` stand: while the run is
      non-empty it lies within the level of nodes [2^level, 2^(level+1)). */
  ghost predicate Window(m: int, h: nat, level: int, lower: int, upper: int)
  {
    lower < upper ==> 0 <= level <= h && m == Pow2(h) && Pow2(level) <= lower && upper <= 2 * Pow2(level)
  }

  /** The boundary steps of one round of `rangeQuery`: an odd `lower` (a
      right child) is stepped past, an odd `upper` is stepped back. */
  ghost predicate Trimmed(lower: int, upper: int, l1: int, u1: int)
  {
    l1 == (if lower % 2 != 0 then lower + 1 else lower) &&
    u1 == (if upper % 2 != 0 then upper - 1 else upper)
  }

  /** One round moves the window up one level. */
  lemma WindowStep(m: int, h: nat, level: int, lower: int, upper: int, l1: int, u1: int, l2: int, u2: int)
    requires Window(m, h, level, lower, upper) && 0 <= lower < upper
    requires Trimmed(lower, upper, l1, u1)
    requires l2 == l1 / 2 && u2 == u1 / 2
    ensures Window(m, h, level - 1, l2, u2)
    ensures 0 <= l2 <= u2 < upper <= 2 * m
    ensures l1 < u1 ==> 2 <= l1 && u1 <= 2 * m
  {
    Pow2Monotone(level, h);
    Pow2Monotone(0, level);
    if l1 < u1 {
      if level == 0 {
        assert false;
      }
      Pow2Succ(level - 1);
    }
  }

  /** One round keeps the result plus the sum of the run: the boundary
      nodes stepped over are folded into the result, and the remaining run
      is replaced by its parents. */
  lemma QueryRound(t: seq<int>, m: int, lower: int, upper: int, result: int, l1: int, u1: int, r1: int)
    requires Aggregated(t, m)
    requires 0 <= lower < upper <= |t|
    requires Trimmed(lower, upper, l1, u1)
    requires l1 <= u1
    requires l1 < u1 ==> 2 <= l1
    requires r1 == result + (if lower % 2 != 0 then t[lower] else 0) + (if upper % 2 != 0 then t[upper - 1] else 0)
    ensures r1 + Sum(t[l1 / 2..u1 / 2]) == result + Sum(t[lower..upper])
  {
    assert Sum(t[lower..upper]) == Sum(t[l1..upper]) + if lower % 2 != 0 then t[lower] else 0 by {
      if lower % 2 != 0 {
        SumFirst(t, lower, upper);
      }
    }
    assert Sum(t[l1..upper]) == Sum(t[l1..u1]) + if upper % 2 != 0 then t[upper - 1] else 0 by {
      if upper % 2 != 0 {
        SumLast(t, l1, upper);
      }
    }
    if l1 < u1 {
      HalveSum(t, m, l1, u1);
    }
  }

  /** Folding the first node of a run into the result. */
  lemma SumFirst(t: seq<int>, l: int, u: int)
    requires 0 <= l < u <= |t|
    ensures Sum(t[l..u]) == t[l] + Sum(t[l + 1..u])
  {
    SumSplit(t, l, l + 1, u);
    SumSingleton(t, l);
  }

  /** Folding the last node of a run into the result. */
  lemma SumLast(t: seq<int>, l: int, u: int)
    requires 0 <= l < u <= |t|
    ensures Sum(t[l..u]) == Sum(t[l..u - 1]) + t[u - 1]
  {
    SumSplit(t, l, u - 1, u);
    SumSingleton(t, u - 1);
  }

  /** A climb that starts at an inner node instead of a leaf, which is where
      `addOn` starts for -maxSize < idx < 0: no leaf changes, yet the
      starting node no longer holds the sum of its children. */
  lemma {:induction false} InnerClimbCorrupts(t0: seq<int>, t1: seq<int>, m: int, e: seq<int>, start: int, extra: int)
    requires Layout(t0, m, e) && 1 <= start < m && extra != 0
    requires Climbed(t0, t1, start, extra)
    ensures t1[m..] == t0[m..]
    ensures t1[start] != ChildSum(t1, start)
    ensures !Aggregated(t1, m)
  {
    forall y | m <= y < 2 * m
      ensures t1[y] == t0[y]
    {
      if OnPath(y, start) {
        OnPathBounds(y, start);
      }
    }
    assert t1[m..] == t0[m..];
    assert t0[start] == ChildSum(t0, start);
    if OnPath(2 * start, start) {
      OnPathBounds(2 * start, start);
    }
    if OnPath(2 * start + 1, start) {
      OnPathBounds(2 * start + 1, start);
    }
    assert t1[start] == t0[start] + extra by {
      assert OnPath(start, start);
    }
  }

  /** Seven zero elements and `addOn(1, at: -2)`: the climb starts at node
      6, which `rangeQuery(in: 4..<6)` reads on its own, so that query
      answers 1 although elements 4 and 5 are still 0. */
  lemma NegativeIndexCounterexample(t1: seq<int>)
    requires Climbed(seq(16, _ => 0), t1, MaxSize(7) - 2, 1)
    ensures MaxSize(7) == 8
    ensures t1[8..] == seq(8, _ => 0)
    ensures t1[6] == 1 && !Aggregated(t1, 8)
  {
    var e := seq(7, _ => 0);
    var t0 := seq(16, _ => 0);
    assert MaxSize(7) == 8 by {
      FloorLog2Unique(7, 2);
    }
    assert Layout(t0, 8, e) by {
      forall y | 8 <= y < 16
        ensures t0[y] == Padded(e, y - 8)
      {
      }
    }
    InnerClimbCorrupts(t0, t1, 8, e, 6, 1);
    assert OnPath(6, 6);
  }

  class IterativeSegmentTree {
    const size: int
    const maxSize: int
    var tree: seq<int>
    ghost var elements: seq<int>

    ghost predicate Valid()
      reads this
    {
      size == |elements| &&
      maxSize == MaxSize(size) &&
      Layout(tree, maxSize, elements)
    }

    /** `init(size:)`: `size` neutral elements. */
    constructor BySize(size: int)
      requires size >= 0
      ensures Valid()
      ensures elements == seq(size, _ => NeutralElement())
      ensures |tree| == 2 * MaxSize(size)
    {
      this.size := size;
      maxSize := MaxSize(size);
      tree := seq(2 * MaxSize(size), _ => NeutralElement());
      elements := seq(size, _ => NeutralElement());
    }

    /** `init(_:)`: copies the elements into the leaves and fills in the
        inner nodes. */
    constructor (es: seq<int>)
      ensures Valid()
      ensures elements == es
    {
      size := |es|;
      var m := MaxSize(|es|);
      maxSize := m;
      elements := es;
      tree := seq(m, _ => NeutralElement()) + es + seq(m - |es|, _ => NeutralElement());
      new;
      if |es| > 0 {
        PopulateAggregates();
      }
      forall y | m <= y < 2 * m
        ensures tree[y] == Padded(es, y - m)
      {
        assert tree[y] == tree[m..][y - m];
      }
    }

    /** `populateAggregates()`: fills the inner nodes bottom-up, from
        maxSize - 1 down to 1; leaves and slot 0 are left as they are. */
    method PopulateAggregates()
      requires |tree| == 2 * maxSize
      modifies this
      ensures Aggregated(tree, maxSize)
      ensures maxSize > 0 ==> tree[0] == old(tree[0])
      ensures tree[maxSize..] == old(tree[maxSize..])
      ensures unchanged(this`elements)
    {
      var i := maxSize - 1;
      while i > 0
        invariant |tree| == 2 * maxSize
        invariant i < maxSize
        invariant maxSize > 0 ==> tree[0] == old(tree[0])
        invariant tree[maxSize..] == old(tree[maxSize..])
        invariant AggregatedAbove(tree, maxSize, i)
        invariant unchanged(this`elements)
      {
        PopulateStep(tree, maxSize, i);
        tree := tree[i := AddingOn(tree[2 * i], tree[2 * i + 1])];
        i := i - 1;
      }
      AggregatedFromAbove(tree, maxSize);
    }

    /** `addOn(_:at:)`: adds `extra` to the leaf of element idx and to every
        node on its path up to node 1; slot 0 and every other node are
        left alone. */
    method AddOn(extra: int, idx: int)
      requires Valid()
      requires 0 <= idx < size
      modifies this
      ensures Valid()
      ensures elements == old(elements)[idx := AddingOn(old(elements)[idx], extra)]
      ensures |tree| == |old(tree)|
      ensures Climbed(old(tree), tree, maxSize + idx, extra)
    {
      ghost var t0 := tree;
      ghost var leaf := maxSize + idx;
      var i := idx + maxSize;
      ClimbStart(t0, leaf, extra);
      while i > 0
        invariant 0 <= i <= leaf < |tree|
        invariant i > 0 ==> OnPath(i, leaf)
        invariant Climbing(tree, t0, leaf, extra, i)
        invariant unchanged(this`elements)
      {
        ClimbStep(tree, t0, leaf, extra, i);
        tree := tree[i := IntGroup.AddOn(tree[i], extra)];
        i := i / 2;
      }
      ClimbEnd(t0, tree, maxSize, elements, idx, extra);
      elements := elements[idx := AddingOn(elements[idx], extra)];
    }

    /** `addOn(_:at:)` as written: its only check is idx < size, so for
        -maxSize < idx < 0 the climb starts at inner node maxSize + idx and
        no leaf changes (see `InnerClimbCorrupts`), and for idx <= -maxSize
        nothing happens.  The logical elements are not updated, because
        the result no longer lays out any elements. */
    method AddOnAsWritten(extra: int, idx: int)
      requires Valid()
      requires idx < size
      modifies this`tree
      ensures |tree| == |old(tree)|
      ensures Climbed(old(tree), tree, maxSize + idx, extra)
    {
      ghost var t0 := tree;
      ghost var leaf := maxSize + idx;
      var i := idx + maxSize;
      ClimbStart(t0, leaf, extra);
      while i > 0
        invariant i <= leaf < |tree|
        invariant i > 0 ==> OnPath(i, leaf)
        invariant Climbing(tree, t0, leaf, extra, if i > 0 then i else 0)
      {
        ClimbStep(tree, t0, leaf, extra, i);
        tree := tree[i := IntGroup.AddOn(tree[i], extra)];
        i := i / 2;
      }
      ClimbDone(t0, tree, leaf, extra);
    }

    /** `rangeQuery(in:)` over the half-open [lo, hi): the sum of those
        elements, 0 when the range is empty.  The two pointers climb one
        level per round, folding in a boundary node whenever it is a right
        (for `lower`) or left (for `upper`) child. */
    method RangeQuery(lo: int, hi: int) returns (result: int)
      requires Valid()
      requires 0 <= lo <= hi <= size
      ensures result == Sum(elements[lo..hi])
    {
      ghost var target := Sum(elements[lo..hi]);
      ghost var h: nat := if size > 0 then FloorLog2(size) + 1 else 0;
      ghost var level: int := h;
      result := NeutralElement();
      var lower := lo + maxSize;
      var upper := hi + maxSize;
      QueryStart(tree, maxSize, elements, lo, hi);
      Pow2Monotone(0, h);
      while lower < upper
        invariant 0 <= lower <= upper <= |tree|
        invariant Window(maxSize, h, level, lower, upper)
        invariant result + Sum(tree[lower..upper]) == target
        decreases upper
      {
        ghost var l0, u0, r0 := lower, upper, result;
        if lower % 2 != 0 {
          result := IntGroup.AddOn(result, tree[lower]);
          lower := lower + 1;
        }
        if upper % 2 != 0 {
          upper := upper - 1;
          result := IntGroup.AddOn(result, tree[upper]);
        }
        ghost var l1, u1 := lower, upper;
        lower := lower / 2;
        upper := upper / 2;
        WindowStep(maxSize, h, level, l0, u0, l1, u1, lower, upper);
        QueryRound(tree, maxSize, l0, u0, r0, l1, u1, result);
        level := level - 1;
      }
    }

    /** The subscript getter: a direct read of the leaf. */
    function Get(idx: int): (r: int)
      requires Valid()
      requires 0 <= idx < size
      reads this
      ensures r == elements[idx]
    {
      tree[maxSize + idx]
    }

    /** The subscript setter: adds the difference between the new and the
        current value. */
    method Set(idx: int, newValue: int)
      requires Valid()
      requires 0 <= idx < size
      modifies this
      ensures Valid()
      ensures elements == old(elements)[idx := newValue]
    {
      var extra := Excluding(newValue, Get(idx));
      AddOn(extra, idx);
    }
  }
}
