/** `RecursiveSegmentTree`: node 0 covers the closed range [0, size - 1];
    node i covering [lo, hi] with lo < hi has children 2i + 1 over
    [lo, mid] and 2i + 2 over [mid + 1, hi], where mid = (lo + hi) >> 1.
    Every operation is one walk of `traverseTree`, steered by an edge-case
    handler (stop with a value, or drill down) and combined by a recursion
    handler.  The walks that only read are modelled by the pure function
    `Traverse` over a description of their two handlers; the two walks
    that write nodes (`populateTree`, `addOn`) are recursive methods that
    follow the same recursion. */
module RecursiveTree {
  import opened IntGroup
  import opened Bits
  import opened Optional

  /** `(size - 1).MSBIndex.map { $0 + 1 } ?? 0`: the bit length of
      size - 1, so the number of halvings that bring size down to 1. */
  function CoveringBits(size: int): (b: nat)
    ensures size <= 1 ==> b == 0
    ensures size >= 1 ==> size <= Pow2(b) && (b > 0 ==> Pow2(b - 1) < size)
  {
    match MSBIndex(size - 1)
    case None => 0
    case Some(k) => k + 1
  }

  /** The midpoint `(hi + lo) >> 1` of a covered range (never negative
      here, so the shift is floor division). */
  function Mid(lo: int, hi: int): int
  {
    (hi + lo) / 2
  }

  /** Every node of the subtree at i over [lo, hi] has an index below n. */
  ghost predicate Fits(n: int, i: int, lo: int, hi: int)
    decreases hi - lo
  {
    0 <= i < n && 0 <= lo <= hi &&
    (lo < hi ==> Fits(n, 2 * i + 1, lo, Mid(lo, hi)) && Fits(n, 2 * i + 2, Mid(lo, hi) + 1, hi))
  }

  /** A node at depth d has an index below 2^(d+1) - 1 and covers at most
      2^(b-d) elements; so it and all its descendants fit 2^(b+1) - 1 slots. */
  lemma {:induction false} FitsByDepth(b: nat, d: nat, i: int, lo: int, hi: int)
    requires d <= b && 0 <= i < Pow2(d + 1) - 1
    requires 0 <= lo <= hi && hi - lo + 1 <= Pow2(b - d)
    ensures Fits(Pow2(b + 1) - 1, i, lo, hi)
    decreases hi - lo
  {
    Pow2Monotone(d + 1, b + 1);
    if lo < hi {
      if d == b {
        assert false;
      }
      Pow2Succ(b - d - 1);
      Pow2Succ(d + 1);
      assert b - (d + 1) == b - d - 1;
      FitsByDepth(b, d + 1, 2 * i + 1, lo, Mid(lo, hi));
      FitsByDepth(b, d + 1, 2 * i + 2, Mid(lo, hi) + 1, hi);
    }
  }

  /** `maxSize` of `init(size:)`: 2^(bits + 1) - 1 slots, enough for every
      node the traversal over [0, size - 1] reaches. */
  function TreeLength(size: int): (r: nat)
    ensures r >= 1
    ensures size >= 1 ==> Fits(r, 0, 0, size - 1)
  {
    var b := CoveringBits(size);
    Pow2Monotone(0, b + 1);
    if size >= 1 then
      FitsByDepth(b, 0, 0, 0, size - 1);
      Pow2(b + 1) - 1
    else
      Pow2(b + 1) - 1
  }

  // ---------------------------------------------------------------------
  // The subtree layout

  /** Node j is i itself or one of its descendants in the subtree over
      [lo, hi]. */
  ghost predicate InSubtree(j: int, i: int, lo: int, hi: int)
    decreases hi - lo
  {
    j == i || (lo < hi && (InSubtree(j, 2 * i + 1, lo, Mid(lo, hi)) || InSubtree(j, 2 * i + 2, Mid(lo, hi) + 1, hi)))
  }

  /** Node j is c or reaches c by repeatedly taking the parent (j - 1) / 2. */
  ghost predicate Desc(j: int, c: int)
    decreases j
  {
    0 <= c <= j && (j == c || Desc((j - 1) / 2, c))
  }

  lemma {:induction false} DescParent(j: int, c: int)
    requires Desc(j, c) && c >= 1
    ensures Desc(j, (c - 1) / 2)
    decreases j
  {
    if j != c {
      DescParent((j - 1) / 2, c);
    } else {
      assert Desc((c - 1) / 2, (c - 1) / 2);
    }
  }

  /** The ancestors of a node form one chain. */
  lemma {:induction false} DescChain(j: int, a: int, c: int)
    requires Desc(j, a) && Desc(j, c) && a <= c
    ensures Desc(c, a)
    decreases j
  {
    if j != c && j != a {
      DescChain((j - 1) / 2, a, c);
    }
  }

  lemma {:induction false} SubtreeDesc(j: int, i: int, lo: int, hi: int)
    requires InSubtree(j, i, lo, hi) && i >= 0
    ensures Desc(j, i)
    decreases hi - lo
  {
    if j != i {
      var mid := Mid(lo, hi);
      if InSubtree(j, 2 * i + 1, lo, mid) {
        SubtreeDesc(j, 2 * i + 1, lo, mid);
        DescParent(j, 2 * i + 1);
      } else {
        SubtreeDesc(j, 2 * i + 2, mid + 1, hi);
        DescParent(j, 2 * i + 2);
      }
    }
  }

  /** The two child subtrees of node i are disjoint and do not contain i. */
  lemma ChildrenApart(j: int, i: int, lo: int, hi: int)
    requires 0 <= i && lo < hi
    ensures InSubtree(j, 2 * i + 1, lo, Mid(lo, hi)) ==> j != i && !InSubtree(j, 2 * i + 2, Mid(lo, hi) + 1, hi)
    ensures InSubtree(j, 2 * i + 2, Mid(lo, hi) + 1, hi) ==> j != i
  {
    var mid := Mid(lo, hi);
    if InSubtree(j, 2 * i + 1, lo, mid) {
      SubtreeDesc(j, 2 * i + 1, lo, mid);
      if InSubtree(j, 2 * i + 2, mid + 1, hi) {
        SubtreeDesc(j, 2 * i + 2, mid + 1, hi);
        DescChain(j, 2 * i + 1, 2 * i + 2);
        assert false;
      }
    }
    if InSubtree(j, 2 * i + 2, mid + 1, hi) {
      SubtreeDesc(j, 2 * i + 2, mid + 1, hi);
    }
  }

  /** The layout invariant: every node of the subtree holds the sum of the
      elements it covers. */
  ghost predicate Holds(t: seq<int>, e: seq<int>, i: int, lo: int, hi: int)
    decreases hi - lo
  {
    0 <= i < |t| && 0 <= lo <= hi < |e| &&
    t[i] == Sum(e[lo..hi + 1]) &&
    (lo < hi ==> Holds(t, e, 2 * i + 1, lo, Mid(lo, hi)) && Holds(t, e, 2 * i + 2, Mid(lo, hi) + 1, hi))
  }

  lemma {:induction false} HoldsFits(t: seq<int>, e: seq<int>, i: int, lo: int, hi: int)
    requires Holds(t, e, i, lo, hi)
    ensures Fits(|t|, i, lo, hi)
    decreases hi - lo
  {
    if lo < hi {
      HoldsFits(t, e, 2 * i + 1, lo, Mid(lo, hi));
      HoldsFits(t, e, 2 * i + 2, Mid(lo, hi) + 1, hi);
    }
  }

  /** The layout of a subtree depends only on the nodes in it. */
  lemma {:induction false} HoldsFrame(t1: seq<int>, t2: seq<int>, e: seq<int>, i: int, lo: int, hi: int)
    requires Holds(t1, e, i, lo, hi) && |t1| == |t2|
    requires forall j :: 0 <= j < |t1| && InSubtree(j, i, lo, hi) ==> t2[j] == t1[j]
    ensures Holds(t2, e, i, lo, hi)
    decreases hi - lo
  {
    assert InSubtree(i, i, lo, hi);
    if lo < hi {
      HoldsFrame(t1, t2, e, 2 * i + 1, lo, Mid(lo, hi));
      HoldsFrame(t1, t2, e, 2 * i + 2, Mid(lo, hi) + 1, hi);
    }
  }

  /** A tree of zeros lays out a sequence of zeros. */
  lemma {:induction false} HoldsZero(t: seq<int>, e: seq<int>, i: int, lo: int, hi: int)
    requires Fits(|t|, i, lo, hi) && hi < |e|
    requires forall j :: 0 <= j < |t| ==> t[j] == NeutralElement()
    requires forall k :: 0 <= k < |e| ==> e[k] == NeutralElement()
    ensures Holds(t, e, i, lo, hi)
    decreases hi - lo
  {
    SumZeros(e[lo..hi + 1]);
    if lo < hi {
      HoldsZero(t, e, 2 * i + 1, lo, Mid(lo, hi));
      HoldsZero(t, e, 2 * i + 2, Mid(lo, hi) + 1, hi);
    }
  }

  /** Three elements take 2 covering bits and 7 slots. */
  lemma ThreeElementLength()
    ensures CoveringBits(3) == 2 && TreeLength(3) == 7
  {
    assert Pow2(1) == 2 && Pow2(2) == 4 && Pow2(3) == 8;
    FloorLog2Unique(2, 1);
  }

  /** `test_RecursiveTree1`: [0, 1, 2] is laid out as 3, 1, 2, 0, 1. */
  lemma ThreeElementLayout(t: seq<int>, e: seq<int>)
    requires |e| == 3 && e[0] == 0 && e[1] == 1 && e[2] == 2
    requires Holds(t, e, 0, 0, |e| - 1)
    ensures |t| >= 5 && t[0] == 3 && t[1] == 1 && t[2] == 2 && t[3] == 0 && t[4] == 1
  {
    assert Mid(0, 2) == 1 && Mid(0, 1) == 0;
    assert Holds(t, e, 1, 0, 1) && Holds(t, e, 2, 2, 2);
    assert Holds(t, e, 3, 0, 0) && Holds(t, e, 4, 1, 1);
    SumSingleton(e, 0);
    SumSingleton(e, 1);
    SumSingleton(e, 2);
    SumSplit(e, 0, 1, 2);
    SumSplit(e, 0, 2, 3);
  }

  // ---------------------------------------------------------------------
  // The read-only walks of `traverseTree`

  /** Which read-only walk is being made: `rangeQuery` over the closed
      range [qlo, qhi], or the subscript getter at idx. */
  datatype Visitor = RangeVisitor(qlo: int, qhi: int) | ElementVisitor(idx: int)

  /** `EdgeCaseHandlerResult`. */
  datatype EdgeCaseResult = DrillDown | CutShort(result: Option<int>)

  /** The edge-case handler of each walk at node i covering [lo, hi].  It
      only drills into ranges of two or more elements, which is what makes
      the traversal terminate. */
  function EdgeCase(t: seq<int>, v: Visitor, lo: int, hi: int, i: int): (r: EdgeCaseResult)
    requires 0 <= i < |t| && lo <= hi
    ensures r.DrillDown? ==> lo < hi
  {
    match v
    case RangeVisitor(qlo, qhi) =>
      if lo >= qlo && hi <= qhi then CutShort(Some(t[i]))
      else if lo <= qhi && qlo <= hi then DrillDown
      else CutShort(None)
    case ElementVisitor(idx) =>
      if !(lo <= idx <= hi) then CutShort(None)
      else if hi - lo + 1 == 1 then CutShort(Some(t[i]))
      else DrillDown
  }

  /** The recursion handler of each walk: a query adds the two halves
      (`nil` counting as the neutral element); the getter keeps the half
      that found the element (`lhs ?? rhs!`).
      What a whole walk answers is stated by `QueryTraverse` and
      `ElementTraverse`. */
  function Recur(v: Visitor, lhs: Option<int>, rhs: Option<int>): Option<int>
  {
    match v
    case RangeVisitor(_, _) => Some(AddingOn(lhs.GetOr(NeutralElement()), rhs.GetOr(NeutralElement())))
    case ElementVisitor(_) => if lhs.Some? then lhs else rhs
  }

  /** `traverseTree` for the read-only walks. */
  function Traverse(t: seq<int>, v: Visitor, i: int, lo: int, hi: int): Option<int>
    requires Fits(|t|, i, lo, hi)
    decreases hi - lo
  {
    match EdgeCase(t, v, lo, hi, i)
    case CutShort(res) => res
    case DrillDown =>
      var mid := Mid(lo, hi);
      Recur(v, Traverse(t, v, 2 * i + 1, lo, mid), Traverse(t, v, 2 * i + 2, mid + 1, hi))
  }

  function Max(a: int, b: int): int { if a < b then b else a }
  function Min(a: int, b: int): int { if a < b then a else b }

  /** The sum of the elements in [lo, hi] that also lie in [qlo, qhi]. */
  ghost function Clipped(e: seq<int>, lo: int, hi: int, qlo: int, qhi: int): int
    requires 0 <= lo <= hi < |e|
  {
    var a := Max(lo, qlo);
    var b := Min(hi, qhi);
    if a <= b then Sum(e[a..b + 1]) else NeutralElement()
  }

  lemma ClippedSplit(e: seq<int>, lo: int, mid: int, hi: int, qlo: int, qhi: int)
    requires 0 <= lo <= mid < hi < |e|
    ensures Clipped(e, lo, hi, qlo, qhi) == Clipped(e, lo, mid, qlo, qhi) + Clipped(e, mid + 1, hi, qlo, qhi)
  {
    var a := Max(lo, qlo);
    var b := Min(hi, qhi);
    if a <= mid && mid + 1 <= b {
      SumSplit(e, a, mid + 1, b + 1);
    }
  }

  /** A query walk over a laid-out subtree returns the sum of the covered
      elements that lie in the query range, and `nil` when there are none;
      a node inside the query range answers with its own value. */
  lemma {:induction false} QueryTraverse(t: seq<int>, e: seq<int>, i: int, lo: int, hi: int, qlo: int, qhi: int)
    requires Holds(t, e, i, lo, hi) && Fits(|t|, i, lo, hi)
    ensures Traverse(t, RangeVisitor(qlo, qhi), i, lo, hi).Some? <==> (lo <= qhi && qlo <= hi)
    ensures Traverse(t, RangeVisitor(qlo, qhi), i, lo, hi).GetOr(NeutralElement()) == Clipped(e, lo, hi, qlo, qhi)
    ensures lo >= qlo && hi <= qhi ==> Traverse(t, RangeVisitor(qlo, qhi), i, lo, hi) == Some(t[i])
    decreases hi - lo
  {
    var v := RangeVisitor(qlo, qhi);
    if lo >= qlo && hi <= qhi {
      assert EdgeCase(t, v, lo, hi, i) == CutShort(Some(t[i]));
      assert Max(lo, qlo) == lo && Min(hi, qhi) == hi;
    } else if lo <= qhi && qlo <= hi {
      var mid := Mid(lo, hi);
      assert EdgeCase(t, v, lo, hi, i) == DrillDown;
      QueryTraverse(t, e, 2 * i + 1, lo, mid, qlo, qhi);
      QueryTraverse(t, e, 2 * i + 2, mid + 1, hi, qlo, qhi);
      ClippedSplit(e, lo, mid, hi, qlo, qhi);
    } else {
      assert EdgeCase(t, v, lo, hi, i) == CutShort(None);
      assert Max(lo, qlo) > Min(hi, qhi);
    }
  }

  /** A getter walk finds the element at idx when the subtree covers it,
      and `nil` otherwise. */
  lemma {:induction false} ElementTraverse(t: seq<int>, e: seq<int>, i: int, lo: int, hi: int, idx: int)
    requires Holds(t, e, i, lo, hi) && Fits(|t|, i, lo, hi)
    ensures Traverse(t, ElementVisitor(idx), i, lo, hi) == if lo <= idx <= hi then Some(e[idx]) else None
    decreases hi - lo
  {
    if lo <= idx <= hi {
      if lo == hi {
        SumSingleton(e, lo);
      } else {
        var mid := Mid(lo, hi);
        ElementTraverse(t, e, 2 * i + 1, lo, mid, idx);
        ElementTraverse(t, e, 2 * i + 2, mid + 1, hi, idx);
      }
    }
  }

  // ---------------------------------------------------------------------
  // The walk of `addOn`

  /** Node j is a node of the subtree at i whose range contains idx. */
  ghost predicate OnRoute(j: int, idx: int, i: int, lo: int, hi: int)
    decreases hi - lo
  {
    lo <= idx <= hi &&
    (j == i || (lo < hi && (OnRoute(j, idx, 2 * i + 1, lo, Mid(lo, hi)) || OnRoute(j, idx, 2 * i + 2, Mid(lo, hi) + 1, hi))))
  }

  lemma {:induction false} RouteInSubtree(j: int, idx: int, i: int, lo: int, hi: int)
    requires OnRoute(j, idx, i, lo, hi)
    ensures InSubtree(j, i, lo, hi)
    decreases hi - lo
  {
    if j != i {
      if OnRoute(j, idx, 2 * i + 1, lo, Mid(lo, hi)) {
        RouteInSubtree(j, idx, 2 * i + 1, lo, Mid(lo, hi));
      } else {
        RouteInSubtree(j, idx, 2 * i + 2, Mid(lo, hi) + 1, hi);
      }
    }
  }

  /** The routes through the two children of node i are disjoint and do
      not contain i. */
  lemma RoutesApart(j: int, idx: int, i: int, lo: int, hi: int)
    requires 0 <= i && lo < hi
    ensures OnRoute(j, idx, 2 * i + 1, lo, Mid(lo, hi)) ==> j != i && !OnRoute(j, idx, 2 * i + 2, Mid(lo, hi) + 1, hi)
    ensures OnRoute(j, idx, 2 * i + 2, Mid(lo, hi) + 1, hi) ==> j != i
  {
    if OnRoute(j, idx, 2 * i + 1, lo, Mid(lo, hi)) {
      RouteInSubtree(j, idx, 2 * i + 1, lo, Mid(lo, hi));
    }
    if OnRoute(j, idx, 2 * i + 2, Mid(lo, hi) + 1, hi) {
      RouteInSubtree(j, idx, 2 * i + 2, Mid(lo, hi) + 1, hi);
    }
    ChildrenApart(j, i, lo, hi);
  }

  /** Exactly the nodes of the subtree at i over [lo, hi] whose range
      contains idx differ between t0 and t1, each by the extra. */
  ghost predicate Routed(t0: seq<int>, t1: seq<int>, idx: int, i: int, lo: int, hi: int, extra: int)
  {
    |t1| == |t0| &&
    forall j :: 0 <= j < |t0| ==> t1[j] == t0[j] + if OnRoute(j, idx, i, lo, hi) then extra else 0
  }

  /** The walk of `addOn` at an inner node on the route: adding the extra
      at i and then walking both children adds it along the whole route. */
  lemma AddOnJoin(t0: seq<int>, t1: seq<int>, t2: seq<int>, t3: seq<int>, idx: int, i: int, lo: int, hi: int, extra: int)
    requires 0 <= i < |t0| && lo <= idx <= hi && lo < hi
    requires t1 == t0[i := AddingOn(t0[i], extra)]
    requires Routed(t1, t2, idx, 2 * i + 1, lo, Mid(lo, hi), extra)
    requires Routed(t2, t3, idx, 2 * i + 2, Mid(lo, hi) + 1, hi, extra)
    ensures Routed(t0, t3, idx, i, lo, hi, extra)
  {
    forall j | 0 <= j < |t0|
      ensures t3[j] == t0[j] + if OnRoute(j, idx, i, lo, hi) then extra else 0
    {
      RoutesApart(j, idx, i, lo, hi);
    }
  }

  /** The nodes of the subtree at i over [lo, hi] whose range contains idx
      have taken the extra, and its other nodes are as before. */
  ghost predicate RouteAdded(t: seq<int>, t1: seq<int>, i: int, lo: int, hi: int, idx: int, extra: int)
  {
    |t1| == |t| &&
    forall j :: 0 <= j < |t| && InSubtree(j, i, lo, hi) ==> t1[j] == t[j] + if OnRoute(j, idx, i, lo, hi) then extra else 0
  }

  /** What holds of a subtree holds of each child's subtree. */
  lemma RouteAddedChildren(t: seq<int>, t1: seq<int>, i: int, lo: int, hi: int, idx: int, extra: int)
    requires 0 <= i && lo < hi
    requires RouteAdded(t, t1, i, lo, hi, idx, extra)
    ensures RouteAdded(t, t1, 2 * i + 1, lo, Mid(lo, hi), idx, extra)
    ensures RouteAdded(t, t1, 2 * i + 2, Mid(lo, hi) + 1, hi, idx, extra)
  {
    var mid := Mid(lo, hi);
    forall j | 0 <= j < |t| && InSubtree(j, 2 * i + 1, lo, mid)
      ensures t1[j] == t[j] + if OnRoute(j, idx, 2 * i + 1, lo, mid) then extra else 0
    {
      ChildrenApart(j, i, lo, hi);
      RoutesApart(j, idx, i, lo, hi);
      if OnRoute(j, idx, 2 * i + 2, mid + 1, hi) {
        RouteInSubtree(j, idx, 2 * i + 2, mid + 1, hi);
      }
    }
    forall j | 0 <= j < |t| && InSubtree(j, 2 * i + 2, mid + 1, hi)
      ensures t1[j] == t[j] + if OnRoute(j, idx, 2 * i + 2, mid + 1, hi) then extra else 0
    {
      ChildrenApart(j, i, lo, hi);
      RoutesApart(j, idx, i, lo, hi);
      if OnRoute(j, idx, 2 * i + 1, lo, mid) {
        RouteInSubtree(j, idx, 2 * i + 1, lo, mid);
      }
    }
  }

  /** Adding the extra to every node whose range contains idx lays out
      the elements with the extra added at idx. */
  lemma {:induction false} RouteUpdate(t: seq<int>, t1: seq<int>, e: seq<int>, i: int, lo: int, hi: int, idx: int, extra: int)
    requires Holds(t, e, i, lo, hi) && 0 <= i && 0 <= idx < |e|
    requires RouteAdded(t, t1, i, lo, hi, idx, extra)
    ensures Holds(t1, e[idx := AddingOn(e[idx], extra)], i, lo, hi)
    decreases hi - lo
  {
    assert InSubtree(i, i, lo, hi);
    SumUpdate(e, idx, AddingOn(e[idx], extra), lo, hi + 1);
    if lo < hi {
      RouteAddedChildren(t, t1, i, lo, hi, idx, extra);
      RouteUpdate(t, t1, e, 2 * i + 1, lo, Mid(lo, hi), idx, extra);
      RouteUpdate(t, t1, e, 2 * i + 2, Mid(lo, hi) + 1, hi, idx, extra);
    }
  }

  /** t1 differs from t0 only at nodes of the subtree at i over [lo, hi]. */
  ghost predicate Framed(t0: seq<int>, t1: seq<int>, i: int, lo: int, hi: int)
  {
    |t1| == |t0| &&
    forall j :: 0 <= j < |t0| && !InSubtree(j, i, lo, hi) ==> t1[j] == t0[j]
  }

  /** What `populateTree` at node i over [lo, hi] achieves: it returns
      the sum r of the covered elements, lays out the subtree in t1, and
      writes no node outside it. */
  ghost predicate Populated(t0: seq<int>, t1: seq<int>, e: seq<int>, i: int, lo: int, hi: int, r: int)
  {
    0 <= lo <= hi < |e| &&
    r == Sum(e[lo..hi + 1]) &&
    Holds(t1, e, i, lo, hi) &&
    Framed(t0, t1, i, lo, hi)
  }

  /** The last step of `populateTree` at an inner node: with both halves
      laid out, each by a walk that wrote only its own subtree, storing the
      sum of the halves at i lays out the whole subtree. */
  lemma PopulateJoin(t0: seq<int>, t1: seq<int>, t2: seq<int>, t3: seq<int>, e: seq<int>, i: int, lo: int, hi: int, lhs: int, rhs: int)
    requires 0 <= i < |t2| && lo < hi
    requires Populated(t0, t1, e, 2 * i + 1, lo, Mid(lo, hi), lhs)
    requires Populated(t1, t2, e, 2 * i + 2, Mid(lo, hi) + 1, hi, rhs)
    requires t3 == t2[i := AddingOn(lhs, rhs)]
    ensures Populated(t0, t3, e, i, lo, hi, AddingOn(lhs, rhs))
  {
    var mid := Mid(lo, hi);
    SumSplit(e, lo, mid + 1, hi + 1);
    forall j | 0 <= j < |t3| && InSubtree(j, 2 * i + 1, lo, mid)
      ensures t3[j] == t1[j]
    {
      ChildrenApart(j, i, lo, hi);
    }
    HoldsFrame(t1, t3, e, 2 * i + 1, lo, mid);
    forall j | 0 <= j < |t3| && InSubtree(j, 2 * i + 2, mid + 1, hi)
      ensures t3[j] == t2[j]
    {
      ChildrenApart(j, i, lo, hi);
    }
    HoldsFrame(t2, t3, e, 2 * i + 2, mid + 1, hi);
  }

  class RecursiveSegmentTree {
    const size: int
    var tree: seq<int>
    ghost var elements: seq<int>

    ghost predicate Valid()
      reads this
    {
      size == |elements| &&
      |tree| == TreeLength(size) &&
      (size > 0 ==> Fits(|tree|, 0, 0, size - 1) && Holds(tree, elements, 0, 0, size - 1))
    }

    /** `init(size:)`: `size` neutral elements. */
    constructor BySize(size: int)
      requires size >= 0
      ensures Valid()
      ensures elements == seq(size, _ => NeutralElement())
      ensures tree == seq(TreeLength(size), _ => NeutralElement())
    {
      this.size := size;
      tree := seq(TreeLength(size), _ => NeutralElement());
      elements := seq(size, _ => NeutralElement());
      new;
      if size > 0 {
        HoldsZero(tree, elements, 0, 0, size - 1);
      }
    }

    /** `init(_:)`: the tree of `init(size:)`, then `populateTree` over
        all the elements unless there are none. */
    constructor (es: seq<int>)
      ensures Valid()
      ensures elements == es
    {
      size := |es|;
      var n := TreeLength(|es|);
      tree := seq(n, _ => NeutralElement());
      elements := es;
      new;
      if |es| > 0 {
        assert Fits(n, 0, 0, |es| - 1);
        var _ := PopulateTree(es, 0, 0, |es| - 1);
      }
    }

    /** `populateTree`: the walk whose edge-case handler stores each
        element in its leaf and whose recursion handler stores the sum of
        the two halves in their parent.  It returns the sum of the covered
        elements, lays out the subtree, and writes no node outside it. */
    method PopulateTree(es: seq<int>, i: int, lo: int, hi: int) returns (r: int)
      requires Fits(|tree|, i, lo, hi) && hi < |es|
      modifies this
      ensures Populated(old(tree), tree, es, i, lo, hi, r)
      ensures unchanged(this`elements)
      decreases hi - lo
    {
      if hi - lo + 1 == 1 {
        var element := es[lo];
        tree := tree[i := element];
        SumSingleton(es, lo);
        return element;
      }
      var mid := Mid(lo, hi);
      ghost var t0 := tree;
      var lhs := PopulateTree(es, 2 * i + 1, lo, mid);
      ghost var t1 := tree;
      var rhs := PopulateTree(es, 2 * i + 2, mid + 1, hi);
      ghost var t2 := tree;
      r := AddingOn(lhs, rhs);
      tree := tree[i := r];
      PopulateJoin(t0, t1, t2, tree, es, i, lo, hi, lhs, rhs);
    }

    /** The walk of `addOn`: at every node whose range contains idx, add
        the extra, then stop at a leaf or drill down.  Exactly the nodes of
        the subtree whose range contains idx change, each by the extra. */
    method AddOnTraverse(extra: int, idx: int, i: int, lo: int, hi: int)
      requires Fits(|tree|, i, lo, hi)
      modifies this
      ensures Routed(old(tree), tree, idx, i, lo, hi, extra)
      ensures unchanged(this`elements)
      decreases hi - lo
    {
      if !(lo <= idx <= hi) {
        return;
      }
      ghost var t0 := tree;
      tree := tree[i := IntGroup.AddOn(tree[i], extra)];
      if hi - lo + 1 == 1 {
        return;
      }
      var mid := Mid(lo, hi);
      ghost var t1 := tree;
      AddOnTraverse(extra, idx, 2 * i + 1, lo, mid);
      ghost var t2 := tree;
      AddOnTraverse(extra, idx, 2 * i + 2, mid + 1, hi);
      AddOnJoin(t0, t1, t2, tree, idx, i, lo, hi, extra);
    }

    /** `addOn(_:at:)`: adds the extra to element idx. */
    method AddOn(extra: int, idx: int)
      requires Valid()
      requires 0 <= idx < size
      modifies this
      ensures Valid()
      ensures elements == old(elements)[idx := AddingOn(old(elements)[idx], extra)]
      ensures Routed(old(tree), tree, idx, 0, 0, size - 1, extra)
    {
      AddOnTraverse(extra, idx, 0, 0, size - 1);
      assert RouteAdded(old(tree), tree, 0, 0, size - 1, idx, extra);
      RouteUpdate(old(tree), tree, elements, 0, 0, size - 1, idx, extra);
      elements := elements[idx := AddingOn(elements[idx], extra)];
    }

    /** `rangeQuery(in:)` over the closed range [qlo, qhi].  The range must
        not be empty and must start inside the tree; an upper bound equal to
        size is accepted and clipped to size - 1. */
    function RangeQuery(qlo: int, qhi: int): (r: int)
      requires Valid()
      requires 0 <= qlo <= qhi <= size && qlo < size
      reads this
      ensures r == Sum(elements[qlo..Min(qhi, size - 1) + 1])
    {
      QueryTraverse(tree, elements, 0, 0, size - 1, qlo, qhi);
      Traverse(tree, RangeVisitor(qlo, qhi), 0, 0, size - 1).value
    }

    /** The subscript getter: the walk down to the leaf [idx, idx]. */
    function Get(idx: int): (r: int)
      requires Valid()
      requires 0 <= idx < size
      reads this
      ensures r == elements[idx]
    {
      ElementTraverse(tree, elements, 0, 0, size - 1, idx);
      Traverse(tree, ElementVisitor(idx), 0, 0, size - 1).value
    }

    /** The subscript setter: adds the difference between the new and the
        current value. */
    method Set(idx: int, newValue: int)
      requires Valid()
      requires 0 <= idx < size
      modifies this
      ensures Valid()
      ensures elements == old(elements)[idx := newValue]
    {
      var extra := Excluding(newValue, Get(idx));
      AddOn(extra, idx);
    }
  }
}
