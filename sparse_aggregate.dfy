/** The aggregates a sparse table is built over: `SparseTableSumAggregate`
    (addition from zero, not overlap friendly) and `SparseTableMinAggregate`
    / `SparseTableMaxAggregate` (minimum from `Int.max`, maximum from
    `Int.min`, both overlap friendly, with the strict `qualify` order the
    witness tracking uses).  `Reduce` folds a non-empty run with the
    aggregate alone, the value a table entry holds; `Fold` starts from the
    initial element, the value the cascading query returns. */
module SparseAggregate {

  /** The bounds of Swift's 64-bit `Int`, the `MaxBounded`/`MinBounded`
      constants of the element type. */
  const IntMax: int := 0x7FFF_FFFF_FFFF_FFFF
  const IntMin: int := -0x8000_0000_0000_0000

  predicate IsInt(x: int)
  {
    IntMin <= x <= IntMax
  }

  datatype Aggregate = SumAggregate | MinAggregate | MaxAggregate
  {
    /** The aggregates that conform to `SparseTableMinMaxAggregate`. */
    predicate IsMinMax()
    {
      !SumAggregate?
    }
  }

  /** `aggregate(_:_:)`: `+`, `min` or `max`. */
  function Combine(a: Aggregate, x: int, y: int): (r: int)
    ensures a.IsMinMax() ==> r == x || r == y
  {
    match a
    case SumAggregate => x + y
    case MinAggregate => if y < x then y else x
    case MaxAggregate => if y >= x then y else x
  }

  /** `initialElement`: zero, `Int.max` or `Int.min`. */
  function Initial(a: Aggregate): int
  {
    match a
    case SumAggregate => 0
    case MinAggregate => IntMax
    case MaxAggregate => IntMin
  }

  /** `qualify(_:_:)`: strictly better, `<` for the minimum and `>` for the
      maximum. */
  function Qualify(a: Aggregate, x: int, y: int): bool
    requires a.IsMinMax()
  {
    if a.MinAggregate? then x < y else x > y
  }

  lemma CombineAssociative(a: Aggregate, x: int, y: int, z: int)
    ensures Combine(a, Combine(a, x, y), z) == Combine(a, x, Combine(a, y, z))
  {
  }

  lemma CombineCommutative(a: Aggregate, x: int, y: int)
    ensures Combine(a, x, y) == Combine(a, y, x)
  {
  }

  /** The initial element is a two-sided identity on every `Int`. */
  lemma InitialIsIdentity(a: Aggregate, x: int)
    requires IsInt(x)
    ensures Combine(a, Initial(a), x) == x && Combine(a, x, Initial(a)) == x
  {
  }

  /** Minimum and maximum are idempotent, which is what lets a query
      combine two overlapping windows. */
  lemma MinMaxIdempotent(a: Aggregate, x: int)
    requires a.IsMinMax()
    ensures Combine(a, x, x) == x
  {
  }

  /** Addition is not: a window counted twice would count twice. */
  lemma SumNotIdempotent(x: int)
    ensures Combine(SumAggregate, x, x) == x <==> x == 0
  {
  }

  /** The aggregate keeps the left value exactly when it qualifies or ties,
      the rule the witness tracking copies. */
  lemma QualifyPicks(a: Aggregate, l: int, r: int)
    requires a.IsMinMax()
    ensures Combine(a, l, r) == if Qualify(a, l, r) || l == r then l else r
  {
  }

  // ---------------------------------------------------------------------
  // Folds

  /** The aggregate of a non-empty run, folded from the left. */
  function Reduce(a: Aggregate, s: seq<int>): int
    requires |s| >= 1
  {
    if |s| == 1 then s[0] else Combine(a, Reduce(a, s[..|s| - 1]), s[|s| - 1])
  }

  /** The left fold of the aggregate over s, starting from x. */
  function FoldFrom(a: Aggregate, x: int, s: seq<int>): int
  {
    if |s| == 0 then x else Combine(a, FoldFrom(a, x, s[..|s| - 1]), s[|s| - 1])
  }

  /** The fold from the initial element. */
  function Fold(a: Aggregate, s: seq<int>): int
  {
    FoldFrom(a, Initial(a), s)
  }

  lemma {:induction false} FoldFromConcat(a: Aggregate, x: int, s: seq<int>, t: seq<int>)
    ensures FoldFrom(a, x, s + t) == FoldFrom(a, FoldFrom(a, x, s), t)
    decreases |t|
  {
    if |t| == 0 {
      assert s + t == s;
    } else {
      assert (s + t)[..|s + t| - 1] == s + t[..|t| - 1];
      FoldFromConcat(a, x, s, t[..|t| - 1]);
    }
  }

  /** Folding a non-empty run into x is combining x with the run's
      aggregate. */
  lemma {:induction false} FoldFromReduce(a: Aggregate, x: int, t: seq<int>)
    requires |t| >= 1
    ensures FoldFrom(a, x, t) == Combine(a, x, Reduce(a, t))
    decreases |t|
  {
    if |t| == 1 {
      assert t[..0] == [];
    } else {
      FoldFromReduce(a, x, t[..|t| - 1]);
      CombineAssociative(a, x, Reduce(a, t[..|t| - 1]), t[|t| - 1]);
    }
  }

  lemma {:induction false} ReduceAsFold(a: Aggregate, s: seq<int>)
    requires |s| >= 1
    ensures Reduce(a, s) == FoldFrom(a, s[0], s[1..])
    decreases |s|
  {
    if |s| == 1 {
      assert s[1..] == [];
    } else {
      ReduceAsFold(a, s[..|s| - 1]);
      assert s[..|s| - 1][1..] == s[1..][..|s[1..]| - 1];
    }
  }

  /** The aggregate of two adjacent runs is the aggregate of their
      aggregates: a table entry is built from the two entries below it. */
  lemma ReduceConcat(a: Aggregate, s: seq<int>, t: seq<int>)
    requires |s| >= 1 && |t| >= 1
    ensures Reduce(a, s + t) == Combine(a, Reduce(a, s), Reduce(a, t))
  {
    calc {
      Reduce(a, s + t);
    == { ReduceAsFold(a, s + t); assert (s + t)[1..] == s[1..] + t; }
      FoldFrom(a, s[0], s[1..] + t);
    == { FoldFromConcat(a, s[0], s[1..], t); ReduceAsFold(a, s); }
      FoldFrom(a, Reduce(a, s), t);
    == { FoldFromReduce(a, Reduce(a, s), t); }
      Combine(a, Reduce(a, s), Reduce(a, t));
    }
  }

  /** Extending a fold by one run. */
  lemma FoldStep(a: Aggregate, x: int, e: seq<int>, lo: int, mid: int, hi: int)
    requires 0 <= lo <= mid < hi <= |e|
    ensures FoldFrom(a, x, e[lo..hi]) == Combine(a, FoldFrom(a, x, e[lo..mid]), Reduce(a, e[mid..hi]))
  {
    assert e[lo..hi] == e[lo..mid] + e[mid..hi];
    FoldFromConcat(a, x, e[lo..mid], e[mid..hi]);
    FoldFromReduce(a, FoldFrom(a, x, e[lo..mid]), e[mid..hi]);
  }

  // ---------------------------------------------------------------------
  // Extrema

  /** v occurs in s and combining it with any element of s gives v back:
      v is the minimum (maximum) of s. */
  ghost predicate IsExtremum(a: Aggregate, v: int, s: seq<int>)
  {
    v in s && forall k :: 0 <= k < |s| ==> Combine(a, v, s[k]) == v
  }

  /** For minimum and maximum, the aggregate of a run is its extremum. */
  lemma {:induction false} ReduceIsExtremum(a: Aggregate, s: seq<int>)
    requires a.IsMinMax() && |s| >= 1
    ensures IsExtremum(a, Reduce(a, s), s)
    decreases |s|
  {
    if |s| > 1 {
      var init := s[..|s| - 1];
      ReduceIsExtremum(a, init);
      forall k | 0 <= k < |s|
        ensures Combine(a, Reduce(a, s), s[k]) == Reduce(a, s)
      {
        if k < |s| - 1 {
          assert s[k] == init[k];
        }
      }
      assert Reduce(a, init) in init;
    }
  }

  /** The extremum is unique, so it is the aggregate. */
  lemma ExtremumIsReduce(a: Aggregate, v: int, s: seq<int>)
    requires a.IsMinMax() && |s| >= 1
    requires IsExtremum(a, v, s)
    ensures v == Reduce(a, s)
  {
    var r := Reduce(a, s);
    ReduceIsExtremum(a, s);
    var i :| 0 <= i < |s| && s[i] == r;
    var j :| 0 <= j < |s| && s[j] == v;
    CombineCommutative(a, v, r);
  }

  /** A fold from the initial element equals the plain aggregate on a run
      of `Int`s. */
  lemma FoldIsReduce(a: Aggregate, s: seq<int>)
    requires |s| >= 1
    requires forall k :: 0 <= k < |s| ==> IsInt(s[k])
    ensures Fold(a, s) == Reduce(a, s)
  {
    FoldFromReduce(a, Initial(a), s);
    if a.IsMinMax() {
      ReduceIsExtremum(a, s);
      var i :| 0 <= i < |s| && s[i] == Reduce(a, s);
      InitialIsIdentity(a, s[i]);
    }
  }
}
