/** `SparseTable`: a static table of the aggregates of every power-of-two
    window, built once at initialisation, and a query strategy configured
    with it.  The strategy the caller chooses is one of the two query
    strategies over an aggregate; with no elements the table stays empty
    and the strategy is never configured. */
module SparseTables {
  import opened Optional
  import opened Bits
  import opened SparseAggregate
  import opened SparseWindows
  import opened SparseCascade
  import opened SparseMinMax
  import opened FloorLog2Table

  /** The strategy handed to `init(elements:strategy:)`, before
      configuration. */
  datatype StrategyKind = CascadeQuery(agg: Aggregate) | MinMaxQuery(agg: Aggregate)
  {
    /** `SparseTableQueryMinMax` takes only a min/max aggregate. */
    predicate Allowed()
    {
      MinMaxQuery? ==> agg.IsMinMax()
    }
  }

  /** A configured strategy. */
  datatype Strategy = Cascade(cascade: SparseTableQueryCascade) | MinMax(minMax: SparseTableQueryMinMax)

  /** What `rangeQuery(in:)` answers: the cascade's folded value, or the
      min/max strategy's extremum with its position. */
  datatype Answer = Folded(value: int) | Found(located: Located)

  /** The state of `populateTable` at row i of level: the levels below and
      the rows of this level before i are filled in, the rest is `nil`. */
  ghost predicate Filling(a: Aggregate, e: seq<int>, t: seq<seq<Option<int>>>, depth: int, level: nat, i: int)
  {
    |t| == |e| &&
    (forall r :: 0 <= r < |t| ==> |t[r]| == depth) &&
    (forall r, c: nat :: 0 <= r < |t| && c < depth && (c < level || (c == level && r < i)) ==> t[r][c] == Entry(a, e, r, c)) &&
    (forall r, c: nat :: 0 <= r < |t| && c < depth && !(c < level || (c == level && r < i)) ==> t[r][c].None?)
  }

  lemma FillStart(a: Aggregate, e: seq<int>, depth: int)
    requires depth >= 1
    ensures Filling(a, e, seq(|e|, _ => seq(depth, _ => None)), depth, 0, 0)
  {
  }

  lemma FillStep(a: Aggregate, e: seq<int>, t: seq<seq<Option<int>>>, depth: int, level: nat, i: int, v: Option<int>)
    requires Filling(a, e, t, depth, level, i)
    requires 0 <= i < |e| && level < depth
    requires v == Entry(a, e, i, level)
    ensures Filling(a, e, t[i := t[i][level := v]], depth, level, i + 1)
  {
  }

  /** A level is complete once every window that fits has been written:
      the windows from the remaining rows do not fit. */
  lemma LevelDone(a: Aggregate, e: seq<int>, t: seq<seq<Option<int>>>, depth: int, level: nat, i: int)
    requires Filling(a, e, t, depth, level, i)
    requires 0 <= i && |e| < i + Pow2(level)
    ensures Filling(a, e, t, depth, level + 1, 0)
  {
  }

  lemma FillEnd(a: Aggregate, e: seq<int>, t: seq<seq<Option<int>>>, depth: nat)
    requires Filling(a, e, t, depth, depth, 0)
    ensures IsSparseTable(a, e, t, depth)
  {
  }

  /** The entry at row i of level (at least 1), from the two entries of the
      level below. */
  lemma FillValue(a: Aggregate, e: seq<int>, t: seq<seq<Option<int>>>, depth: int, level: nat, i: int)
    requires Filling(a, e, t, depth, level, i)
    requires 1 <= level < depth && 0 <= i && i + Pow2(level) <= |e|
    ensures t[i][level - 1].Some? && t[i + Pow2(level - 1)][level - 1].Some?
    ensures Entry(a, e, i, level) == Some(Combine(a, t[i][level - 1].value, t[i + Pow2(level - 1)][level - 1].value))
  {
    EntryFromHalves(a, e, i, level);
    assert t[i][level - 1] == Entry(a, e, i, level - 1);
    assert t[i + Pow2(level - 1)][level - 1] == Entry(a, e, i + Pow2(level - 1), level - 1);
  }

  class SparseTable {
    const floorLog2: seq<int>
    const table: seq<seq<Option<int>>>
    const depth: int
    const strategy: Option<Strategy>
    const kind: StrategyKind
    ghost const elements: seq<int>

    ghost predicate Valid()
      reads if strategy.Some? && strategy.value.Cascade? then {strategy.value.cascade} else {}
      reads if strategy.Some? && strategy.value.MinMax? then {strategy.value.minMax} else {}
    {
      kind.Allowed() &&
      IsFloorLog2(floorLog2, |elements|) &&
      IsDepth(depth, |elements|) &&
      IsSparseTable(kind.agg, elements, table, depth) &&
      (strategy.Some? <==> |elements| > 0) &&
      (strategy.Some? ==> match strategy.value
        case Cascade(c) => kind.CascadeQuery? && c.aggregate == kind.agg && c.elements == elements && c.Valid()
        case MinMax(m) => kind.MinMaxQuery? && m.aggregate == kind.agg && m.elements == elements && m.Valid())
    }

    /** `init(elements:strategy:)`: the lookup table of floor(log2 i) up to
        n, depth = floor(log2 n) + 1, then, unless there are no elements,
        the table and the strategy configured with it. */
    constructor (elements: seq<int>, kind: StrategyKind)
      requires kind.Allowed()
      ensures Valid()
      ensures this.elements == elements && this.kind == kind
      ensures |elements| == 0 ==> table == [] && strategy == None
    {
      var n := |elements|;
      var f := PrecomputeFloorLog2(n);
      DepthFromTable(f, n);
      var d := f[n] + 1;
      var t: seq<seq<Option<int>>> := [];
      var s: Option<Strategy> := None;
      if n > 0 {
        t := PopulateTable(kind.agg, elements, d);
        if kind.CascadeQuery? {
          var c := new SparseTableQueryCascade.Config(kind.agg, t, d, f, elements);
          s := Some(Cascade(c));
        } else {
          var m := new SparseTableQueryMinMax.Config(kind.agg, t, d, f, elements);
          s := Some(MinMax(m));
        }
      }
      this.floorLog2 := f;
      this.depth := d;
      this.table := t;
      this.strategy := s;
      this.kind := kind;
      this.elements := elements;
    }

    /** `populateTable(_:)`: starts from a table of `nil`, writes each
        element into column 0, then fills each later column from the one
        before it, for every row whose window fits. */
    static method PopulateTable(a: Aggregate, elements: seq<int>, depth: int) returns (table: seq<seq<Option<int>>>)
      requires IsDepth(depth, |elements|)
      ensures IsSparseTable(a, elements, table, depth)
    {
      var n := |elements|;
      table := seq(n, _ => seq(depth, _ => None));
      FillStart(a, elements, depth);
      var i := 0;
      while i < n
        invariant 0 <= i <= n
        invariant Filling(a, elements, table, depth, 0, i)
      {
        EntryOfOne(a, elements, i);
        FillStep(a, elements, table, depth, 0, i, Some(elements[i]));
        table := table[i := table[i][0 := Some(elements[i])]];
        i := i + 1;
      }
      LevelDone(a, elements, table, depth, 0, i);
      var level := 1;
      while level < depth
        invariant 1 <= level <= depth
        invariant Filling(a, elements, table, depth, level, 0)
      {
        var len := Pow2(level);
        Pow2Monotone(level, depth - 1);
        i := 0;
        while i < n - len + 1
          invariant 0 <= i <= n - len + 1
          invariant Filling(a, elements, table, depth, level, i)
        {
          var len2 := Pow2(level - 1);
          FillValue(a, elements, table, depth, level, i);
          var v := Some(Combine(a, table[i][level - 1].value, table[i + len2][level - 1].value));
          FillStep(a, elements, table, depth, level, i, v);
          table := table[i := table[i][level := v]];
          i := i + 1;
        }
        LevelDone(a, elements, table, depth, level, i);
        level := level + 1;
      }
      FillEnd(a, elements, table, depth);
    }

    /** `rangeQuery(in:)`: hands the half-open [lo, hi) to the configured
        strategy unchanged.  Without elements there is no configured
        strategy to ask. */
    method RangeQuery(lo: int, hi: int) returns (r: Option<Answer>)
      requires Valid()
      requires |elements| > 0 && 0 <= lo <= hi <= |elements|
      requires kind.MinMaxQuery? ==> lo < hi || 1 <= lo < |elements|
      ensures kind.CascadeQuery? ==> r == Some(Folded(Fold(kind.agg, elements[lo..hi])))
      ensures kind.MinMaxQuery? && lo < hi ==>
        r.Some? && r.value.Found? &&
        r.value.located.element == Reduce(kind.agg, elements[lo..hi]) &&
        IsWitness(kind.agg, elements, lo, hi, r.value.located.index)
    ensures kind.MinMaxQuery? && lo == hi ==> r == Some(Found(
      var (x, y) := (elements[lo], elements[lo - 1]);
      Located(Combine(kind.agg, x, y), if Qualify(kind.agg, x, y) || x == y then lo else lo - 1)))
    {
      match strategy.value
      case Cascade(c) =>
        var v := c.RangeQuery(lo, hi);
        r := Some(Folded(v.value));
      case MinMax(m) =>
        var v := m.RangeQuery(lo, hi);
        r := Some(Found(v.value));
    }
  }
}
