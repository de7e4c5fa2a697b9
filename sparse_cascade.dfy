/** `SparseTableQueryCascade`: answers a range query with any associative
    aggregate by folding disjoint windows taken greedily from the left, the
    widest that still fits each time. */
module SparseCascade {
  import opened Optional
  import opened Bits
  import opened SparseAggregate
  import opened SparseWindows

  /** The state of the query loop at `lower`: the windows folded so far
      tile [lo, lower), and `level` is the level of the widest window that
      fits into what is left. */
  ghost predicate Cascading(a: Aggregate, e: seq<int>, f: seq<int>, lo: int, hi: int, lower: int, level: int, result: int)
  {
    IsFloorLog2(f, |e|) &&
    0 <= lo <= lower <= hi <= |e| &&
    level == f[hi - lower] &&
    result == Fold(a, e[lo..lower])
  }

  /** One round: the window of 2^level elements at lower fits into
      [lower, hi), lies in the table, and folding it in moves lower past
      it. */
  lemma CascadeStep(a: Aggregate, e: seq<int>, t: seq<seq<Option<int>>>, depth: int, f: seq<int>,
                    lo: int, hi: int, lower: int, level: int, result: int)
    requires IsSparseTable(a, e, t, depth) && IsDepth(depth, |e|)
    requires Cascading(a, e, f, lo, hi, lower, level, result)
    requires lower < hi
    ensures 0 <= level < depth && lower + Pow2(level) <= hi
    ensures t[lower][level] == Some(Reduce(a, e[lower..lower + Pow2(level)]))
    ensures Cascading(a, e, f, lo, hi, lower + Pow2(level), f[hi - lower - Pow2(level)],
                      Combine(a, result, t[lower][level].value))
  {
    LevelBelowDepth(depth, |e|, hi - lower, level);
    FoldStep(a, Initial(a), e, lo, lower, lower + Pow2(level));
  }

  class SparseTableQueryCascade {
    const aggregate: Aggregate
    const table: seq<seq<Option<int>>>
    const depth: int
    const floorLog2: seq<int>
    ghost const elements: seq<int>

    ghost predicate Valid()
    {
      IsSparseTable(aggregate, elements, table, depth) &&
      IsDepth(depth, |elements|) &&
      IsFloorLog2(floorLog2, |elements|)
    }

    /** `config(table:depth:floorLog2:)`: keeps the table as it is given. */
    constructor Config(aggregate: Aggregate, table: seq<seq<Option<int>>>, depth: int, floorLog2: seq<int>, ghost elements: seq<int>)
      requires IsSparseTable(aggregate, elements, table, depth)
      requires IsDepth(depth, |elements|) && IsFloorLog2(floorLog2, |elements|)
      ensures Valid()
      ensures this.aggregate == aggregate && this.table == table && this.depth == depth
      ensures this.floorLog2 == floorLog2 && this.elements == elements
    {
      this.aggregate := aggregate;
      this.table := table;
      this.depth := depth;
      this.floorLog2 := floorLog2;
      this.elements := elements;
    }

    /** `rangeQuery(in:)` over the half-open [lo, hi): the fold, from the
        initial element, of those elements; the initial element itself when
        the range is empty.  It never answers `nil`. */
    method RangeQuery(lo: int, hi: int) returns (r: Option<int>)
      requires Valid()
      requires 0 <= lo <= hi <= |elements|
      ensures r == Some(Fold(aggregate, elements[lo..hi]))
    {
      var upper := hi - 1;
      var lower := lo;
      var result := Initial(aggregate);
      var level := floorLog2[upper - lower + 1];
      assert elements[lo..lo] == [];
      while lower <= upper
        invariant Cascading(aggregate, elements, floorLog2, lo, hi, lower, level, result)
        decreases hi - lower
      {
        CascadeStep(aggregate, elements, table, depth, floorLog2, lo, hi, lower, level, result);
        result := Combine(aggregate, result, table[lower][level].value);
        lower := lower + Pow2(level);
        level := floorLog2[upper - lower + 1];
      }
      return Some(result);
    }
  }
}
