/** `SparseTableQueryMinMax`: answers a range query with the minimum or
    maximum in constant time, from the two windows of the widest level that
    start at the lower bound and end at the upper bound; they overlap, which
    is harmless because the aggregate is idempotent.  Beside the table it
    keeps a table of witnesses: the leftmost position of each window's
    extremum, so a query also answers where the extremum first occurs. */
module SparseMinMax {
  import opened Optional
  import opened Bits
  import opened SparseAggregate
  import opened SparseWindows

  /** The result of a query: the extremum and its position. */
  datatype Located = Located(element: int, index: int)

  /** v occurs in e[lo..hi] and combining it with any of those elements
      gives v back. */
  ghost predicate ExtremeIn(a: Aggregate, e: seq<int>, lo: int, hi: int, v: int)
    requires 0 <= lo <= hi <= |e|
  {
    (exists k :: lo <= k < hi && e[k] == v) &&
    forall k :: lo <= k < hi ==> Combine(a, v, e[k]) == v
  }

  lemma ReduceExtremeIn(a: Aggregate, e: seq<int>, lo: int, hi: int)
    requires a.IsMinMax() && 0 <= lo < hi <= |e|
    ensures ExtremeIn(a, e, lo, hi, Reduce(a, e[lo..hi]))
  {
    var s := e[lo..hi];
    ReduceIsExtremum(a, s);
    var k :| 0 <= k < |s| && s[k] == Reduce(a, s);
    assert e[lo + k] == s[k];
    forall j | lo <= j < hi
      ensures Combine(a, Reduce(a, s), e[j]) == Reduce(a, s)
    {
      assert e[j] == s[j - lo];
    }
  }

  lemma ExtremeInIsReduce(a: Aggregate, e: seq<int>, lo: int, hi: int, v: int)
    requires a.IsMinMax() && 0 <= lo < hi <= |e|
    requires ExtremeIn(a, e, lo, hi, v)
    ensures v == Reduce(a, e[lo..hi])
  {
    var s := e[lo..hi];
    var k :| lo <= k < hi && e[k] == v;
    assert s[k - lo] == v;
    forall j | 0 <= j < |s|
      ensures Combine(a, v, s[j]) == v
    {
      assert s[j] == e[lo + j];
    }
    ExtremumIsReduce(a, v, s);
  }

  /** k is the leftmost position of the extremum of e[lo..hi]. */
  ghost predicate IsWitness(a: Aggregate, e: seq<int>, lo: int, hi: int, k: int)
    requires 0 <= lo < hi <= |e|
  {
    lo <= k < hi &&
    e[k] == Reduce(a, e[lo..hi]) &&
    forall j :: lo <= j < k ==> e[j] != e[k]
  }

  /** Two windows [lo, b) and [c, hi) that together cover [lo, hi),
      overlapping or not: combining their extrema gives the extremum of the
      whole, and keeping the left witness when the left extremum qualifies
      or ties, the right one otherwise, gives its leftmost position. */
  lemma WitnessJoin(a: Aggregate, e: seq<int>, lo: int, b: int, c: int, hi: int, kl: int, kr: int)
    requires a.IsMinMax()
    requires 0 <= lo <= c <= b <= hi <= |e| && lo < b && c < hi
    requires IsWitness(a, e, lo, b, kl) && IsWitness(a, e, c, hi, kr)
    ensures Combine(a, e[kl], e[kr]) == Reduce(a, e[lo..hi])
    ensures IsWitness(a, e, lo, hi, if Qualify(a, e[kl], e[kr]) || e[kl] == e[kr] then kl else kr)
  {
    var l := e[kl];
    var r := e[kr];
    ReduceExtremeIn(a, e, lo, b);
    ReduceExtremeIn(a, e, c, hi);
    QualifyPicks(a, l, r);
    var m := Combine(a, l, r);
    forall k | lo <= k < hi
      ensures Combine(a, m, e[k]) == m
    {
      if k < b {
        CombineAssociative(a, l, r, e[k]);
        CombineCommutative(a, r, e[k]);
        CombineAssociative(a, l, e[k], r);
      } else {
        CombineAssociative(a, l, r, e[k]);
      }
    }
    if m == l {
      assert lo <= kl < hi && e[kl] == m;
    } else {
      assert lo <= kr < hi && e[kr] == m;
    }
    assert ExtremeIn(a, e, lo, hi, m);
    ExtremeInIsReduce(a, e, lo, hi, m);
    if !(Qualify(a, l, r) || l == r) {
      forall j | lo <= j < kr
        ensures e[j] != e[kr]
      {
        if j < c {
          assert Combine(a, l, e[j]) == l;
        }
      }
    }
  }

  /** Entry [i][l] of the witness table: the leftmost position of the
      extremum of the window of 2^l elements at i when it fits, `nil`
      otherwise. */
  ghost predicate WitnessEntry(a: Aggregate, e: seq<int>, i: int, l: nat, w: Option<int>)
    requires 0 <= i
  {
    if i + Pow2(l) <= |e| then w.Some? && IsWitness(a, e, i, i + Pow2(l), w.value) else w.None?
  }

  ghost predicate IsIndexTable(a: Aggregate, e: seq<int>, it: seq<seq<Option<int>>>, depth: int)
  {
    |it| == |e| &&
    (forall i :: 0 <= i < |it| ==> |it[i]| == depth) &&
    (forall i, l: nat :: 0 <= i < |it| && l < depth ==> WitnessEntry(a, e, i, l, it[i][l]))
  }

  /** The state of `populateIndexTable` at row i of level: the levels below
      and the rows of this level before i are filled in, the rest is
      `nil`. */
  ghost predicate IndexFilling(a: Aggregate, e: seq<int>, it: seq<seq<Option<int>>>, depth: int, level: nat, i: int)
  {
    |it| == |e| &&
    (forall r :: 0 <= r < |it| ==> |it[r]| == depth) &&
    (forall r, c: nat :: 0 <= r < |it| && c < depth && (c < level || (c == level && r < i)) ==> WitnessEntry(a, e, r, c, it[r][c])) &&
    (forall r, c: nat :: 0 <= r < |it| && c < depth && !(c < level || (c == level && r < i)) ==> it[r][c].None?)
  }

  lemma IndexFillStart(a: Aggregate, e: seq<int>, depth: int)
    requires depth >= 1
    ensures IndexFilling(a, e, seq(|e|, _ => seq(depth, _ => None)), depth, 0, 0)
  {
  }

  lemma IndexFillStep(a: Aggregate, e: seq<int>, it: seq<seq<Option<int>>>, depth: int, level: nat, i: int, w: Option<int>)
    requires IndexFilling(a, e, it, depth, level, i)
    requires 0 <= i < |e| && level < depth
    requires WitnessEntry(a, e, i, level, w)
    ensures IndexFilling(a, e, it[i := it[i][level := w]], depth, level, i + 1)
  {
  }

  /** What building entry [i][level] of the index table reads from the
      sparse table: the aggregates of the two windows of the level below
      that make up its window. */
  ghost predicate TableHalves(a: Aggregate, e: seq<int>, t: seq<seq<Option<int>>>, level: nat, i: int)
  {
    1 <= level && 0 <= i && i + Pow2(level) <= |e| && |t| == |e| &&
    Pow2(level) == 2 * Pow2(level - 1) &&
    level - 1 < |t[i]| && level - 1 < |t[i + Pow2(level - 1)]| &&
    t[i][level - 1] == Entry(a, e, i, level - 1) &&
    t[i + Pow2(level - 1)][level - 1] == Entry(a, e, i + Pow2(level - 1), level - 1)
  }

  /** Entry [r][c] of the index table is the witness of its window. */
  ghost predicate WitnessOf(a: Aggregate, e: seq<int>, it: seq<seq<Option<int>>>, r: int, c: nat)
  {
    0 <= r < |it| && c < |it[r]| && r + Pow2(c) <= |e| &&
    it[r][c].Some? && IsWitness(a, e, r, r + Pow2(c), it[r][c].value)
  }

  lemma TableBelow(a: Aggregate, e: seq<int>, t: seq<seq<Option<int>>>, depth: int, level: nat, i: int)
    requires IsSparseTable(a, e, t, depth)
    requires 1 <= level < depth && 0 <= i && i + Pow2(level) <= |e|
    ensures TableHalves(a, e, t, level, i)
  {
    var h := Pow2(level - 1);
    assert Pow2(level) == 2 * h;
    assert t[i][level - 1] == Entry(a, e, i, level - 1);
    assert t[i + h][level - 1] == Entry(a, e, i + h, level - 1);
  }

  /** An entry already written holds the witness of its window. */
  lemma WitnessAt(a: Aggregate, e: seq<int>, it: seq<seq<Option<int>>>, depth: int, level: nat, i: int, r: int, c: nat)
    requires IndexFilling(a, e, it, depth, level, i)
    requires c < level < depth && 0 <= r && r + Pow2(c) <= |e|
    ensures WitnessOf(a, e, it, r, c)
  {
    assert WitnessEntry(a, e, r, c, it[r][c]);
  }

  /** A level is complete once every window that fits has been written:
      the windows from the remaining rows do not fit. */
  lemma IndexLevelDone(a: Aggregate, e: seq<int>, it: seq<seq<Option<int>>>, depth: int, level: nat, i: int)
    requires IndexFilling(a, e, it, depth, level, i)
    requires 0 <= i && |e| < i + Pow2(level)
    ensures IndexFilling(a, e, it, depth, level + 1, 0)
  {
    forall r: int, c: nat | 0 <= r < |it| && c == level && c < depth && i <= r
      ensures WitnessEntry(a, e, r, c, it[r][c])
    {
    }
  }

  lemma IndexFillEnd(a: Aggregate, e: seq<int>, it: seq<seq<Option<int>>>, depth: nat)
    requires IndexFilling(a, e, it, depth, depth, 0)
    ensures IsIndexTable(a, e, it, depth)
  {
  }

  /** The two windows a query reads, of the widest level that fits the
      range, one starting at lo and one ending at hi: both lie in the
      tables, and between them they give the extremum of the range and its
      leftmost position.  For an empty range [lo, lo) the level is 0 and
      the windows are the single elements at lo and lo - 1. */
  /** A window that fits has its aggregate in the sparse table and its
      witness in the index table. */
  lemma Cell(a: Aggregate, e: seq<int>, t: seq<seq<Option<int>>>, it: seq<seq<Option<int>>>, depth: int, r: int, l: nat)
    requires IsSparseTable(a, e, t, depth) && IsIndexTable(a, e, it, depth)
    requires 0 <= r && l < depth && r + Pow2(l) <= |e|
    ensures l < |t[r]| && t[r][l] == Some(Reduce(a, e[r..r + Pow2(l)]))
    ensures WitnessOf(a, e, it, r, l)
  {
    assert t[r][l] == Entry(a, e, r, l);
    assert WitnessEntry(a, e, r, l, it[r][l]);
  }

  lemma QueryWindows(a: Aggregate, e: seq<int>, t: seq<seq<Option<int>>>, it: seq<seq<Option<int>>>,
                     depth: int, f: seq<int>, lo: int, hi: int, level: nat, c: int)
    requires a.IsMinMax()
    requires IsSparseTable(a, e, t, depth) && IsIndexTable(a, e, it, depth)
    requires IsDepth(depth, |e|) && IsFloorLog2(f, |e|)
    requires 0 <= lo <= hi <= |e| && (lo < hi || 1 <= lo < |e|)
    requires level == f[hi - lo] && c == hi - Pow2(level)
    ensures level < depth && 0 <= c && lo < |e|
    ensures t[lo][level].Some? && t[c][level].Some? && it[lo][level].Some? && it[c][level].Some?
    ensures var (x, y) := (t[lo][level].value, t[c][level].value);
            var k := if Qualify(a, x, y) || x == y then it[lo][level].value else it[c][level].value;
            if lo < hi then Combine(a, x, y) == Reduce(a, e[lo..hi]) && IsWitness(a, e, lo, hi, k)
            else x == e[lo] && y == e[lo - 1] && k == (if Qualify(a, x, y) || x == y then lo else lo - 1)
  {
    var len := Pow2(level);
    if lo < hi {
      LevelBelowDepth(depth, |e|, hi - lo, level);
      assert c < lo + len by {
        Pow2Succ(level);
      }
    }
    Cell(a, e, t, it, depth, lo, level);
    Cell(a, e, t, it, depth, c, level);
    if lo < hi {
      WitnessJoin(a, e, lo, lo + len, c, hi, it[lo][level].value, it[c][level].value);
    } else {
      assert e[lo..lo + 1] == [e[lo]];
      assert e[lo - 1..lo] == [e[lo - 1]];
    }
  }

  class SparseTableQueryMinMax {
    const aggregate: Aggregate
    const table: seq<seq<Option<int>>>
    const depth: int
    const floorLog2: seq<int>
    const indexTable: seq<seq<Option<int>>>
    ghost const elements: seq<int>

    ghost predicate Valid()
    {
      aggregate.IsMinMax() &&
      IsSparseTable(aggregate, elements, table, depth) &&
      IsDepth(depth, |elements|) &&
      IsFloorLog2(floorLog2, |elements|) &&
      IsIndexTable(aggregate, elements, indexTable, depth)
    }

    /** `config(table:depth:floorLog2:)`: keeps the table as it is given
        and builds the witness table from it. */
    constructor Config(aggregate: Aggregate, table: seq<seq<Option<int>>>, depth: int, floorLog2: seq<int>, ghost elements: seq<int>)
      requires aggregate.IsMinMax()
      requires IsSparseTable(aggregate, elements, table, depth)
      requires IsDepth(depth, |elements|) && IsFloorLog2(floorLog2, |elements|)
      ensures Valid()
      ensures this.aggregate == aggregate && this.table == table && this.depth == depth
      ensures this.floorLog2 == floorLog2 && this.elements == elements
    {
      this.aggregate := aggregate;
      this.table := table;
      this.depth := depth;
      this.floorLog2 := floorLog2;
      this.elements := elements;
      var it := PopulateIndexTable(aggregate, table, depth, elements);
      this.indexTable := it;
    }

    /** `populateIndexTable()`: row i of level 0 is i itself; every later
        entry copies the witness of the left half when the left half's
        aggregate qualifies against the right half's or ties with it, and
        the right half's witness otherwise. */
    static method PopulateIndexTable(aggregate: Aggregate, table: seq<seq<Option<int>>>, depth: int, ghost elements: seq<int>)
      returns (indexTable: seq<seq<Option<int>>>)
      requires aggregate.IsMinMax()
      requires IsSparseTable(aggregate, elements, table, depth)
      requires IsDepth(depth, |elements|)
      ensures IsIndexTable(aggregate, elements, indexTable, depth)
    {
      var n := |table|;
      indexTable := seq(n, _ => seq(depth, _ => None));
      IndexFillStart(aggregate, elements, depth);
      var i := 0;
      while i < n
        invariant 0 <= i <= n
        invariant IndexFilling(aggregate, elements, indexTable, depth, 0, i)
      {
        assert elements[i..i + 1] == [elements[i]];
        IndexFillStep(aggregate, elements, indexTable, depth, 0, i, Some(i));
        indexTable := indexTable[i := indexTable[i][0 := Some(i)]];
        i := i + 1;
      }
      IndexLevelDone(aggregate, elements, indexTable, depth, 0, i);
      var level := 1;
      while level < depth
        invariant 1 <= level <= depth
        invariant IndexFilling(aggregate, elements, indexTable, depth, level, 0)
      {
        var len := Pow2(level);
        Pow2Monotone(level, depth - 1);
        i := 0;
        while i < n - len + 1
          invariant 0 <= i <= n - len + 1
          invariant IndexFilling(aggregate, elements, indexTable, depth, level, i)
        {
          var len2 := Pow2(level - 1);
          var w := IndexStep(aggregate, elements, table, indexTable, depth, level, i);
          IndexFillStep(aggregate, elements, indexTable, depth, level, i, w);
          indexTable := indexTable[i := indexTable[i][level := w]];
          i := i + 1;
        }
        IndexLevelDone(aggregate, elements, indexTable, depth, level, i);
        level := level + 1;
      }
      IndexFillEnd(aggregate, elements, indexTable, depth);
    }

    /** The witness stored at row i of level (at least 1): chosen between
        the witnesses of the two halves of its window. */
    static method IndexStep(aggregate: Aggregate, ghost elements: seq<int>, table: seq<seq<Option<int>>>,
                            indexTable: seq<seq<Option<int>>>, depth: int, level: nat, i: int)
      returns (w: Option<int>)
      requires aggregate.IsMinMax()
      requires IsSparseTable(aggregate, elements, table, depth)
      requires IndexFilling(aggregate, elements, indexTable, depth, level, i)
      requires 1 <= level < depth && 0 <= i && i + Pow2(level) <= |elements|
      ensures WitnessEntry(aggregate, elements, i, level, w)
    {
      TableBelow(aggregate, elements, table, depth, level, i);
      WitnessAt(aggregate, elements, indexTable, depth, level, i, i, level - 1);
      WitnessAt(aggregate, elements, indexTable, depth, level, i, i + Pow2(level - 1), level - 1);
      var len2 := Pow2(level - 1);
      ghost var kl, kr := indexTable[i][level - 1].value, indexTable[i + len2][level - 1].value;
      var lhs := table[i][level - 1].value;
      var rhs := table[i + len2][level - 1].value;
      assert lhs == elements[kl] && rhs == elements[kr];
      w := if Qualify(aggregate, lhs, rhs) || lhs == rhs
        then indexTable[i][level - 1]
        else indexTable[i + len2][level - 1];
      WitnessJoin(aggregate, elements, i, i + len2, i + len2, i + Pow2(level), kl, kr);
    }

    /** `rangeQuery(in:)` over the half-open [lo, hi): the extremum of
        those elements and its leftmost position.  An empty range is not
        rejected: for 1 <= lo < n it reads the single elements at lo and
        lo - 1 and answers with the better of the two. */
    method RangeQuery(lo: int, hi: int) returns (r: Option<Located>)
      requires Valid()
      requires 0 <= lo <= hi <= |elements|
      requires lo < hi || 1 <= lo < |elements|
      ensures lo < hi ==> r.Some? && r.value.element == Reduce(aggregate, elements[lo..hi])
      ensures lo < hi ==> IsWitness(aggregate, elements, lo, hi, r.value.index)
      ensures lo == hi ==> r == Some(
        var (x, y) := (elements[lo], elements[lo - 1]);
        Located(Combine(aggregate, x, y), if Qualify(aggregate, x, y) || x == y then lo else lo - 1))
    {
      var upper := hi - 1;
      var lower := lo;
      var wholeLen := upper - lower + 1;
      var level := floorLog2[wholeLen];
      var len := Pow2(level);
      QueryWindows(aggregate, elements, table, indexTable, depth, floorLog2, lo, hi, level, upper - len + 1);
      var lhs := table[lower][level].value;
      var rhs := table[upper - len + 1][level].value;
      var element := Combine(aggregate, lhs, rhs);
      var index := if Qualify(aggregate, lhs, rhs) || lhs == rhs
        then indexTable[lower][level].value
        else indexTable[upper - len + 1][level].value;
      return Some(Located(element, index));
    }
  }
}
