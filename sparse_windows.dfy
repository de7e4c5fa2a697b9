/** The layout a sparse table and its query strategies share.  Row i,
    column l of the table is the aggregate of the window of 2^l elements
    starting at i when that window fits, and `nil` otherwise; the table has
    one row per element and `depth` columns, where depth is one more than
    floor(log2 n), so the widest window that fits is in the last column. */
module SparseWindows {
  import opened Optional
  import opened Bits
  import opened SparseAggregate

  /** What entry [i][l] holds. */
  ghost function Entry(a: Aggregate, e: seq<int>, i: int, l: nat): Option<int>
    requires 0 <= i
  {
    if i + Pow2(l) <= |e| then Some(Reduce(a, e[i..i + Pow2(l)])) else None
  }

  ghost predicate IsSparseTable(a: Aggregate, e: seq<int>, t: seq<seq<Option<int>>>, depth: int)
  {
    |t| == |e| &&
    (forall i :: 0 <= i < |t| ==> |t[i]| == depth) &&
    (forall i, l: nat :: 0 <= i < |t| && l < depth ==> t[i][l] == Entry(a, e, i, l))
  }

  /** depth is floor(log2 n) + 1: the windows of 2^(depth - 1) elements
      fit, the windows of 2^depth do not.  With no elements it is 1. */
  ghost predicate IsDepth(depth: int, n: int)
  {
    depth >= 1 &&
    (n == 0 ==> depth == 1) &&
    (n >= 1 ==> Pow2(depth - 1) <= n < Pow2(depth))
  }

  /** The lookup table `precomputeFloorLog2(for: n)` returns. */
  ghost predicate IsFloorLog2(f: seq<int>, n: int)
  {
    n >= 0 && |f| == n + 1 && f[0] == 0 &&
    forall i :: 1 <= i <= n ==> f[i] >= 0 && Pow2(f[i]) <= i < Pow2(f[i] + 1)
  }

  /** The table entry of the widest window that fits into a run of len
      elements is defined: its level is below depth. */
  lemma LevelBelowDepth(depth: int, n: int, len: int, level: nat)
    requires IsDepth(depth, n)
    requires 1 <= len <= n && Pow2(level) <= len
    ensures level < depth
  {
    if level >= depth {
      Pow2Monotone(depth, level);
    }
  }

  /** depth as `SparseTable.init` computes it, from the lookup table. */
  lemma DepthFromTable(f: seq<int>, n: int)
    requires IsFloorLog2(f, n)
    ensures IsDepth(f[n] + 1, n)
  {
  }

  /** A window of a single element holds that element. */
  lemma EntryOfOne(a: Aggregate, e: seq<int>, i: int)
    requires 0 <= i < |e|
    ensures Entry(a, e, i, 0) == Some(e[i])
  {
  }

  /** Entry [i][l] is built from the two entries of the level below it. */
  lemma EntryFromHalves(a: Aggregate, e: seq<int>, i: int, l: nat)
    requires 0 <= i && l >= 1 && i + Pow2(l) <= |e|
    ensures Entry(a, e, i, l - 1).Some? && Entry(a, e, i + Pow2(l - 1), l - 1).Some?
    ensures Entry(a, e, i, l) == Some(Combine(a, Entry(a, e, i, l - 1).value, Entry(a, e, i + Pow2(l - 1), l - 1).value))
  {
    var h := Pow2(l - 1);
    assert e[i..i + Pow2(l)] == e[i..i + h] + e[i + h..i + h + h];
    ReduceConcat(a, e[i..i + h], e[i + h..i + h + h]);
  }
}
