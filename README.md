# AlgoBits in Dafny

This project models AlgoBits, a Swift library of range-aggregation data
structures, and proves what each structure promises about the logical
elements it stores. The library's element type is Swift's `Int`, which is
modelled as Dafny's unbounded `int`.

- **Point update and range sum.** `FenwickTree`, `IterativeSegmentTree`,
  `RecursiveSegmentTree` and `PrefixSums` are classes whose array fields
  (`tree`, `prefixSums`) are `seq<int>` fields that the methods reassign.
  - Each class has a ghost field `elements`, the sequence of logical
    elements.
  - `Valid()` states the layout that ties the array to `elements`:
    - a Fenwick slot j holds the sum over (j - lowbit(j), j];
    - a segment-tree node holds the sum of its children, or of its covered
      range;
    - a prefix entry holds the running sum.
  - Every operation is specified against `elements`: a query returns the
    sum of a slice, and an update changes exactly one element. The loops
    carry the invariants that make this hold.
  - The Fenwick finders `findAnyIndex` and `findGreatestIndex` are the
    descending-bit searches over the slots.
- **Sparse table.**
  - `SparseTable` fills a table of the aggregates of every power-of-two
    window, level by level.
  - Two query strategies read it:
    - the cascade folds disjoint windows from the left, for any
      associative aggregate (sum, minimum, maximum);
    - the min/max strategy combines two overlapping windows. It keeps a
      second table of witnesses, the leftmost position of each window's
      extremum.
- **Binary lifting.** `BinaryLiftingTable` builds jump pointers for k-th
  ancestor queries, one node at a time.
  - The ghost map `parents` is the child-to-parent relation indexised so
    far.
  - `Ancestor` walks that relation.
  - The ghost flag `ordered` records whether every parent was indexised
    before its child.
- **Helpers.**
  - The additive group of `Int`.
  - `isEven`/`isOdd`.
  - The bit helpers `MSBIndex`, `MSB`, `LSBIndex`, `LSB`, `LSB2` and
    `MSBIndex2`, defined in `Helper/Int+Significant bits.swift`. Their
    rows below cite the tests that pin them and the places that use
    them.
  - The `precomputeFloorLog2` lookup table.

Every module is one `.dfy` file:

| file | module |
|---|---|
| option.dfy | `Optional` |
| group.dfy | `IntGroup` |
| parity.dfy | `Parity` |
| bits.dfy | `Bits` |
| floor_log2.dfy | `FloorLog2Table` |
| fenwick.dfy | `Fenwick` |
| iterative_segment_tree.dfy | `IterativeTree` |
| recursive_segment_tree.dfy | `RecursiveTree` |
| prefix_sums.dfy | `Prefix` |
| sparse_aggregate.dfy | `SparseAggregate` |
| sparse_windows.dfy | `SparseWindows` |
| sparse_cascade.dfy | `SparseCascade` |
| sparse_minmax.dfy | `SparseMinMax` |
| sparse_table.dfy | `SparseTables` |
| binary_lifting.dfy | `BinaryLifting` |

Some contracts that are not obvious:

- **Ranges.** Queries take their bounds directly as integers.
  - Half-open [lo, hi) for the Fenwick tree, the iterative tree, prefix
    sums and the sparse-table strategies.
  - Closed [lo, hi] for the recursive tree. Its upper bound may equal
    `size`, which is then clipped to `size - 1`, as the code accepts it.
- **Preconditions.** A `requires` stands for a Swift `precondition`, a
  force-unwrap or an array access that would trap.
  - `PrefixSums.rangeQuery` with an upper bound of 0 reads entry -1.
  - The Fenwick finders unwrap `MSB` of the count, so they need a
    non-empty tree.
  - The min/max query on an empty range at 0 reads row -1.
- **An empty range at lo >= 1 in the min/max query** does not trap. The
  code then combines `e[lo]` and `e[lo - 1]`, and the model states that
  value.
- **`getAncestor` with a negative `k`.** The bit test `(1 << i) & k`
  reads two's-complement bits. On `int` these are the Euclidean
  `(k / 2^i) % 2`, so the walk is k mod 2^maxJumps edges long. The
  contract states this for every k ≤ treeLevels - 1.
- **`findGreatestIndex` needs an exact match.** It returns the greatest
  index whose prefix sum equals the target, and nil when no prefix does.
  It does not return the rightmost prefix at most the target:
  `findGreatestIndex(of: 100)` on the test elements gives nil.

## Model

| member | source | states |
|---|---|---|
| IntGroup.AddingOn | Sources/AlgorithmBits/Helper/Int+AdditiveInversive.swift:11-13 | excluding the same extra from the result gives the original value back |
| IntGroup.Excluding | Sources/AlgorithmBits/Helper/Int+AdditiveInversive.swift:19-21 | adding the part back onto the result gives the original value |
| IntGroup.AddOn | Sources/AlgorithmBits/Helper/Int+AdditiveInversive.swift:7-9 | the in-place addOn leaves self equal to addingOn of its old value |
| IntGroup.Exclude | Sources/AlgorithmBits/Helper/Int+AdditiveInversive.swift:15-17 | the in-place exclude leaves self equal to excluding of its old value |
| IntGroup.NeutralIsIdentity | Sources/AlgorithmBits/Helper/Int+AdditiveInversive.swift:4-13 | the neutral element is a two-sided identity of addingOn and a right identity of excluding |
| IntGroup.ExcludingUndoesAddingOn | Sources/AlgorithmBits/Helper/Int+AdditiveInversive.swift:11-21 | excluding undoes addingOn, and addingOn undoes excluding |
| IntGroup.AddingOnIsAssociativeAndCommutative | Sources/AlgorithmBits/Helper/Int+AdditiveInversive.swift:11-13 | addingOn is associative and commutative, so sums may be regrouped |
| IntGroup.SumUpdate | Sources/AlgorithmBits/FenwickTree/FenwickTree.swift:119-122 | replacing one element changes the sum of every slice containing it by the difference and leaves the other slices' sums alone |
| Parity.LowestBit | Sources/AlgorithmBits/Helper/BinaryInteger+.swift:11 | `x & 1` is 0 or 1 and x is twice x / 2 plus it, negative x included |
| Parity.IsEven | Sources/AlgorithmBits/Helper/BinaryInteger+.swift:7-12 | isEven holds exactly when x is twice some integer |
| Parity.IsOdd | Sources/AlgorithmBits/Helper/BinaryInteger+.swift:15-20 | isOdd holds exactly when x is twice no integer |
| Parity.ExactlyOneParity | Sources/AlgorithmBits/Helper/BinaryInteger+.swift:10-20 | every integer, negative ones included, is exactly one of even and odd |
| Parity.ParityAlternates | Sources/AlgorithmBits/Helper/BinaryInteger+.swift:10-20 | x is even exactly when x + 1 is odd, and exactly when -x is even |
| Bits.FloorLog2 | Tests/AlgorithmBitsTests/MSBLSBTests.swift:26-142 | the result r satisfies 2^r <= x < 2^(r+1) |
| Bits.FloorLog2Unique | Tests/AlgorithmBitsTests/MSBLSBTests.swift:26-142 | those bounds determine floor(log2 x) uniquely |
| Bits.MSBIndex | Tests/AlgorithmBitsTests/MSBLSBTests.swift:6-142 | nil exactly when x <= 0; otherwise the index r of the highest set bit, 2^r <= x < 2^(r+1) |
| Bits.MSB | Tests/AlgorithmBitsTests/MSBLSBTests.swift:6-142 | nil exactly when x <= 0; otherwise the power of two 2^k with 2^k <= x < 2^(k+1), the value of the highest set bit (for x = 3 it is 2) |
| Bits.MSBIndex2 | Tests/AlgorithmBitsTests/MSBLSBTests.swift:6-142 | the shift-right loop returns exactly MSBIndex, nil for x <= 0 |
| Bits.LSBIndex | Tests/AlgorithmBitsTests/MSBLSBTests.swift:6-142 | nil exactly when x <= 0; otherwise the index t of the lowest set bit: x is a multiple of 2^t but not of 2^(t+1) |
| Bits.LSB | Tests/AlgorithmBitsTests/MSBLSBTests.swift:6-142 | nil exactly when x <= 0; otherwise a power of two 2^k between 1 and x such that x is a multiple of 2^k but not of 2^(k+1), the value of the lowest set bit (for x = 3 it is 1) |
| Bits.LowBit | Sources/AlgorithmBits/FenwickTree/FenwickTree.swift:33 | `x & -x` of a positive x lies between 1 and x |
| Bits.LowBitAligned | Sources/AlgorithmBits/FenwickTree/FenwickTree.swift:58-61 | x is a multiple of its lowest set bit, and x minus that bit is a multiple of twice it |
| Bits.LowBitExact | Sources/AlgorithmBits/FenwickTree/FenwickTree.swift:110-114 | x is not a multiple of twice its lowest set bit |
| Bits.LowBitGrows | Sources/AlgorithmBits/FenwickTree/FenwickTree.swift:31-34 | stepping to idx + LSB2(idx) at least doubles the lowest set bit, so addOn's walk ends |
| FloorLog2Table.PrecomputeFloorLog2 | Sources/AlgorithmBits/Helper/Int+precomputeFloorLog2.swift:5-13 | maxN + 1 entries; entry 0 is 0; entry i >= 1 is floor(log2 i); entry i is entry i >> 1 plus 1 from 2 on; entries never decrease |
| Fenwick.SlotUpdate | Sources/AlgorithmBits/FenwickTree/FenwickTree.swift:28-35 | changing element idx moves exactly the slots j with j - lowbit(j) <= idx < j, by the difference |
| Fenwick.FenwickTree.BySize | Sources/AlgorithmBits/FenwickTree/FenwickTree.swift:13-16 | size neutral elements, laid out |
| Fenwick.FenwickTree.constructor | Sources/AlgorithmBits/FenwickTree/FenwickTree.swift:18-20 | the given elements, laid out |
| Fenwick.FenwickTree.Populate | Sources/AlgorithmBits/FenwickTree/FenwickTree.swift:68-78 | every slot j holds the sum of the elements over (j - lowbit(j), j], and there are as many slots as elements |
| Fenwick.FenwickTree.Count | Sources/AlgorithmBits/FenwickTree/FenwickTree.swift:94-98 | the count is the number of logical elements; every update keeps it |
| Fenwick.FenwickTree.AddOn | Sources/AlgorithmBits/FenwickTree/FenwickTree.swift:28-35 | element idx gains extra, every other element is unchanged, and the layout is kept |
| Fenwick.FenwickTree.PrefixSum | Sources/AlgorithmBits/FenwickTree/FenwickTree.swift:55-63 | the sum of elements 0 ..= idx, and 0 when idx is negative |
| Fenwick.FenwickTree.RangeQuery | Sources/AlgorithmBits/FenwickTree/FenwickTree.swift:41-47 | the sum of the elements in [lo, hi), 0 when the range is empty |
| Fenwick.FenwickTree.Get | Sources/AlgorithmBits/FenwickTree/FenwickTree.swift:103-118 | the logical element idx |
| Fenwick.FenwickTree.Set | Sources/AlgorithmBits/FenwickTree/FenwickTree.swift:119-122 | element idx becomes the new value, the others are unchanged, and the layout is kept |
| Fenwick.FenwickTree.FindAnyIndex | Sources/AlgorithmBits/FenwickTree/FenwickTree+find.swift:6-27 | a result i (-1 for the empty prefix) has prefix 0 ..= i summing to the target; with non-negative elements it answers exactly when some prefix sums to the target |
| Fenwick.FenwickTree.FindGreatestIndex | Sources/AlgorithmBits/FenwickTree/FenwickTree+find.swift:30-49 | as FindAnyIndex, and with non-negative elements no longer prefix sums to the target |
| Fenwick.DescentVisit | Sources/AlgorithmBits/FenwickTree/FenwickTree+find.swift:12-21 | the visited slot holds exactly elements idx .. idx + 2^k - 1, and each branch keeps the descent's invariant |
| Fenwick.DescentEnd | Sources/AlgorithmBits/FenwickTree/FenwickTree+find.swift:22-26 | a remainder of 0 means idx's prefix is the target; otherwise, with non-negative elements, no prefix is |
| IterativeTree.MaxSize | Sources/AlgorithmBits/SegmentTree/IterativeSegmentTree.swift:20 | 0 for an empty tree; otherwise 2^(floor(log2 size) + 1), the smallest power of two above size, at most twice size |
| IterativeTree.IterativeSegmentTree.BySize | Sources/AlgorithmBits/SegmentTree/IterativeSegmentTree.swift:17-22 | size neutral elements in 2 * maxSize slots, laid out |
| IterativeTree.IterativeSegmentTree.constructor | Sources/AlgorithmBits/SegmentTree/IterativeSegmentTree.swift:24-29 | the given elements in the leaves, padding leaves 0, inner nodes aggregated |
| IterativeTree.IterativeSegmentTree.PopulateAggregates | Sources/AlgorithmBits/SegmentTree/IterativeSegmentTree.swift:76-80 | every inner node becomes the sum of its two children; leaves and slot 0 are kept |
| IterativeTree.ClimbEnd | Sources/AlgorithmBits/SegmentTree/IterativeSegmentTree.swift:37-44 | adding extra to the leaf and every node on its path lays out the updated elements, and only those nodes change |
| IterativeTree.IterativeSegmentTree.AddOn | Sources/AlgorithmBits/SegmentTree/IterativeSegmentTree.swift:37-44 | element idx gains extra, the others are unchanged; exactly the nodes on the leaf's path to node 1 gain extra |
| IterativeTree.IterativeSegmentTree.AddOnAsWritten | Sources/AlgorithmBits/SegmentTree/IterativeSegmentTree.swift:37-44 | with only idx < size checked, the nodes on the path from node maxSize + idx up to node 1 gain extra and no other node changes, whatever the sign of idx |
| IterativeTree.InnerClimbCorrupts | Sources/AlgorithmBits/SegmentTree/IterativeSegmentTree.swift:37-44 | a climb from an inner node, as for -maxSize < idx < 0, changes no leaf and leaves its starting node unequal to the sum of its children |
| IterativeTree.NegativeIndexCounterexample | Sources/AlgorithmBits/SegmentTree/IterativeSegmentTree.swift:37-44 | seven zero elements and `addOn(1, at: -2)`: node 6 holds 1, every leaf is still 0, and the tree's sums are broken |
| IterativeTree.HalveSum | Sources/AlgorithmBits/SegmentTree/IterativeSegmentTree.swift:65-66 | when parents sum their children, an even-aligned run of nodes sums to the run of their parents |
| IterativeTree.WindowStep | Sources/AlgorithmBits/SegmentTree/IterativeSegmentTree.swift:56-67 | one round keeps both pointers inside the node range and one level up, and lower never passes upper |
| IterativeTree.QueryRound | Sources/AlgorithmBits/SegmentTree/IterativeSegmentTree.swift:56-67 | one round keeps the result plus the sum of the remaining window unchanged |
| IterativeTree.IterativeSegmentTree.RangeQuery | Sources/AlgorithmBits/SegmentTree/IterativeSegmentTree.swift:50-69 | the sum of the elements in [lo, hi), 0 when the range is empty |
| IterativeTree.IterativeSegmentTree.Get | Sources/AlgorithmBits/SegmentTree/IterativeSegmentTree.swift:98-101 | the leaf read is the logical element idx |
| IterativeTree.IterativeSegmentTree.Set | Sources/AlgorithmBits/SegmentTree/IterativeSegmentTree.swift:102-106 | element idx becomes the new value, the others are unchanged, and the layout is kept |
| RecursiveTree.CoveringBits | Sources/AlgorithmBits/SegmentTree/RecursiveSegmentTree.swift:20 | the bit length b of size - 1: size <= 2^b and 2^(b-1) < size, 0 for size <= 1 |
| RecursiveTree.TreeLength | Sources/AlgorithmBits/SegmentTree/RecursiveSegmentTree.swift:21-22 | 2^(b+1) - 1 slots, and every node the traversal over [0, size - 1] reaches has an index below it |
| RecursiveTree.ThreeElementLength | Sources/AlgorithmBits/SegmentTree/RecursiveSegmentTree.swift:20-22 | three elements take 2 covering bits and 7 slots |
| RecursiveTree.ThreeElementLayout | Tests/AlgorithmBitsTests/SegmentTreeTests.swift:10-17 | the elements [0, 1, 2] are laid out with nodes 3, 1, 2, 0, 1 first |
| RecursiveTree.ChildrenApart | Sources/AlgorithmBits/SegmentTree/RecursiveSegmentTree.swift:124-132 | the subtrees of children 2i + 1 and 2i + 2 are disjoint and do not contain node i |
| RecursiveTree.HoldsZero | Sources/AlgorithmBits/SegmentTree/RecursiveSegmentTree.swift:15-23 | a tree of neutral elements lays out neutral elements |
| RecursiveTree.EdgeCase | Sources/AlgorithmBits/SegmentTree/RecursiveSegmentTree.swift:62-69 | a handler only drills down into a range of more than one element, so the walk ends |
| RecursiveTree.QueryTraverse | Sources/AlgorithmBits/SegmentTree/RecursiveSegmentTree.swift:112-134 | the query walk answers exactly when the ranges overlap, gives the sum of the overlap, and returns the cached node when the query covers it |
| RecursiveTree.ElementTraverse | Sources/AlgorithmBits/SegmentTree/RecursiveSegmentTree.swift:152-167 | the getter walk finds element idx exactly when the subtree covers idx |
| RecursiveTree.RouteUpdate | Sources/AlgorithmBits/SegmentTree/RecursiveSegmentTree.swift:42-48 | adding extra to exactly the nodes whose range contains idx lays out the elements with extra added at idx |
| RecursiveTree.RecursiveSegmentTree.BySize | Sources/AlgorithmBits/SegmentTree/RecursiveSegmentTree.swift:15-23 | size neutral elements in TreeLength(size) neutral slots, laid out |
| RecursiveTree.RecursiveSegmentTree.constructor | Sources/AlgorithmBits/SegmentTree/RecursiveSegmentTree.swift:25-29 | the given elements, laid out |
| RecursiveTree.RecursiveSegmentTree.PopulateTree | Sources/AlgorithmBits/SegmentTree/RecursiveSegmentTree.swift:81-103 | every node of the subtree holds the sum of its range, the result is the subtree's sum, and no node outside the subtree changes |
| RecursiveTree.RecursiveSegmentTree.AddOnTraverse | Sources/AlgorithmBits/SegmentTree/RecursiveSegmentTree.swift:39-49 | exactly the nodes of the subtree whose range contains idx gain extra |
| RecursiveTree.RecursiveSegmentTree.AddOn | Sources/AlgorithmBits/SegmentTree/RecursiveSegmentTree.swift:37-50 | element idx gains extra, the others are unchanged, and the layout is kept |
| RecursiveTree.RecursiveSegmentTree.RangeQuery | Sources/AlgorithmBits/SegmentTree/RecursiveSegmentTree.swift:55-74 | the sum of the elements in the closed [lo, min(hi, size - 1)] |
| RecursiveTree.RecursiveSegmentTree.Get | Sources/AlgorithmBits/SegmentTree/RecursiveSegmentTree.swift:152-167 | the logical element idx |
| RecursiveTree.RecursiveSegmentTree.Set | Sources/AlgorithmBits/SegmentTree/RecursiveSegmentTree.swift:168-172 | element idx becomes the new value, the others are unchanged, and the layout is kept |
| Prefix.PrefixSums.BySize | Sources/AlgorithmBits/PrefixSums.swift:13-16 | size neutral elements with neutral prefix sums |
| Prefix.PrefixSums.constructor | Sources/AlgorithmBits/PrefixSums.swift:18-21 | the given elements, each entry their running sum |
| Prefix.AccumulatedFromStart | Sources/AlgorithmBits/PrefixSums.swift:18-21 | accumulating raw elements from position 1 yields their running sums |
| Prefix.PrefixSums.PrecomputeInPlace | Sources/AlgorithmBits/PrefixSums.swift:55-60 | nothing changes on an empty array; entries below max(1, start) are kept; each later entry becomes the entry before the start plus the old entries from the start up to it |
| Prefix.PrefixSums.AddOnAsWritten | Sources/AlgorithmBits/PrefixSums.swift:29-35 | the extra overwrites entry idx, and the entries are accumulated from idx |
| Prefix.AddOnOverwritesAtZero | Sources/AlgorithmBits/PrefixSums.swift:29-35 | at position 0 the result holds the extra itself, and it lays out the added-to elements only when element 0 was neutral |
| Prefix.AddOnAsWrittenCounterexample | Sources/AlgorithmBits/PrefixSums.swift:29-35 | on elements [1, 2], adding 0 at 0 leaves entries [0, 3], which are not the prefix sums of [1, 2] |
| Prefix.PrefixSums.AddOn | Sources/AlgorithmBits/PrefixSums.swift:25-35 | element idx gains extra, the others are unchanged, and every entry is again a running sum |
| Prefix.PrefixSums.RangeQuery | Sources/AlgorithmBits/PrefixSums.swift:41-47 | the sum of the elements in [lo, hi) |
| Prefix.ElementOfPrefix | Sources/AlgorithmBits/PrefixSums.swift:85-90 | the entry difference the getter reads is the element, as long as the entries up to it are running sums |
| Prefix.PrefixSums.Get | Sources/AlgorithmBits/PrefixSums.swift:85-90 | the logical element idx |
| Prefix.TailRestores | Sources/AlgorithmBits/PrefixSums.swift:91-95 | once the entries above idx are raw elements, writing the new value and accumulating from idx lays out the updated elements |
| Prefix.PrefixSums.Set | Sources/AlgorithmBits/PrefixSums.swift:91-95 | element idx becomes the new value, the others are unchanged, and every entry is a running sum |
| SparseAggregate.Combine | Sources/AlgorithmBits/SparseTable/SparseTableMinMaxAggregate.swift:10-21 | the minimum and the maximum always return one of their arguments |
| SparseAggregate.CombineAssociative | Sources/AlgorithmBits/SparseTable/SparseTableAdditiveAggregate.swift:8 | sum, minimum and maximum are associative |
| SparseAggregate.CombineCommutative | Sources/AlgorithmBits/SparseTable/SparseTableMinMaxAggregate.swift:12-19 | sum, minimum and maximum are commutative |
| SparseAggregate.InitialIsIdentity | Sources/AlgorithmBits/SparseTable/SparseTableMinMaxAggregate.swift:13-20 | zero, `Int.max` and `Int.min` are two-sided identities of their aggregate on every 64-bit `Int` |
| SparseAggregate.MinMaxIdempotent | Sources/AlgorithmBits/SparseTable/SparseTableMinMaxAggregate.swift:3-19 | the minimum and the maximum of x with itself are x |
| SparseAggregate.SumNotIdempotent | Sources/AlgorithmBits/SparseTable/SparseTableAdditiveAggregate.swift:3-8 | x + x is x only for x = 0, so sums of overlapping windows count twice |
| SparseAggregate.QualifyPicks | Sources/AlgorithmBits/SparseTable/SparseTableMinMaxAggregate.swift:11-19 | the aggregate is the left value exactly when it qualifies or ties, and the right value otherwise |
| SparseAggregate.ReduceConcat | Sources/AlgorithmBits/SparseTable/SparseTable.swift:49-55 | the aggregate of two adjacent runs is the aggregate of their aggregates |
| SparseAggregate.ReduceIsExtremum | Sources/AlgorithmBits/SparseTable/SparseTableMinMaxAggregate.swift:10-21 | for the minimum and maximum, a run's aggregate occurs in the run and is the extremum of every element |
| SparseAggregate.ExtremumIsReduce | Sources/AlgorithmBits/SparseTable/SparseTableMinMaxAggregate.swift:10-21 | any such extremum is the aggregate |
| SparseAggregate.FoldIsReduce | Sources/AlgorithmBits/SparseTable/SparseTableQueryCascade.swift:23-30 | folding a run of `Int`s from the initial element gives the run's aggregate |
| SparseWindows.DepthFromTable | Sources/AlgorithmBits/SparseTable/SparseTable.swift:20-21 | depth = floorLog2[n] + 1 puts 2^(depth-1) <= n < 2^depth, and depth = 1 with no elements |
| SparseWindows.LevelBelowDepth | Sources/AlgorithmBits/SparseTable/SparseTableQueryCascade.swift:24-28 | the widest window that fits into a run has a level below depth, so its table entry exists |
| SparseWindows.EntryOfOne | Sources/AlgorithmBits/SparseTable/SparseTable.swift:45-47 | the window of one element holds that element |
| SparseWindows.EntryFromHalves | Sources/AlgorithmBits/SparseTable/SparseTable.swift:49-55 | entry [i][l] is the aggregate of entries [i][l-1] and [i + 2^(l-1)][l-1], both defined |
| SparseTables.SparseTable.PopulateTable | Sources/AlgorithmBits/SparseTable/SparseTable.swift:38-56 | n rows of depth entries; entry [i][l] is the aggregate of elements i .. i + 2^l - 1 when that window fits, and nil otherwise |
| SparseTables.SparseTable.constructor | Sources/AlgorithmBits/SparseTable/SparseTable.swift:18-26 | the floor-log2 table, depth and table are laid out for the elements; with none the table is empty and no strategy is configured |
| SparseTables.SparseTable.RangeQuery | Sources/AlgorithmBits/SparseTable/SparseTable.swift:30-33 | the configured strategy's answer for the same [lo, hi): the cascade's fold, or the min/max extremum and its leftmost position; an empty min/max range at lo >= 1 gives the combination of elements lo and lo - 1, at lo when element lo qualifies or ties |
| SparseCascade.CascadeStep | Sources/AlgorithmBits/SparseTable/SparseTableQueryCascade.swift:25-29 | each window read fits, lower + 2^level <= hi, its entry is its aggregate, and the windows folded so far cover [lo, lower) |
| SparseCascade.SparseTableQueryCascade.Config | Sources/AlgorithmBits/SparseTable/SparseTableQueryCascade.swift:12-16 | the table, depth and lookup table are kept as given |
| SparseCascade.SparseTableQueryCascade.RangeQuery | Sources/AlgorithmBits/SparseTable/SparseTableQueryCascade.swift:19-31 | never nil: the fold of the aggregate from the initial element over [lo, hi), the initial element when the range is empty |
| SparseMinMax.WitnessJoin | Sources/AlgorithmBits/SparseTable/SparseTableQueryMinMax.swift:38-41 | of the leftmost witnesses of two windows covering a range, the one kept by qualify-or-tie is the range's leftmost witness, and the combined value is its aggregate |
| SparseMinMax.SparseTableQueryMinMax.IndexStep | Sources/AlgorithmBits/SparseTable/SparseTableQueryMinMax.swift:35-41 | the stored witness is the leftmost position of the window's extremum |
| SparseMinMax.SparseTableQueryMinMax.PopulateIndexTable | Sources/AlgorithmBits/SparseTable/SparseTableQueryMinMax.swift:22-44 | entry [i][l] is the leftmost position of the extremum of elements i .. i + 2^l - 1 when that window fits, and nil otherwise; entry [i][0] is i |
| SparseMinMax.SparseTableQueryMinMax.Config | Sources/AlgorithmBits/SparseTable/SparseTableQueryMinMax.swift:14-19 | the table is kept as given and the index table is laid out |
| SparseMinMax.QueryWindows | Sources/AlgorithmBits/SparseTable/SparseTableQueryMinMax.swift:48-63 | the two windows at lo and hi - 2^level are defined and cover [lo, hi), and combining them gives the extremum and its leftmost position |
| SparseMinMax.SparseTableQueryMinMax.RangeQuery | Sources/AlgorithmBits/SparseTable/SparseTableQueryMinMax.swift:47-66 | for a non-empty range, the minimum (maximum) of [lo, hi) and the first position holding it; for an empty range at lo >= 1, the combination of elements lo and lo - 1 |
| BinaryLifting.AncestorAdd | Sources/AlgorithmBits/BinaryLifting/BinaryLiftingTable.swift:36-40 | walking a + b edges is walking a edges and then b more |
| BinaryLifting.AncestorBelow | Sources/AlgorithmBits/BinaryLifting/BinaryLiftingTable.swift:32-41 | recording a new node's parent leaves every earlier node's walks unchanged when parents precede children |
| BinaryLifting.AncestorDescends | Sources/AlgorithmBits/BinaryLifting/BinaryLiftingTable.swift:32-40 | when parents precede children, every proper ancestor has a smaller index; `GetAncestor` uses it for its answers |
| BinaryLifting.TestTreeAncestors | Tests/AlgorithmBitsTests/BinaryLiftingTests.swift:120-126 | in the second test tree node 10's ancestors 1 to 6 are 9, 8, 7, 4, 1, 0, and there is no 7th |
| BinaryLifting.PowerOf2JumpsForTreeLevels | Sources/AlgorithmBits/BinaryLifting/BinaryLiftingTable.swift:79-82 | nil exactly when levels <= 1; otherwise the bit length m of levels - 1: 2^(m-1) <= levels - 1 < 2^m |
| BinaryLifting.JumpsForTestTrees | Tests/AlgorithmBitsTests/BinaryLiftingTests.swift:115-116 | 4 tree levels need 2 jumps and 7 need 3 |
| BinaryLifting.ModStep | Sources/AlgorithmBits/BinaryLifting/BinaryLiftingTable.swift:51-53 | the low i + 1 bits of k are its low i bits plus bit i, as `(1 << i) & k` tests it |
| BinaryLifting.HopTaken | Sources/AlgorithmBits/BinaryLifting/BinaryLiftingTable.swift:53-55 | following jump i on a set bit extends the walk by 2^i edges |
| BinaryLifting.HopsAll | Sources/AlgorithmBits/BinaryLifting/BinaryLiftingTable.swift:51-57 | once every bit is handled the walk is k mod 2^maxJumps edges long |
| BinaryLifting.NilRow | Sources/AlgorithmBits/BinaryLifting/BinaryLiftingTable.swift:74-76 | maxJumps entries, all nil |
| BinaryLifting.Grown | Sources/AlgorithmBits/BinaryLifting/BinaryLiftingTable.swift:65-71 | max(count, index + 1) rows, the old rows first and unchanged, the new rows all nil |
| BinaryLifting.BinaryLiftingTable.constructor | Sources/AlgorithmBits/BinaryLifting/BinaryLiftingTable.swift:15-24 | maxJumps is the bit length of treeLevels - 1; nothing is indexised; with a node count there are that many nil rows |
| BinaryLifting.BinaryLiftingTable.EnsureTableSize | Sources/AlgorithmBits/BinaryLifting/BinaryLiftingTable.swift:65-71 | the table is grown to at least index + 1 rows with nil rows, and nothing else changes |
| BinaryLifting.BinaryLiftingTable.FillRow | Sources/AlgorithmBits/BinaryLifting/BinaryLiftingTable.swift:36-40 | only row index changes: level 0 is the parent, every set level l is the 2^l-th ancestor, levels after a nil stay nil, and with parents before children every level is filled |
| BinaryLifting.BinaryLiftingTable.Indexise | Sources/AlgorithmBits/BinaryLifting/BinaryLiftingTable.swift:32-41 | the relation gains index -> parentIndex, lastIndexised becomes index, the table grows, and only row index is written, as FillRow states |
| BinaryLifting.BinaryLiftingTable.GetAncestor | Sources/AlgorithmBits/BinaryLifting/BinaryLiftingTable.swift:47-59 | nil for k > treeLevels - 1; otherwise a node is the (k mod 2^maxJumps)-th ancestor, the k-th for k >= 0, and with parents before children nil means that ancestor does not exist and a node found for k >= 1 has a smaller index than `index` |

## Left out

- Swift's 64-bit `Int` overflow traps on `+` and `-` are not modelled: elements and indices are unbounded integers. Only the sparse-table identities are stated for values inside the 64-bit range, because `Int.max` and `Int.min` are identities only there.
- Floating-point conformances of `MinBounded`/`MaxBounded` are out: the aggregates are over `Int`.
- The protocols `AdditiveInversive`, `RangeQueryable`, `SparseTableAggregate` and `SparseTableQueryStrategy` declare no behaviour. Their single `Int` conformance is modelled directly. The strategy protocol becomes a datatype with one case per strategy.
- `RangeExpression.relative(to:)` is out. Queries take their integer bounds directly.
- The `MutableCollection` index members, the array-literal initialisers and the string descriptions are out. They only forward to the modelled operations.
- `Range.asClosedRange` is out. It is a one-line conversion.
- `reserveCapacity` in the binary lifting initialiser is out. It has no observable effect.
- The complexity claims in doc comments are out.
- Struct value semantics are approximated: the structures are classes whose arrays are `seq` fields reassigned by their methods. Copies of a struct are not modelled.
- The implicitly unwrapped fields of the strategy classes are set once, by their configuring constructors.
- Negative indices are treated as caller errors and excluded by `requires 0 <= idx` (and `0 <= lo`). Swift checks only `idx < count` or `upperBound <= count`, and several paths accept a negative index without trapping. The model does not state what they do:
  - `FenwickTree.rangeQuery` with lo < 0 sums from element 0, because the lower prefix is taken as neutral (FenwickTree.swift:44-46).
  - The `PrefixSums` getter with idx <= 0 returns entry 0, and `PrefixSums.rangeQuery` with lo < 0 sums from element 0 (PrefixSums.swift:44-46 and 86-88).
  - `IterativeSegmentTree`'s getter and `rangeQuery` with -maxSize <= idx < 0 read inner nodes instead of leaves (IterativeSegmentTree.swift:54 and 98-101). `addOn` writes inner nodes: see "## Findings".
  - `RecursiveSegmentTree.addOn` with idx < 0 changes nothing, and its `rangeQuery` with a negative lower bound sums from element 0 (RecursiveSegmentTree.swift:42 and 62-64).
  - The cascade query over an empty range at a negative lo returns the initial element.
- BinaryLifting.BinaryLiftingTable.GetAncestor: requires index >= 0. The Swift code does not trap on a negative index when no hop is taken, for example `getAncestor(0, of: -1)` returns -1.
- BinaryLifting.BinaryLiftingTable.GetAncestor: when some parent was indexised after its child, a nil answer is not tied to the relation. The child's row then holds stale nil jumps that the code never refreshes. A non-nil answer is still a correct ancestor.
- Fenwick.FenwickTree.FindAnyIndex: only soundness is stated for elements that may be negative. With negative elements the descent can miss a prefix that sums to the target. Which index is found among several matching prefixes is not pinned, as in the library's tests.
- Fenwick.FenwickTree.FindGreatestIndex: "greatest" is stated for non-negative elements only, for the same reason.
- The `SparseTable` generic over any `Comparable` element is modelled over `int` only.

## Findings

| source | as written | input that shows it | evidently intended | confidence | as-written member | corrected member |
|---|---|---|---|---|---|---|
| Sources/AlgorithmBits/PrefixSums.swift:29-35 | `addOn(_:at:)` stores `extra` into entry idx and re-accumulates from idx. It overwrites the element instead of adding to it, and leaves the later entries doubly accumulated. | elements [1, 2] and `addOn(0, at: 0)` leave entries [0, 3], that is the elements [0, 3] | element idx gains `extra` and the others stay, as its documentation and `RangeQueryable` state | high, not executed | Prefix.PrefixSums.AddOnAsWritten, Prefix.AddOnAsWrittenCounterexample | Prefix.PrefixSums.AddOn |
| Sources/AlgorithmBits/SegmentTree/IterativeSegmentTree.swift:37-44 | `addOn(_:at:)` checks only idx < size. For -maxSize < idx < 0 the climb starts at inner node maxSize + idx: no leaf changes, but that node and its ancestors gain `extra`. | seven elements, all 0, and `addOn(1, at: -2)`: node 6 becomes 1, so `rangeQuery(in: 4..<6)`, which reads node 6 alone, answers 1 while elements 4 and 5 are 0 | a negative index is rejected like one at or past `size` | high, not executed | IterativeTree.IterativeSegmentTree.AddOnAsWritten, IterativeTree.InnerClimbCorrupts, IterativeTree.NegativeIndexCounterexample | IterativeTree.IterativeSegmentTree.AddOn |
