/** `precomputeFloorLog2(for:)`: a lookup table of floor(log2 i) for
    1 <= i <= maxN, filled from the entry at i >> 1. */
module FloorLog2Table {
  import opened Bits

  /** Entry 0 (log of zero) stays 0; every other entry is floor(log2 i),
      and the recurrence the loop uses holds of the result. */
  method PrecomputeFloorLog2(maxN: int) returns (log2: seq<int>)
    requires maxN + 1 >= 0
    ensures |log2| == maxN + 1
    ensures maxN >= 0 ==> log2[0] == 0
    ensures forall i :: 1 <= i <= maxN ==> log2[i] >= 0 && Pow2(log2[i]) <= i < Pow2(log2[i] + 1)
    ensures forall i :: 2 <= i <= maxN ==> log2[i] == log2[i / 2] + 1
    ensures forall i, j :: 1 <= i <= j <= maxN ==> log2[i] <= log2[j]
  {
    var table := new int[maxN + 1](_ => 0);
    if maxN >= 2 {
      var i := 2;
      while i <= maxN
        invariant 2 <= i <= maxN + 1
        invariant table[0] == 0
        invariant forall j :: 1 <= j < i ==> table[j] == FloorLog2(j)
      {
        table[i] := table[i / 2] + 1;
        i := i + 1;
      }
    }
    log2 := table[..];
    TableFacts(log2);
  }

  /** What a table of floor(log2 i) satisfies. */
  lemma TableFacts(log2: seq<int>)
    requires |log2| >= 1 ==> log2[0] == 0
    requires forall i :: 1 <= i < |log2| ==> log2[i] == FloorLog2(i)
    ensures forall i :: 1 <= i < |log2| ==> log2[i] >= 0 && Pow2(log2[i]) <= i < Pow2(log2[i] + 1)
    ensures forall i :: 2 <= i < |log2| ==> log2[i] == log2[i / 2] + 1
    ensures forall i, j :: 1 <= i <= j < |log2| ==> log2[i] <= log2[j]
  {
    forall i, j | 1 <= i <= j < |log2|
      ensures log2[i] <= log2[j]
    {
      FloorLog2Monotone(i, j);
    }
  }
}
