/** The additive group every point-update structure is generic over, as
    conformed to by Swift's `Int`: neutral element 0, `addingOn` is `+`,
    `excluding` is `-`.  The in-place `addOn`/`exclude` are modelled as
    functions returning the new value of `self`.  `Sum` is the left fold of
    `addingOn` from the neutral element, the aggregate every structure
    answers range queries with. */
module IntGroup {

  function NeutralElement(): int { 0 }

  /** `x.addingOn(extra)`; `excluding` takes it back. */
  function AddingOn(x: int, extra: int): (r: int)
    ensures Excluding(r, extra) == x
  {
    x + extra
  }

  /** `x.excluding(part)`; `addingOn` puts it back. */
  function Excluding(x: int, part: int): (r: int)
    ensures r + part == x
  {
    x - part
  }

  /** The value of `self` after the mutating `self.addOn(extra)`. */
  function AddOn(self: int, extra: int): (r: int)
    ensures r == AddingOn(self, extra)
  {
    self + extra
  }

  /** The value of `self` after the mutating `self.exclude(part)`. */
  function Exclude(self: int, part: int): (r: int)
    ensures r == Excluding(self, part)
  {
    self - part
  }

  lemma NeutralIsIdentity(x: int)
    ensures AddingOn(NeutralElement(), x) == x
    ensures AddingOn(x, NeutralElement()) == x
    ensures Excluding(x, NeutralElement()) == x
  {
  }

  lemma ExcludingUndoesAddingOn(x: int, y: int)
    ensures Excluding(AddingOn(x, y), y) == x
    ensures AddingOn(Excluding(x, y), y) == x
  {
  }

  lemma AddingOnIsAssociativeAndCommutative(x: int, y: int, z: int)
    ensures AddingOn(AddingOn(x, y), z) == AddingOn(x, AddingOn(y, z))
    ensures AddingOn(x, y) == AddingOn(y, x)
  {
  }

  /** Left fold of `addingOn` over `s`, starting at the neutral element. */
  function Sum(s: seq<int>): int
  {
    if |s| == 0 then NeutralElement() else AddingOn(Sum(s[..|s| - 1]), s[|s| - 1])
  }

  lemma {:induction false} SumConcat(s: seq<int>, t: seq<int>)
    ensures Sum(s + t) == Sum(s) + Sum(t)
  {
    if |t| == 0 {
      assert s + t == s;
    } else {
      assert (s + t)[..|s + t| - 1] == s + t[..|t| - 1];
      SumConcat(s, t[..|t| - 1]);
    }
  }

  /** Splitting a slice at any inner point splits its sum. */
  lemma SumSplit(s: seq<int>, a: int, b: int, c: int)
    requires 0 <= a <= b <= c <= |s|
    ensures Sum(s[a..c]) == Sum(s[a..b]) + Sum(s[b..c])
  {
    assert s[a..c] == s[a..b] + s[b..c];
    SumConcat(s[a..b], s[b..c]);
  }

  lemma SumSingleton(s: seq<int>, i: int)
    requires 0 <= i < |s|
    ensures Sum(s[i..i + 1]) == s[i]
  {
    assert s[i..i + 1][..0] == [];
  }

  /** Changing one element inside a slice changes its sum by the difference;
      outside the slice the sum is unchanged. */
  lemma SumUpdate(s: seq<int>, i: int, v: int, a: int, b: int)
    requires 0 <= i < |s|
    requires 0 <= a <= b <= |s|
    ensures Sum(s[i := v][a..b]) == if a <= i < b then Sum(s[a..b]) - s[i] + v else Sum(s[a..b])
  {
    var t := s[i := v];
    if a <= i < b {
      SumSplit(s, a, i, b);
      SumSplit(t, a, i, b);
      SumSplit(s, i, i + 1, b);
      SumSplit(t, i, i + 1, b);
      SumSingleton(s, i);
      SumSingleton(t, i);
      assert s[a..i] == t[a..i];
      assert s[i + 1..b] == t[i + 1..b];
    } else {
      assert s[a..b] == t[a..b];
    }
  }

  lemma {:induction false} SumZeros(s: seq<int>)
    requires forall k :: 0 <= k < |s| ==> s[k] == 0
    ensures Sum(s) == 0
  {
    if |s| > 0 {
      SumZeros(s[..|s| - 1]);
    }
  }
}
