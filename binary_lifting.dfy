/** `BinaryLiftingTable`: jump pointers for k-th ancestor queries in a
    forest whose nodes are numbered so that every node is indexised after
    its parent.  Row x, level l of the table is the node 2^l parent edges
    above x, or `nil` once that walk leaves the tree.  The parent relation
    the caller has supplied is kept as a ghost map; `Ancestor` walks it. */
module BinaryLifting {
  import opened Optional
  import opened Bits

  // ---------------------------------------------------------------------
  // The parent relation

  /** The node k parent edges above x, if the walk stays in the relation. */
  ghost function Ancestor(p: map<int, int>, x: int, k: nat): Option<int>
    decreases k
  {
    if k == 0 then Some(x)
    else if x in p then Ancestor(p, p[x], k - 1)
    else None
  }

  /** Every parent precedes its child, and no index is negative. */
  ghost predicate Ordered(p: map<int, int>)
  {
    forall x :: x in p ==> 0 <= p[x] < x
  }

  /** Walking a + b edges is walking a edges, then b more. */
  lemma {:induction false} AncestorAdd(p: map<int, int>, x: int, a: nat, b: nat)
    ensures Ancestor(p, x, a + b) ==
      if Ancestor(p, x, a).Some? then Ancestor(p, Ancestor(p, x, a).value, b) else None
    decreases a
  {
    if a > 0 && x in p {
      AncestorAdd(p, p[x], a - 1, b);
    }
  }

  /** A walk that has left the tree stays out of it. */
  lemma AncestorNoneLater(p: map<int, int>, x: int, a: nat, b: nat)
    requires a <= b && Ancestor(p, x, a).None?
    ensures Ancestor(p, x, b).None?
  {
    AncestorAdd(p, x, a, b - a);
  }

  /** Recording the parent of a new node y does not change a walk that
      already succeeded. */
  lemma {:induction false} AncestorKept(p: map<int, int>, y: int, q: int, x: int, k: nat)
    requires y !in p && Ancestor(p, x, k).Some?
    ensures Ancestor(p[y := q], x, k) == Ancestor(p, x, k)
    decreases k
  {
    if k > 0 {
      AncestorKept(p, y, q, p[x], k - 1);
    }
  }

  /** When parents precede children, a walk from below the new node y, or
      from a node without a parent, does not change at all. */
  lemma {:induction false} AncestorBelow(p: map<int, int>, y: int, q: int, x: int, k: nat)
    requires y !in p && Ordered(p)
    requires x != y && (x < y || x !in p)
    ensures Ancestor(p[y := q], x, k) == Ancestor(p, x, k)
    decreases k
  {
    if k > 0 && x in p {
      AncestorBelow(p, y, q, p[x], k - 1);
    }
  }

  /** When parents precede children, every proper ancestor lies below. */
  lemma {:induction false} AncestorDescends(p: map<int, int>, x: int, k: nat)
    requires Ordered(p) && k >= 1 && Ancestor(p, x, k).Some?
    ensures 0 <= Ancestor(p, x, k).value < x
    decreases k
  {
    if k > 1 {
      AncestorDescends(p, p[x], k - 1);
    }
  }

  /** The second test tree: node 10 hangs at depth 6 below the root 0. */
  lemma TestTreeAncestors(p: map<int, int>)
    requires p == map[1 := 0, 2 := 1, 3 := 0, 4 := 1, 5 := 0, 6 := 5, 7 := 4, 8 := 7, 9 := 8, 10 := 9, 11 := 7]
    ensures Ancestor(p, 10, 1) == Some(9) && Ancestor(p, 10, 2) == Some(8) && Ancestor(p, 10, 3) == Some(7)
    ensures Ancestor(p, 10, 4) == Some(4) && Ancestor(p, 10, 5) == Some(1) && Ancestor(p, 10, 6) == Some(0)
    ensures Ancestor(p, 10, 7) == None
  {
    AncestorAdd(p, 10, 3, 4);
    AncestorAdd(p, 7, 3, 1);
  }

  // ---------------------------------------------------------------------
  // Bits of the jump count

  lemma {:induction false} MulAtLeast(z: int, d: int)
    requires z >= 1 && d > 0
    ensures z * d >= d
    decreases z
  {
    if z > 1 {
      MulAtLeast(z - 1, d);
      assert z * d == (z - 1) * d + d;
    }
  }

  /** Euclidean division is the only way to write k as a multiple of d plus
      a remainder below d. */
  lemma DivModUnique(k: int, d: int, a: int, b: int)
    requires d > 0 && k == a * d + b && 0 <= b < d
    ensures k / d == a && k % d == b
  {
    var q, r := k / d, k % d;
    assert k == q * d + r;
    if a < q {
      assert (q - a) * d == q * d - a * d;
      MulAtLeast(q - a, d);
    } else if a > q {
      assert (a - q) * d == a * d - q * d;
      MulAtLeast(a - q, d);
    }
  }

  /** Bit i of k, as `(1 << i) & k != 0` tests it; on a negative k this is
      the bit of its two's complement. */
  function Bit(k: int, i: nat): int
  {
    (k / Pow2(i)) % 2
  }

  /** The low i + 1 bits are the low i bits and bit i. */
  lemma ModStep(k: int, i: nat)
    ensures k % Pow2(i + 1) == k % Pow2(i) + Bit(k, i) * Pow2(i)
  {
    var d := Pow2(i);
    var q, r := k / d, k % d;
    assert k == q * d + r;
    assert q == 2 * (q / 2) + q % 2;
    assert k == (q / 2) * (2 * d) + (q % 2 * d + r) by {
      assert q * d == (2 * (q / 2) + q % 2) * d;
    }
    assert 0 <= q % 2 * d + r < 2 * d;
    DivModUnique(k, 2 * d, q / 2, q % 2 * d + r);
  }

  lemma {:induction false} ModGrows(k: int, j: nat, m: nat)
    requires j <= m
    ensures k % Pow2(j) <= k % Pow2(m)
    decreases m
  {
    if j < m {
      ModGrows(k, j, m - 1);
      ModStep(k, m - 1);
      assert Bit(k, m - 1) * Pow2(m - 1) >= 0;
    }
  }

  /** The hops `getAncestor` has taken once it has handled every bit of k
      from m - 1 down to j: the bits of k between j and m. */
  ghost function Hops(k: int, j: nat, m: nat): nat
    requires j <= m
  {
    ModGrows(k, j, m);
    k % Pow2(m) - k % Pow2(j)
  }

  /** A set bit adds its jump to the walk. */
  lemma HopTaken(p: map<int, int>, x: int, k: int, i: nat, m: nat, current: int)
    requires i < m && Bit(k, i) == 1
    requires Ancestor(p, x, Hops(k, i + 1, m)) == Some(current)
    ensures Ancestor(p, x, Hops(k, i, m)) == Ancestor(p, current, Pow2(i))
  {
    ModStep(k, i);
    AncestorAdd(p, x, Hops(k, i + 1, m), Pow2(i));
  }

  /** A clear bit adds nothing. */
  lemma HopSkipped(k: int, i: nat, m: nat)
    requires i < m && Bit(k, i) != 1
    ensures Hops(k, i, m) == Hops(k, i + 1, m)
  {
    ModStep(k, i);
  }

  /** A walk that has left the tree before all its bits are taken never
      reaches the full k modulo 2^m edges. */
  lemma HopsLeft(p: map<int, int>, x: int, k: int, i: nat, m: nat)
    requires i <= m && Ancestor(p, x, Hops(k, i, m)).None?
    ensures Ancestor(p, x, k % Pow2(m)).None?
  {
    AncestorNoneLater(p, x, Hops(k, i, m), k % Pow2(m));
  }

  /** With every bit handled the walk is k modulo 2^m edges long. */
  lemma HopsAll(k: int, m: nat)
    ensures Hops(k, 0, m) == k % Pow2(m)
  {
  }

  // ---------------------------------------------------------------------
  // The table

  /** `makeNewJumpPointsRow()`: maxJumps `nil` entries. */
  function NilRow(m: nat): (r: seq<Option<int>>)
    ensures |r| == m && forall l :: 0 <= l < m ==> r[l].None?
  {
    seq(m, _ => None)
  }

  /** The table after `ensureTableSize(for: index)`: empty rows appended
      until index is a row. */
  function Grown(t: seq<seq<Option<int>>>, index: int, m: nat): (r: seq<seq<Option<int>>>)
    ensures |r| == if |t| < index + 1 then index + 1 else |t|
    ensures r[..|t|] == t
    ensures forall x :: |t| <= x < |r| ==> r[x] == NilRow(m)
  {
    if |t| < index + 1 then t + seq(index + 1 - |t|, _ => NilRow(m)) else t
  }

  /** What row x of a table with n rows holds: entries that are set are
      ancestors; once an entry is `nil` so is every later one; with more
      than one level every entry is a row of the table; a node never
      indexised has an empty row; and when parents precede children each
      entry is exactly the 2^l-th ancestor. */
  ghost predicate RowOk(row: seq<Option<int>>, n: int, p: map<int, int>, x: int, m: int, ord: bool)
  {
    |row| == m &&
    (forall l :: 0 <= l < m && row[l].Some? ==> row[l] == Ancestor(p, x, Pow2(l))) &&
    (forall l, l' :: 0 <= l <= l' < m && row[l].None? ==> row[l'].None?) &&
    (m > 1 ==> forall l :: 0 <= l < m && row[l].Some? ==> 0 <= row[l].value < n) &&
    (x !in p ==> forall l :: 0 <= l < m ==> row[l].None?) &&
    (ord ==> forall l :: 0 <= l < m ==> row[l] == Ancestor(p, x, Pow2(l)))
  }

  ghost predicate IsTable(t: seq<seq<Option<int>>>, p: map<int, int>, m: int, ord: bool)
  {
    m >= 1 &&
    (forall x :: x in p ==> 0 <= x < |t|) &&
    (ord ==> Ordered(p)) &&
    (forall x :: 0 <= x < |t| ==> |t[x]| == m) &&
    (forall x {:trigger RowOk(t[x], |t|, p, x, m, ord)} :: 0 <= x < |t| ==> RowOk(t[x], |t|, p, x, m, ord))
  }

  /** `lastIndexised` is the largest node indexised so far. */
  ghost predicate Indexised(p: map<int, int>, last: Option<int>)
  {
    (last.None? ==> p == map[]) &&
    (last.Some? ==> last.value in p && forall y :: y in p ==> y <= last.value)
  }

  /** `powerOf2JumpsForTreeLevels(_:)`: the bit length of levels - 1, the
      fewest levels whose jumps add up to a walk of levels - 1 edges; `nil`
      when levels - 1 has no set bit. */
  function PowerOf2JumpsForTreeLevels(levels: int): (r: Option<int>)
    ensures r.Some? <==> levels > 1
    ensures r.Some? ==> r.value >= 1 && Pow2(r.value - 1) <= levels - 1 < Pow2(r.value)
  {
    match MSBIndex(levels - 1)
    case None => None
    case Some(i) => Some(i + 1)
  }

  /** The two trees of the tests: 4 levels need 2 jumps, 7 levels 3. */
  lemma JumpsForTestTrees()
    ensures PowerOf2JumpsForTreeLevels(4) == Some(2)
    ensures PowerOf2JumpsForTreeLevels(7) == Some(3)
  {
  }

  /** Appending an empty row keeps the table well formed. */
  lemma AppendNilRow(t: seq<seq<Option<int>>>, p: map<int, int>, m: nat, ord: bool)
    requires IsTable(t, p, m, ord)
    ensures IsTable(t + [NilRow(m)], p, m, ord)
  {
    var t' := t + [NilRow(m)];
    forall x | 0 <= x < |t'|
      ensures RowOk(t'[x], |t'|, p, x, m, ord)
    {
      if x < |t| {
        assert t'[x] == t[x];
        assert RowOk(t[x], |t|, p, x, m, ord);
      }
    }
  }

  /** A row other than the new node's stays well formed once the new
      node's parent is recorded. */
  lemma RowKept(row: seq<Option<int>>, n: int, n': int, p: map<int, int>, y: int, q: int, x: int, m: int, ord: bool, ord': bool)
    requires RowOk(row, n, p, x, m, ord) && n <= n'
    requires y !in p && x != y && (x < y || x !in p)
    requires ord' ==> ord && Ordered(p) && 0 <= q < y
    ensures RowOk(row, n', p[y := q], x, m, ord')
  {
    forall l | 0 <= l < m && row[l].Some?
      ensures row[l] == Ancestor(p[y := q], x, Pow2(l))
    {
      AncestorKept(p, y, q, x, Pow2(l));
    }
    if ord' {
      forall l | 0 <= l < m
        ensures row[l] == Ancestor(p[y := q], x, Pow2(l))
      {
        AncestorBelow(p, y, q, x, Pow2(l));
      }
    }
  }

  /** The state of `indexise`'s level loop at level i: every other row is
      well formed and the levels of row index below i are set to the
      ancestors, the others still `nil`. */
  ghost predicate Filling(t: seq<seq<Option<int>>>, p: map<int, int>, m: int, ord: bool, index: int, i: int)
  {
    1 <= i <= m && 0 <= index < |t| && |t[index]| == m && index in p &&
    (forall x :: x in p ==> 0 <= x < |t|) &&
    (ord ==> Ordered(p)) &&
    (forall x :: 0 <= x < |t| ==> |t[x]| == m) &&
    (forall x {:trigger RowOk(t[x], |t|, p, x, m, ord)} :: 0 <= x < |t| && x != index ==> RowOk(t[x], |t|, p, x, m, ord)) &&
    (forall l :: 0 <= l < i ==> t[index][l].Some? && t[index][l] == Ancestor(p, index, Pow2(l))) &&
    (forall l :: i <= l < m ==> t[index][l].None?) &&
    (m > 1 ==> forall l :: 0 <= l < i ==> 0 <= t[index][l].value < |t|)
  }

  /** Level 0 of the new row is the parent. */
  lemma FillStart(t: seq<seq<Option<int>>>, p: map<int, int>, m: int, ord: bool, index: int, q: int, ord': bool)
    requires IsTable(t, p, m, ord)
    requires 0 <= index < |t| && index !in p && forall y :: y in p ==> y < index
    requires m > 1 ==> 0 <= q < |t|
    requires ord' == (ord && 0 <= q < index)
    ensures Filling(t[index := t[index][0 := Some(q)]], p[index := q], m, ord', index, 1)
  {
    var t', p' := t[index := t[index][0 := Some(q)]], p[index := q];
    forall x | 0 <= x < |t'| && x != index
      ensures RowOk(t'[x], |t'|, p', x, m, ord')
    {
      assert RowOk(t[x], |t|, p, x, m, ord);
      RowKept(t[x], |t|, |t'|, p, index, q, x, m, ord, ord');
    }
    assert RowOk(t[index], |t|, p, index, m, ord);
    assert Ancestor(p', q, 0) == Some(q);
    assert Ancestor(p', index, Pow2(0)) == Some(q);
  }

  /** The 2^i-th ancestor is the 2^(i-1)-th ancestor of the 2^(i-1)-th. */
  lemma AncestorDouble(p: map<int, int>, x: int, i: nat, a: int)
    requires i >= 1 && Ancestor(p, x, Pow2(i - 1)) == Some(a)
    ensures Ancestor(p, x, Pow2(i)) == Ancestor(p, a, Pow2(i - 1))
  {
    AncestorAdd(p, x, Pow2(i - 1), Pow2(i - 1));
  }

  /** One round of the level loop: the entry below is set and names a row
      of the table; the entry it names there, when set, is the next jump
      and a row of the table, and when it is `nil` (with parents before
      children) so is the walk. */
  lemma FillJump(t: seq<seq<Option<int>>>, p: map<int, int>, m: int, ord: bool, index: int, i: int)
    requires Filling(t, p, m, ord, index, i) && i < m
    ensures t[index][i - 1].Some? && 0 <= t[index][i - 1].value < |t|
    ensures |t[t[index][i - 1].value]| == m
    ensures var v := t[t[index][i - 1].value][i - 1];
      (v.Some? ==> v == Ancestor(p, index, Pow2(i)) && 0 <= v.value < |t|) &&
      (v.None? && ord ==> Ancestor(p, index, Pow2(i)).None?)
  {
    var h := Pow2(i - 1);
    assert t[index][i - 1] == Ancestor(p, index, h);
    var a := t[index][i - 1].value;
    AncestorDouble(p, index, i, a);
    if a == index {
      assert t[a][i - 1] == Some(index);
    } else {
      assert RowOk(t[a], |t|, p, a, m, ord);
      var v := t[a][i - 1];
      if v.Some? {
        assert v == Ancestor(p, a, h);
      } else if ord {
        assert v == Ancestor(p, a, h);
      }
    }
  }

  /** Writing the next jump moves the loop one level up. */
  lemma FillWrite(t: seq<seq<Option<int>>>, p: map<int, int>, m: int, ord: bool, index: int, i: int, v: Option<int>)
    requires Filling(t, p, m, ord, index, i) && i < m
    requires v.Some? && v == Ancestor(p, index, Pow2(i)) && 0 <= v.value < |t|
    ensures Filling(t[index := t[index][i := v]], p, m, ord, index, i + 1)
  {
    var t' := t[index := t[index][i := v]];
    forall x | 0 <= x < |t'| && x != index
      ensures RowOk(t'[x], |t'|, p, x, m, ord)
    {
      assert t'[x] == t[x];
    }
  }

  /** The loop has stopped: at the last level, or at a `nil` jump. */
  lemma FillDone(t: seq<seq<Option<int>>>, p: map<int, int>, m: int, ord: bool, index: int, i: int)
    requires Filling(t, p, m, ord, index, i)
    requires i == m || (ord ==> Ancestor(p, index, Pow2(i)).None?)
    ensures IsTable(t, p, m, ord)
  {
    if ord {
      forall l | i <= l < m
        ensures t[index][l] == Ancestor(p, index, Pow2(l))
      {
        Pow2Monotone(i, l);
        AncestorNoneLater(p, index, Pow2(i), Pow2(l));
      }
    }
    assert RowOk(t[index], |t|, p, index, m, ord);
  }

  class BinaryLiftingTable {
    var table: seq<seq<Option<int>>>
    const treeLevels: int
    const maxJumps: int
    var lastIndexised: Option<int>
    /** The parent of every node indexised so far. */
    ghost var parents: map<int, int>
    /** Whether every parent was indexised before its child, so that the
        table holds every ancestor and not only correct ones. */
    ghost var ordered: bool

    ghost predicate Valid()
      reads this
    {
      treeLevels > 1 &&
      PowerOf2JumpsForTreeLevels(treeLevels) == Some(maxJumps) &&
      IsTable(table, parents, maxJumps, ordered) &&
      Indexised(parents, lastIndexised)
    }

    /** `init(treeLevels:nodes:)`: no relation yet; with a node count the
        table starts with that many empty rows. */
    constructor (treeLevels: int, nodes: Option<int>)
      requires treeLevels > 1
      ensures Valid()
      ensures this.treeLevels == treeLevels
      ensures Pow2(maxJumps - 1) <= treeLevels - 1 < Pow2(maxJumps)
      ensures lastIndexised == None && parents == map[] && ordered
      ensures |table| == if nodes.Some? && nodes.value > 0 then nodes.value else 0
      ensures forall x :: 0 <= x < |table| ==> table[x] == NilRow(maxJumps)
    {
      this.treeLevels := treeLevels;
      this.maxJumps := PowerOf2JumpsForTreeLevels(treeLevels).value;
      this.table := [];
      this.lastIndexised := None;
      this.parents := map[];
      this.ordered := true;
      new;
      if nodes.Some? {
        EnsureTableSize(nodes.value - 1);
      }
    }

    /** `ensureTableSize(for:)`: appends empty rows until index is a row. */
    method EnsureTableSize(index: int)
      requires Valid()
      modifies this
      ensures Valid()
      ensures table == Grown(old(table), index, maxJumps)
      ensures parents == old(parents) && ordered == old(ordered) && lastIndexised == old(lastIndexised)
    {
      if !(|table| < index + 1) {
        return;
      }
      var j := |table|;
      while j < index + 1
        invariant |old(table)| <= j <= index + 1
        invariant table == Grown(old(table), j - 1, maxJumps)
        invariant parents == old(parents) && ordered == old(ordered) && lastIndexised == old(lastIndexised)
        invariant Valid()
      {
        AppendNilRow(table, parents, maxJumps, ordered);
        table := table + [NilRow(maxJumps)];
        j := j + 1;
      }
    }

    /** `indexise(index:parentIndex:)`: records the parent of a node past
        every node indexised so far and fills the node's row level by
        level, each jump taken from the row the jump below lands on, until
        a jump is `nil` or the levels run out.  The jump rows are read
        only when there is more than one level, and then the parent must
        be a row of the grown table. */
    method Indexise(index: int, parentIndex: int)
      requires Valid()
      requires lastIndexised.GetOr(-1) < index
      requires maxJumps > 1 ==> 0 <= parentIndex < (if |table| < index + 1 then index + 1 else |table|)
      modifies this
      ensures Valid()
      ensures lastIndexised == Some(index)
      ensures parents == old(parents)[index := parentIndex]
      ensures ordered == (old(ordered) && 0 <= parentIndex < index)
      ensures table == Grown(old(table), index, maxJumps)[index := table[index]]
      ensures table[index][0] == Some(parentIndex)
      ensures forall l :: 0 <= l < maxJumps && table[index][l].Some? ==> table[index][l] == Ancestor(parents, index, Pow2(l))
      ensures ordered ==> forall l :: 0 <= l < maxJumps ==> table[index][l] == Ancestor(parents, index, Pow2(l))
    {
      EnsureTableSize(index);
      table := FillRow(table, parents, maxJumps, ordered, index, parentIndex);
      parents := parents[index := parentIndex];
      ordered := ordered && 0 <= parentIndex < index;
      lastIndexised := Some(index);
    }

    /** The row `indexise` writes: level 0 is the parent, and each later
        level is the jump of the level below taken from the row it lands
        on, until a jump is `nil` or the levels run out.  No other row
        changes. */
    static method FillRow(t0: seq<seq<Option<int>>>, ghost p: map<int, int>, m: int, ghost ord: bool, index: int, q: int)
      returns (t: seq<seq<Option<int>>>)
      requires IsTable(t0, p, m, ord)
      requires 0 <= index < |t0| && index !in p && forall y :: y in p ==> y < index
      requires m > 1 ==> 0 <= q < |t0|
      ensures IsTable(t, p[index := q], m, ord && 0 <= q < index)
      ensures |t| == |t0| && |t[index]| == m
      ensures t == t0[index := t[index]] && t[index][0] == Some(q)
      ensures forall l :: 0 <= l < m && t[index][l].Some? ==> t[index][l] == Ancestor(p[index := q], index, Pow2(l))
      ensures ord && 0 <= q < index ==> forall l :: 0 <= l < m ==> t[index][l] == Ancestor(p[index := q], index, Pow2(l))
    {
      ghost var p' := p[index := q];
      ghost var ord' := ord && 0 <= q < index;
      FillStart(t0, p, m, ord, index, q, ord');
      t := t0[index := t0[index][0 := Some(q)]];
      var i := 1;
      while i < m
        invariant Filling(t, p', m, ord', index, i)
        invariant t == t0[index := t[index]] && t[index][0] == Some(q)
      {
        FillJump(t, p', m, ord', index, i);
        var v := t[t[index][i - 1].value][i - 1];
        if v.None? {
          break;
        }
        FillWrite(t, p', m, ord', index, i, v);
        t := t[index := t[index][i := v]];
        i := i + 1;
      }
      FillDone(t, p', m, ord', index, i);
      assert RowOk(t[index], |t|, p', index, m, ord');
    }

    /** `getAncestor(_:of:)`: `nil` past the deepest level; otherwise the
        bits of k from the highest level down pick the jumps, and a `nil`
        jump ends the walk with `nil`.  The bits are those of k's two's
        complement, so the walk is k modulo 2^maxJumps edges long. */
    method GetAncestor(k: int, index: int) returns (r: Option<int>)
      requires Valid()
      requires 0 <= index < |table|
      ensures k > treeLevels - 1 ==> r == None
      ensures k <= treeLevels - 1 && (r.Some? || ordered) ==> r == Ancestor(parents, index, k % Pow2(maxJumps))
      ensures 0 <= k <= treeLevels - 1 && (r.Some? || ordered) ==> r == Ancestor(parents, index, k)
      ensures ordered && 1 <= k && r.Some? ==> 0 <= r.value < index
    {
      if !(k <= treeLevels - 1) {
        return None;
      }
      if 0 <= k {
        DivModUnique(k, Pow2(maxJumps), 0, k);
      }
      var current := index;
      var i := maxJumps - 1;
      while i >= 0
        invariant -1 <= i < maxJumps
        invariant i >= 0 ==> 0 <= current < |table|
        invariant Ancestor(parents, index, Hops(k, i + 1, maxJumps)) == Some(current)
      {
        if Bit(k, i) == 1 {
          HopTaken(parents, index, k, i, maxJumps, current);
          assert RowOk(table[current], |table|, parents, current, maxJumps, ordered);
          var next := table[current][i];
          if next.None? {
            if ordered {
              HopsLeft(parents, index, k, i, maxJumps);
            }
            return None;
          }
          current := next.value;
        } else {
          HopSkipped(k, i, maxJumps);
        }
        i := i - 1;
      }
      HopsAll(k, maxJumps);
      if ordered && 1 <= k {
        AncestorDescends(parents, index, k);
      }
      return Some(current);
    }
  }
}
