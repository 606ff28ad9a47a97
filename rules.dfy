/** The survival rule of the game: `is_alive` folds the eight neighbour values
    into a wrapping 3-bit counter and combines the count with the cell's own
    value using only equality tests and bitwise operations. */
module Rules {
  import opened Uint3

  /** True (unbounded) sum of the values, folded from the left as the loop does. */
  function Sum(s: seq<Uint3>): nat
  {
    if s == [] then 0 else Sum(s[..|s| - 1]) + s[|s| - 1]
  }

  /** The textbook rule on the true count: a live cell survives with 2 or 3
      live neighbours, a dead cell is born with exactly 3. */
  predicate LifeRule(alive: bool, count: nat)
  {
    if alive then count == 2 || count == 3 else count == 3
  }

  /** `eq(3) | (cell & eq(2))` applied to a (wrapped) count. Whatever the cell
      holds, the result is 0 or 1, and only the cell's lowest bit matters. */
  function AliveFromCount(cell: Uint3, count: Uint3): (r: Uint3)
    ensures r <= 1
    ensures r == 1 <==> count == 3 || (cell % 2 == 1 && count == 2)
  {
    Or(Eq(count, 3), And(cell, Eq(count, 2)))
  }

  /** `is_alive`: the counter starts at 0 and each neighbour is added with
      wrap-around, so the count seen by the rule is the true sum modulo 8. */
  method IsAlive(cell: Uint3, neighbours: seq<Uint3>) returns (r: Uint3)
    ensures r == AliveFromCount(cell, Sum(neighbours) % 8)
    ensures r == 1 <==> Sum(neighbours) % 8 == 3 || (cell % 2 == 1 && Sum(neighbours) % 8 == 2)
  {
    var count: Uint3 := 0;
    for k := 0 to |neighbours|
      invariant count == Sum(neighbours[..k]) % 8
    {
      assert neighbours[..k + 1][..k] == neighbours[..k];
      count := Add(count, neighbours[k]);
    }
    assert neighbours[..|neighbours|] == neighbours;
    r := Or(Eq(count, 3), And(cell, Eq(count, 2)));
  }

  lemma {:induction false} SumConcat(a: seq<Uint3>, b: seq<Uint3>)
    ensures Sum(a + b) == Sum(a) + Sum(b)
    decreases |b|
  {
    if b == [] {
      assert a + b == a;
    } else {
      assert (a + b)[..|a + b| - 1] == a + b[..|b| - 1];
      SumConcat(a, b[..|b| - 1]);
    }
  }

  /** Reordering the neighbours does not change their sum. */
  lemma {:induction false} SumPermutation(a: seq<Uint3>, b: seq<Uint3>)
    requires multiset(a) == multiset(b)
    ensures Sum(a) == Sum(b)
    decreases |a|
  {
    if a != [] {
      var x := a[|a| - 1];
      assert a == a[..|a| - 1] + [x];
      assert x in multiset(b);
      var k :| 0 <= k < |b| && b[k] == x;
      assert b == b[..k] + [x] + b[k + 1..];
      var rest := b[..k] + b[k + 1..];
      assert multiset(rest) == multiset(b) - multiset{x};
      SumPermutation(a[..|a| - 1], rest);
      SumConcat(b[..k] + [x], b[k + 1..]);
      SumConcat(b[..k], [x]);
      SumConcat(b[..k], b[k + 1..]);
      assert Sum([x]) == x by {
        assert [x][..0] == [];
      }
    }
  }

  /** The order of the neighbour slice does not affect `is_alive`: the loop
      is a sum. */
  lemma NeighbourOrderIrrelevant(cell: Uint3, a: seq<Uint3>, b: seq<Uint3>)
    requires multiset(a) == multiset(b)
    ensures AliveFromCount(cell, Sum(a) % 8) == AliveFromCount(cell, Sum(b) % 8)
  {
    SumPermutation(a, b);
  }

  /** Cells that are 0 or 1 sum to at most their number. */
  lemma {:induction false} SumOfBitsBounded(s: seq<Uint3>)
    requires forall k :: 0 <= k < |s| ==> s[k] <= 1
    ensures Sum(s) <= |s|
  {
    if s != [] {
      SumOfBitsBounded(s[..|s| - 1]);
    }
  }

  /** Dead neighbours count to zero. */
  lemma {:induction false} SumOfZeros(s: seq<Uint3>)
    requires forall k :: 0 <= k < |s| ==> s[k] == 0
    ensures Sum(s) == 0
  {
    if s != [] {
      SumOfZeros(s[..|s| - 1]);
    }
  }

  /** For 0/1 cells and eight 0/1 neighbours, the wrapping count still gives
      the textbook rule on the true count 0..8: a count of 8 wraps to 0, and
      neither 8 nor 0 is a count the rule accepts. */
  lemma ModularRuleMatchesTextbook(cell: Uint3, neighbours: seq<Uint3>)
    requires cell <= 1
    requires |neighbours| == 8
    requires forall k :: 0 <= k < 8 ==> neighbours[k] <= 1
    ensures Sum(neighbours) <= 8
    ensures AliveFromCount(cell, Sum(neighbours) % 8) == if LifeRule(cell == 1, Sum(neighbours)) then 1 else 0
  {
    SumOfBitsBounded(neighbours);
  }
}
