/** Properties of the generation step: the exact toroidal neighbour formula,
    agreement with the textbook rule on 0/1 boards, independence from cells
    outside the grid, and what is preserved over any number of generations. */
module Evolution {
  import opened Uint3
  import opened Rules
  import opened Torus

  /** Every cell is dead (0) or alive (1). */
  predicate IsBinary(s: seq<Uint3>)
  {
    forall k :: 0 <= k < |s| ==> s[k] <= 1
  }

  /** Every cell is dead. */
  predicate IsExtinct(s: seq<Uint3>)
  {
    forall k :: 0 <= k < |s| ==> s[k] == 0
  }

  /** Two boards of nx * ny cells that agree at every (row, column) are equal. */
  lemma BoardsAgree(a: seq<Uint3>, b: seq<Uint3>, nx: nat, ny: nat)
    requires |a| == nx * ny && |b| == nx * ny
    requires forall i: nat, j: nat :: i < nx && j < ny ==> a[Index(nx, ny, i, j)] == b[Index(nx, ny, i, j)]
    ensures a == b
  {
    forall k | 0 <= k < nx * ny
      ensures a[k] == b[k]
    {
      RowOfFlatIndex(nx, ny, k);
      IndexDecodes(nx, ny, k / ny, k % ny);
      assert Index(nx, ny, k / ny, k % ny) == k;
    }
  }

  lemma ModPeriod(x: int, n: int)
    requires 0 < n && 0 <= x <= n
    ensures (x + n) % n == x % n
  {
    if x == n {
      assert (n + n) % n == 0 && n % n == 0;
    }
  }

  /** Neighbour k of (i, j) sits at the offset Offsets[k], wrapped modulo the
      dimensions: (i + di) mod nx, (j + dj) mod ny. */
  lemma NeighbourPositionsWrap(nx: nat, ny: nat, i: nat, j: nat)
    requires i < nx && j < ny
    ensures forall k :: 0 <= k < 8 ==>
      NeighbourPositions(nx, ny, i, j)[k].0 == (i + nx + Offsets[k].0) % nx &&
      NeighbourPositions(nx, ny, i, j)[k].1 == (j + ny + Offsets[k].1) % ny
  {
    ModOfSmall(i, nx);
    ModOfSmall(j, ny);
    ModPeriod(i + 1, nx);
    ModPeriod(j + 1, ny);
  }

  /** Cell (0, 0) reads the opposite corner (nx - 1, ny - 1), the last cell of
      the grid, as its first neighbour. */
  lemma CornerSeesOppositeCorner(s: seq<Uint3>, nx: nat, ny: nat)
    requires 0 < nx && 0 < ny && nx * ny <= |s|
    ensures NeighbourPositions(nx, ny, 0, 0)[0] == (nx - 1, ny - 1)
    ensures Neighbours(s, nx, ny, 0, 0)[0] == s[nx * ny - 1]
  {
    assert (nx - 1) * ny + (ny - 1) == nx * ny - 1;
  }

  /** Whatever values the cells hold, the next generation holds only 0 and 1. */
  lemma GenerationIsBinary(s: seq<Uint3>, nx: nat, ny: nat)
    requires nx * ny <= |s|
    ensures IsBinary(Generation(s, nx, ny))
  {
    var r := Generation(s, nx, ny);
    forall k | 0 <= k < |r|
      ensures r[k] <= 1
    {
      RowOfFlatIndex(nx, ny, k);
      var i, j := k / ny, k % ny;
      IndexDecodes(nx, ny, i, j);
      assert Index(nx, ny, i, j) == k;
    }
  }

  /** When the whole rows of a board hold only 0 and 1 (a trailing incomplete
      row may hold anything), each cell of the next generation follows the
      textbook rule applied to the true number of live neighbours. */
  lemma GenerationFollowsLife(s: seq<Uint3>, nx: nat, ny: nat, i: nat, j: nat)
    requires nx * ny <= |s| && IsBinary(s[..nx * ny])
    requires i < nx && j < ny
    ensures Generation(s, nx, ny)[Index(nx, ny, i, j)] ==
      if LifeRule(s[Index(nx, ny, i, j)] == 1, Sum(Neighbours(s, nx, ny, i, j))) then 1 else 0
  {
    var ns := Neighbours(s, nx, ny, i, j);
    forall k | 0 <= k < 8
      ensures ns[k] <= 1
    {
      var p := NeighbourPositions(nx, ny, i, j)[k];
      var q := Index(nx, ny, p.0, p.1);
      assert ns[k] == s[q] == s[..nx * ny][q];
    }
    var c := Index(nx, ny, i, j);
    assert s[c] == s[..nx * ny][c];
    ModularRuleMatchesTextbook(s[c], ns);
  }

  /** Cells beyond the first nx * ny (a trailing incomplete row left by
      `Board::new`) take no part in the next generation. */
  lemma TrailingCellsIgnored(s: seq<Uint3>, t: seq<Uint3>, nx: nat, ny: nat)
    requires nx * ny <= |s| && nx * ny <= |t|
    requires s[..nx * ny] == t[..nx * ny]
    ensures Generation(s, nx, ny) == Generation(t, nx, ny)
  {
    var gs, gt := Generation(s, nx, ny), Generation(t, nx, ny);
    forall i: nat, j: nat | i < nx && j < ny
      ensures gs[Index(nx, ny, i, j)] == gt[Index(nx, ny, i, j)]
    {
      var ns, nt := Neighbours(s, nx, ny, i, j), Neighbours(t, nx, ny, i, j);
      forall m | 0 <= m < 8
        ensures ns[m] == nt[m]
      {
        var p := NeighbourPositions(nx, ny, i, j)[m];
        var q := Index(nx, ny, p.0, p.1);
        assert s[q] == s[..nx * ny][q] == t[..nx * ny][q] == t[q];
      }
      assert ns == nt;
      var k := Index(nx, ny, i, j);
      assert s[k] == s[..nx * ny][k] == t[..nx * ny][k] == t[k];
    }
    BoardsAgree(gs, gt, nx, ny);
  }

  /** An all-dead board stays all dead after one generation. */
  lemma ExtinctStaysExtinct(s: seq<Uint3>, nx: nat, ny: nat)
    requires nx * ny <= |s| && IsExtinct(s)
    ensures IsExtinct(Generation(s, nx, ny))
  {
    var r := Generation(s, nx, ny);
    forall k | 0 <= k < |r|
      ensures r[k] == 0
    {
      RowOfFlatIndex(nx, ny, k);
      var i, j := k / ny, k % ny;
      IndexDecodes(nx, ny, i, j);
      assert Index(nx, ny, i, j) == k;
      var ns := Neighbours(s, nx, ny, i, j);
      forall m | 0 <= m < 8
        ensures ns[m] == 0
      {
        var p := NeighbourPositions(nx, ny, i, j)[m];
        assert ns[m] == s[Index(nx, ny, p.0, p.1)];
      }
      SumOfZeros(ns);
    }
  }

  /** An all-dead board stays all dead for any number of generations. */
  lemma {:induction false} ExtinctionIsPermanent(s: seq<Uint3>, nx: nat, ny: nat, n: nat)
    requires nx * ny <= |s| && IsExtinct(s)
    ensures IsExtinct(Generations(s, nx, ny, n))
    decreases n
  {
    if n > 0 {
      ExtinctStaysExtinct(s, nx, ny);
      ExtinctionIsPermanent(Generation(s, nx, ny), nx, ny, n - 1);
    }
  }

  /** A 0/1 board stays a 0/1 board for any number of generations. */
  lemma {:induction false} BinaryStaysBinary(s: seq<Uint3>, nx: nat, ny: nat, n: nat)
    requires nx * ny <= |s| && IsBinary(s)
    ensures IsBinary(Generations(s, nx, ny, n))
    decreases n
  {
    if n > 0 {
      GenerationIsBinary(s, nx, ny);
      BinaryStaysBinary(Generation(s, nx, ny), nx, ny, n - 1);
    }
  }

  /** `Generations` unfolds from the last step as well: n + 1 generations are
      one generation after n. */
  lemma {:induction false} GenerationsLast(s: seq<Uint3>, nx: nat, ny: nat, n: nat)
    requires nx * ny <= |s|
    ensures nx * ny <= |Generations(s, nx, ny, n)|
    ensures Generations(s, nx, ny, n + 1) == Generation(Generations(s, nx, ny, n), nx, ny)
    decreases n
  {
    if n > 0 {
      GenerationsLast(Generation(s, nx, ny), nx, ny, n - 1);
    }
  }

  /** The program's main loop: `update` called n times in a row leaves the
      board holding the n-th generation of its starting cells, so every
      property proved about `Generations` holds for the board; the scratch
      buffer holds the generation before it. */
  method UpdateTimes(b: Board, n: nat)
    requires b.Valid()
    modifies b
    ensures b.Valid() && b.dimensions == old(b.dimensions)
    ensures b.states == Generations(old(b.states), b.dimensions.0, b.dimensions.1, n)
    ensures n > 0 ==> b.newStates == Generations(old(b.states), b.dimensions.0, b.dimensions.1, n - 1)
  {
    var count := 0;
    while count < n
      invariant count <= n
      invariant b.Valid() && b.dimensions == old(b.dimensions)
      invariant b.states == Generations(old(b.states), b.dimensions.0, b.dimensions.1, count)
      invariant count > 0 ==> b.newStates == Generations(old(b.states), b.dimensions.0, b.dimensions.1, count - 1)
    {
      GenerationsLast(old(b.states), b.dimensions.0, b.dimensions.1, count);
      b.Update();
      count := count + 1;
    }
  }
}
