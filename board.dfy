/** The toroidal board: a row-major grid of 3-bit cells with its dimensions,
    and the generation step that recomputes every cell from its eight
    periodically wrapped neighbours. */
module Torus {
  import opened Uint3
  import opened Rules

  lemma ModOfSmall(x: int, n: int)
    requires 0 <= x < n
    ensures x % n == x && (x + n) % n == x
  {
  }

  lemma MulStrict(a: int, b: int, n: int)
    requires n > 0 && a * n < b * n
    ensures a < b
  {
  }

  /** Row above (or column to the left), wrapping from 0 to n - 1. */
  function Prev(i: nat, n: nat): (r: nat)
    requires i < n
    ensures r < n && r == (i + n - 1) % n
  {
    if i == 0 then ModOfSmall(n - 1, n); n - 1 else ModOfSmall(i - 1, n); i - 1
  }

  /** Row below (or column to the right), wrapping from n - 1 to 0. */
  function Next(i: nat, n: nat): (r: nat)
    requires i < n
    ensures r < n && r == (i + 1) % n
  {
    if i == n - 1 then 0 else ModOfSmall(i + 1, n); i + 1
  }

  lemma RowBelowFits(nx: nat, ny: nat, i: nat)
    requires i < nx
    ensures i * ny + ny <= nx * ny
  {
    assert i * ny + ny == (i + 1) * ny;
  }

  /** Position of cell (i, j) in the row-major sequence: every cell of an
      nx-by-ny board lies below nx * ny. */
  function Index(nx: nat, ny: nat, i: nat, j: nat): (k: nat)
    requires i < nx && j < ny
    ensures k < nx * ny
  {
    RowBelowFits(nx, ny, i);
    i * ny + j
  }

  /** Distinct cells have distinct positions: a position decodes back to its
      row and column. */
  lemma IndexDecodes(nx: nat, ny: nat, i: nat, j: nat)
    requires i < nx && j < ny
    ensures Index(nx, ny, i, j) / ny == i && Index(nx, ny, i, j) % ny == j
  {
    var k := i * ny + j;
    var q, r := k / ny, k % ny;
    assert k == q * ny + r;
    assert (i + 1) * ny == i * ny + ny;
    assert (q + 1) * ny == q * ny + ny;
    MulStrict(q, i + 1, ny);
    MulStrict(i, q + 1, ny);
  }

  lemma IndexDecodesEverywhere(nx: nat, ny: nat)
    ensures forall i: nat, j: nat :: i < nx && j < ny ==>
      Index(nx, ny, i, j) / ny == i && Index(nx, ny, i, j) % ny == j
  {
    forall i: nat, j: nat | i < nx && j < ny
      ensures Index(nx, ny, i, j) / ny == i && Index(nx, ny, i, j) % ny == j
    {
      IndexDecodes(nx, ny, i, j);
    }
  }

  /** The eight neighbour offsets, in the order the update reads them. */
  const Offsets: seq<(int, int)> :=
    [(-1, -1), (-1, 0), (-1, 1), (0, -1), (0, 1), (1, -1), (1, 0), (1, 1)]

  /** The coordinates of the eight neighbours of (i, j), in reading order
      n1 .. n8. */
  function NeighbourPositions(nx: nat, ny: nat, i: nat, j: nat): (r: seq<(nat, nat)>)
    requires i < nx && j < ny
    ensures |r| == 8
    ensures forall k :: 0 <= k < 8 ==> r[k].0 < nx && r[k].1 < ny
  {
    var im, ip, jm, jp := Prev(i, nx), Next(i, nx), Prev(j, ny), Next(j, ny);
    [(im, jm), (im, j), (im, jp), (i, jm), (i, jp), (ip, jm), (ip, j), (ip, jp)]
  }

  /** The values of the eight neighbours, read from generation `s`. */
  function Neighbours(s: seq<Uint3>, nx: nat, ny: nat, i: nat, j: nat): (r: seq<Uint3>)
    requires nx * ny <= |s| && i < nx && j < ny
    ensures |r| == 8
    ensures forall k :: 0 <= k < 8 ==>
      var p := NeighbourPositions(nx, ny, i, j)[k]; r[k] == s[Index(nx, ny, p.0, p.1)]
  {
    var p := NeighbourPositions(nx, ny, i, j);
    [s[Index(nx, ny, p[0].0, p[0].1)], s[Index(nx, ny, p[1].0, p[1].1)],
     s[Index(nx, ny, p[2].0, p[2].1)], s[Index(nx, ny, p[3].0, p[3].1)],
     s[Index(nx, ny, p[4].0, p[4].1)], s[Index(nx, ny, p[5].0, p[5].1)],
     s[Index(nx, ny, p[6].0, p[6].1)], s[Index(nx, ny, p[7].0, p[7].1)]]
  }

  /** Next state of cell (i, j), computed from generation `s` only. */
  function CellNext(s: seq<Uint3>, nx: nat, ny: nat, i: nat, j: nat): Uint3
    requires nx * ny <= |s| && i < nx && j < ny
  {
    AliveFromCount(s[Index(nx, ny, i, j)], Sum(Neighbours(s, nx, ny, i, j)) % 8)
  }

  lemma RowOfFlatIndex(nx: nat, ny: nat, k: nat)
    requires k < nx * ny
    ensures ny > 0 && k / ny < nx
  {
  }

  function CellNextAt(s: seq<Uint3>, nx: nat, ny: nat, k: nat): Uint3
    requires nx * ny <= |s| && k < nx * ny
  {
    RowOfFlatIndex(nx, ny, k);
    CellNext(s, nx, ny, k / ny, k % ny)
  }

  /** The next generation of an nx-by-ny board held in `s`: every one of the
      nx * ny cells in row-major order, each computed from `s` alone; cells of
      `s` beyond the first nx * ny take no part. */
  function Generation(s: seq<Uint3>, nx: nat, ny: nat): (r: seq<Uint3>)
    requires nx * ny <= |s|
    ensures |r| == nx * ny
    ensures forall i: nat, j: nat {:trigger r[Index(nx, ny, i, j)]} :: i < nx && j < ny ==>
      r[Index(nx, ny, i, j)] == CellNext(s, nx, ny, i, j)
  {
    IndexDecodesEverywhere(nx, ny);
    seq(nx * ny, k requires 0 <= k < nx * ny => CellNextAt(s, nx, ny, k))
  }

  /** `n` successive generations. */
  function Generations(s: seq<Uint3>, nx: nat, ny: nat, n: nat): (r: seq<Uint3>)
    requires nx * ny <= |s|
    ensures n > 0 ==> |r| == nx * ny
    decreases n
  {
    if n == 0 then s else Generations(Generation(s, nx, ny), nx, ny, n - 1)
  }

  lemma PrefixExtend(s: seq<Uint3>, k: nat)
    requires k < |s|
    ensures s[..k + 1] == s[..k] + [s[k]]
  {
  }

  /** The eight reads of the update, at the wrapped rows and columns, are the
      neighbours of (i, j), and the next generation's cell is the rule applied
      to them. */
  lemma NextCellFromReads(s: seq<Uint3>, nx: nat, ny: nat, i: nat, j: nat)
    requires nx * ny <= |s| && i < nx && j < ny
    ensures i * ny + j == Index(nx, ny, i, j)
    ensures var im, ip, jm, jp := Prev(i, nx), Next(i, nx), Prev(j, ny), Next(j, ny);
      Generation(s, nx, ny)[i * ny + j] == AliveFromCount(s[Index(nx, ny, i, j)], Sum(
        [s[Index(nx, ny, im, jm)], s[Index(nx, ny, im, j)], s[Index(nx, ny, im, jp)],
         s[Index(nx, ny, i, jm)], s[Index(nx, ny, i, jp)],
         s[Index(nx, ny, ip, jm)], s[Index(nx, ny, ip, j)], s[Index(nx, ny, ip, jp)]]) % 8)
  {
    assert Generation(s, nx, ny)[Index(nx, ny, i, j)] == CellNext(s, nx, ny, i, j);
  }

  /** The game board. `states` is the current generation in row-major order;
      `newStates` is the scratch buffer the next generation is built in. */
  class Board {
    var dimensions: (nat, nat)
    var states: seq<Uint3>
    var newStates: seq<Uint3>

    /** Every cell the rows and columns address lies inside `states`. */
    ghost predicate Valid()
      reads this
    {
      dimensions.0 * dimensions.1 <= |states|
    }

    /** `Board::new`: as many whole rows as the cells fill; the cells are
        kept as given, including a trailing incomplete row. Zero columns
        would divide by zero. */
    constructor (nCols: nat, states: seq<Uint3>)
      requires nCols > 0
      ensures Valid()
      ensures dimensions == (|states| / nCols, nCols)
      ensures this.states == states && newStates == []
    {
      WholeRows(|states|, nCols);
      dimensions := (|states| / nCols, nCols);
      this.states := states;
      newStates := [];
    }

    /** `Board::update`: builds the next generation in the scratch buffer
        while reading only the current one, then swaps the two buffers. */
    method Update()
      requires Valid()
      modifies this
      ensures Valid()
      ensures dimensions == old(dimensions)
      ensures states == Generation(old(states), dimensions.0, dimensions.1)
      ensures newStates == old(states)
    {
      newStates := [];
      var nx, ny := dimensions.0, dimensions.1;
      ghost var next := Generation(states, nx, ny);
      for i := 0 to nx
        invariant states == old(states) && dimensions == old(dimensions)
        invariant |newStates| == i * ny
        invariant newStates == next[..i * ny]
      {
        RowBelowFits(nx, ny, i);
        var im, ip := Prev(i, nx), Next(i, nx);
        for j := 0 to ny
          invariant states == old(states) && dimensions == old(dimensions)
          invariant |newStates| == i * ny + j
          invariant newStates == next[..i * ny + j]
        {
          var jm, jp := Prev(j, ny), Next(j, ny);
          // the neighbours, with periodic boundary conditions
          var n1 := states[Index(nx, ny, im, jm)];
          var n2 := states[Index(nx, ny, im, j)];
          var n3 := states[Index(nx, ny, im, jp)];
          var n4 := states[Index(nx, ny, i, jm)];
          var n5 := states[Index(nx, ny, i, jp)];
          var n6 := states[Index(nx, ny, ip, jm)];
          var n7 := states[Index(nx, ny, ip, j)];
          var n8 := states[Index(nx, ny, ip, jp)];
          NextCellFromReads(states, nx, ny, i, j);
          var alive := IsAlive(states[Index(nx, ny, i, j)], [n1, n2, n3, n4, n5, n6, n7, n8]);
          PrefixExtend(next, i * ny + j);
          newStates := newStates + [alive];
        }
        assert (i + 1) * ny == i * ny + ny;
      }
      states, newStates := newStates, states;
    }
  }

  /** `Board::new` keeps exactly the whole rows: fewer than one row of cells
      is left over, and it takes no part in any update. */
  lemma WholeRows(len: nat, cols: nat)
    requires cols > 0
    ensures (len / cols) * cols <= len < (len / cols) * cols + cols
  {
    assert len == (len / cols) * cols + len % cols;
  }
}
