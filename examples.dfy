/** Worked examples: the 6-by-6 starting pattern the program runs, followed
    for one generation on the torus. */
module Patterns {
  import opened Uint3
  import opened Rules
  import opened Torus
  import opened Evolution

  /** A 6-by-6 board whose live cells are the given row-major positions. */
  function Board6(live: set<nat>): (r: seq<Uint3>)
    ensures |r| == 36
    ensures forall k :: 0 <= k < 36 ==> r[k] == if k in live then 1 else 0
  {
    seq(36, k => if k in live then 1 else 0)
  }

  /** Live cells of the program's initial configuration, a glider in the
      top-left corner:
        1 0 0 0 0 0
        0 1 1 0 0 0
        1 1 0 0 0 0
      and three empty rows. */
  const InitialLive: set<nat> := {0, 7, 8, 12, 13}

  /** The program's starting vector, row by row. */
  const ProgramStart: seq<Uint3> := [
    1, 0, 0, 0, 0, 0,
    0, 1, 1, 0, 0, 0,
    1, 1, 0, 0, 0, 0,
    0, 0, 0, 0, 0, 0,
    0, 0, 0, 0, 0, 0,
    0, 0, 0, 0, 0, 0]

  /** The initial configuration is exactly the program's starting vector. */
  lemma InitialIsProgramLiteral()
    ensures Board6(InitialLive) == ProgramStart
  {
  }

  /** Live cells of the glider one generation later, by the textbook rule:
        0 1 0 0 0 0
        0 0 1 0 0 0
        1 1 1 0 0 0
      and three empty rows. */
  const AfterOneLive: set<nat> := {1, 8, 12, 13, 14}

  lemma SumOfEight(s: seq<Uint3>)
    requires |s| == 8
    ensures Sum(s) == s[0] as nat + s[1] + s[2] + s[3] + s[4] + s[5] + s[6] + s[7]
  {
    assert s[..1][..0] == [] && s[..8] == s;
    assert Sum(s[..1]) == s[0];
    assert s[..2][..1] == s[..1] && Sum(s[..2]) == Sum(s[..1]) + s[1];
    assert s[..3][..2] == s[..2] && Sum(s[..3]) == Sum(s[..2]) + s[2];
    assert s[..4][..3] == s[..3] && Sum(s[..4]) == Sum(s[..3]) + s[3];
    assert s[..5][..4] == s[..4] && Sum(s[..5]) == Sum(s[..4]) + s[4];
    assert s[..6][..5] == s[..5] && Sum(s[..6]) == Sum(s[..5]) + s[5];
    assert s[..7][..6] == s[..6] && Sum(s[..7]) == Sum(s[..6]) + s[6];
    assert s[..8][..7] == s[..7] && Sum(s[..8]) == Sum(s[..7]) + s[7];
  }

  /** The true number of live neighbours of (i, j), read straight from the
      eight wrapped positions. */
  function WindowCount(s: seq<Uint3>, nx: nat, ny: nat, i: nat, j: nat): nat
    requires nx * ny <= |s| && i < nx && j < ny
  {
    var im, ip, jm, jp := Prev(i, nx), Next(i, nx), Prev(j, ny), Next(j, ny);
    s[Index(nx, ny, im, jm)] as nat + s[Index(nx, ny, im, j)] + s[Index(nx, ny, im, jp)] +
    s[Index(nx, ny, i, jm)] + s[Index(nx, ny, i, jp)] +
    s[Index(nx, ny, ip, jm)] + s[Index(nx, ny, ip, j)] + s[Index(nx, ny, ip, jp)]
  }

  /** The next state of a cell from the count of its window. */
  lemma WindowRule(s: seq<Uint3>, nx: nat, ny: nat, i: nat, j: nat)
    requires nx * ny <= |s| && i < nx && j < ny
    ensures CellNext(s, nx, ny, i, j) == AliveFromCount(s[Index(nx, ny, i, j)], WindowCount(s, nx, ny, i, j) % 8)
  {
    SumOfEight(Neighbours(s, nx, ny, i, j));
  }

  /** Live-neighbour counts along row 0 of the initial pattern. */
  lemma InitialRowCounts0(s: seq<Uint3>)
    requires s == Board6(InitialLive)
    ensures WindowCount(s, 6, 6, 0, 0) == 1
    ensures WindowCount(s, 6, 6, 0, 1) == 3
    ensures WindowCount(s, 6, 6, 0, 2) == 2
    ensures WindowCount(s, 6, 6, 0, 3) == 1
    ensures WindowCount(s, 6, 6, 0, 4) == 0
    ensures WindowCount(s, 6, 6, 0, 5) == 1
  {
    assert s[0] == 1;
    assert s[1] == 0;
    assert s[2] == 0;
    assert s[3] == 0;
    assert s[4] == 0;
    assert s[5] == 0;
    assert s[6] == 0;
    assert s[7] == 1;
    assert s[8] == 1;
    assert s[9] == 0;
    assert s[10] == 0;
    assert s[11] == 0;
    assert s[30] == 0;
    assert s[31] == 0;
    assert s[32] == 0;
    assert s[33] == 0;
    assert s[34] == 0;
    assert s[35] == 0;
  }

  /** Row 0 after one generation. */
  lemma GliderRow0(s: seq<Uint3>)
    requires s == Board6(InitialLive)
    ensures CellNext(s, 6, 6, 0, 0) == 0
    ensures CellNext(s, 6, 6, 0, 1) == 1
    ensures CellNext(s, 6, 6, 0, 2) == 0
    ensures CellNext(s, 6, 6, 0, 3) == 0
    ensures CellNext(s, 6, 6, 0, 4) == 0
    ensures CellNext(s, 6, 6, 0, 5) == 0
  {
    InitialRowCounts0(s);
    assert s[Index(6, 6, 0, 0)] == 1;
    assert s[Index(6, 6, 0, 1)] == 0;
    assert s[Index(6, 6, 0, 2)] == 0;
    assert s[Index(6, 6, 0, 3)] == 0;
    assert s[Index(6, 6, 0, 4)] == 0;
    assert s[Index(6, 6, 0, 5)] == 0;
    WindowRule(s, 6, 6, 0, 0);
    WindowRule(s, 6, 6, 0, 1);
    WindowRule(s, 6, 6, 0, 2);
    WindowRule(s, 6, 6, 0, 3);
    WindowRule(s, 6, 6, 0, 4);
    WindowRule(s, 6, 6, 0, 5);
  }

  /** Live-neighbour counts along row 1 of the initial pattern. */
  lemma InitialRowCounts1(s: seq<Uint3>)
    requires s == Board6(InitialLive)
    ensures WindowCount(s, 6, 6, 1, 0) == 4
    ensures WindowCount(s, 6, 6, 1, 1) == 4
    ensures WindowCount(s, 6, 6, 1, 2) == 2
    ensures WindowCount(s, 6, 6, 1, 3) == 1
    ensures WindowCount(s, 6, 6, 1, 4) == 0
    ensures WindowCount(s, 6, 6, 1, 5) == 2
  {
    assert s[0] == 1;
    assert s[1] == 0;
    assert s[2] == 0;
    assert s[3] == 0;
    assert s[4] == 0;
    assert s[5] == 0;
    assert s[6] == 0;
    assert s[7] == 1;
    assert s[8] == 1;
    assert s[9] == 0;
    assert s[10] == 0;
    assert s[11] == 0;
    assert s[12] == 1;
    assert s[13] == 1;
    assert s[14] == 0;
    assert s[15] == 0;
    assert s[16] == 0;
    assert s[17] == 0;
  }

  /** Row 1 after one generation. */
  lemma GliderRow1(s: seq<Uint3>)
    requires s == Board6(InitialLive)
    ensures CellNext(s, 6, 6, 1, 0) == 0
    ensures CellNext(s, 6, 6, 1, 1) == 0
    ensures CellNext(s, 6, 6, 1, 2) == 1
    ensures CellNext(s, 6, 6, 1, 3) == 0
    ensures CellNext(s, 6, 6, 1, 4) == 0
    ensures CellNext(s, 6, 6, 1, 5) == 0
  {
    InitialRowCounts1(s);
    assert s[Index(6, 6, 1, 0)] == 0;
    assert s[Index(6, 6, 1, 1)] == 1;
    assert s[Index(6, 6, 1, 2)] == 1;
    assert s[Index(6, 6, 1, 3)] == 0;
    assert s[Index(6, 6, 1, 4)] == 0;
    assert s[Index(6, 6, 1, 5)] == 0;
    WindowRule(s, 6, 6, 1, 0);
    WindowRule(s, 6, 6, 1, 1);
    WindowRule(s, 6, 6, 1, 2);
    WindowRule(s, 6, 6, 1, 3);
    WindowRule(s, 6, 6, 1, 4);
    WindowRule(s, 6, 6, 1, 5);
  }

  /** Live-neighbour counts along row 2 of the initial pattern. */
  lemma InitialRowCounts2(s: seq<Uint3>)
    requires s == Board6(InitialLive)
    ensures WindowCount(s, 6, 6, 2, 0) == 2
    ensures WindowCount(s, 6, 6, 2, 1) == 3
    ensures WindowCount(s, 6, 6, 2, 2) == 3
    ensures WindowCount(s, 6, 6, 2, 3) == 1
    ensures WindowCount(s, 6, 6, 2, 4) == 0
    ensures WindowCount(s, 6, 6, 2, 5) == 1
  {
    assert s[6] == 0;
    assert s[7] == 1;
    assert s[8] == 1;
    assert s[9] == 0;
    assert s[10] == 0;
    assert s[11] == 0;
    assert s[12] == 1;
    assert s[13] == 1;
    assert s[14] == 0;
    assert s[15] == 0;
    assert s[16] == 0;
    assert s[17] == 0;
    assert s[18] == 0;
    assert s[19] == 0;
    assert s[20] == 0;
    assert s[21] == 0;
    assert s[22] == 0;
    assert s[23] == 0;
  }

  /** Row 2 after one generation. */
  lemma GliderRow2(s: seq<Uint3>)
    requires s == Board6(InitialLive)
    ensures CellNext(s, 6, 6, 2, 0) == 1
    ensures CellNext(s, 6, 6, 2, 1) == 1
    ensures CellNext(s, 6, 6, 2, 2) == 1
    ensures CellNext(s, 6, 6, 2, 3) == 0
    ensures CellNext(s, 6, 6, 2, 4) == 0
    ensures CellNext(s, 6, 6, 2, 5) == 0
  {
    InitialRowCounts2(s);
    assert s[Index(6, 6, 2, 0)] == 1;
    assert s[Index(6, 6, 2, 1)] == 1;
    assert s[Index(6, 6, 2, 2)] == 0;
    assert s[Index(6, 6, 2, 3)] == 0;
    assert s[Index(6, 6, 2, 4)] == 0;
    assert s[Index(6, 6, 2, 5)] == 0;
    WindowRule(s, 6, 6, 2, 0);
    WindowRule(s, 6, 6, 2, 1);
    WindowRule(s, 6, 6, 2, 2);
    WindowRule(s, 6, 6, 2, 3);
    WindowRule(s, 6, 6, 2, 4);
    WindowRule(s, 6, 6, 2, 5);
  }

  /** Live-neighbour counts along row 3 of the initial pattern. */
  lemma InitialRowCounts3(s: seq<Uint3>)
    requires s == Board6(InitialLive)
    ensures WindowCount(s, 6, 6, 3, 0) == 2
    ensures WindowCount(s, 6, 6, 3, 1) == 2
    ensures WindowCount(s, 6, 6, 3, 2) == 1
    ensures WindowCount(s, 6, 6, 3, 3) == 0
    ensures WindowCount(s, 6, 6, 3, 4) == 0
    ensures WindowCount(s, 6, 6, 3, 5) == 1
  {
    assert s[12] == 1;
    assert s[13] == 1;
    assert s[14] == 0;
    assert s[15] == 0;
    assert s[16] == 0;
    assert s[17] == 0;
    assert s[18] == 0;
    assert s[19] == 0;
    assert s[20] == 0;
    assert s[21] == 0;
    assert s[22] == 0;
    assert s[23] == 0;
    assert s[24] == 0;
    assert s[25] == 0;
    assert s[26] == 0;
    assert s[27] == 0;
    assert s[28] == 0;
    assert s[29] == 0;
  }

  /** Row 3 after one generation. */
  lemma GliderRow3(s: seq<Uint3>)
    requires s == Board6(InitialLive)
    ensures CellNext(s, 6, 6, 3, 0) == 0
    ensures CellNext(s, 6, 6, 3, 1) == 0
    ensures CellNext(s, 6, 6, 3, 2) == 0
    ensures CellNext(s, 6, 6, 3, 3) == 0
    ensures CellNext(s, 6, 6, 3, 4) == 0
    ensures CellNext(s, 6, 6, 3, 5) == 0
  {
    InitialRowCounts3(s);
    assert s[Index(6, 6, 3, 0)] == 0;
    assert s[Index(6, 6, 3, 1)] == 0;
    assert s[Index(6, 6, 3, 2)] == 0;
    assert s[Index(6, 6, 3, 3)] == 0;
    assert s[Index(6, 6, 3, 4)] == 0;
    assert s[Index(6, 6, 3, 5)] == 0;
    WindowRule(s, 6, 6, 3, 0);
    WindowRule(s, 6, 6, 3, 1);
    WindowRule(s, 6, 6, 3, 2);
    WindowRule(s, 6, 6, 3, 3);
    WindowRule(s, 6, 6, 3, 4);
    WindowRule(s, 6, 6, 3, 5);
  }

  /** Live-neighbour counts along row 4 of the initial pattern. */
  lemma InitialRowCounts4(s: seq<Uint3>)
    requires s == Board6(InitialLive)
    ensures WindowCount(s, 6, 6, 4, 0) == 0
    ensures WindowCount(s, 6, 6, 4, 1) == 0
    ensures WindowCount(s, 6, 6, 4, 2) == 0
    ensures WindowCount(s, 6, 6, 4, 3) == 0
    ensures WindowCount(s, 6, 6, 4, 4) == 0
    ensures WindowCount(s, 6, 6, 4, 5) == 0
  {
    assert s[18] == 0;
    assert s[19] == 0;
    assert s[20] == 0;
    assert s[21] == 0;
    assert s[22] == 0;
    assert s[23] == 0;
    assert s[24] == 0;
    assert s[25] == 0;
    assert s[26] == 0;
    assert s[27] == 0;
    assert s[28] == 0;
    assert s[29] == 0;
    assert s[30] == 0;
    assert s[31] == 0;
    assert s[32] == 0;
    assert s[33] == 0;
    assert s[34] == 0;
    assert s[35] == 0;
  }

  /** Row 4 after one generation. */
  lemma GliderRow4(s: seq<Uint3>)
    requires s == Board6(InitialLive)
    ensures CellNext(s, 6, 6, 4, 0) == 0
    ensures CellNext(s, 6, 6, 4, 1) == 0
    ensures CellNext(s, 6, 6, 4, 2) == 0
    ensures CellNext(s, 6, 6, 4, 3) == 0
    ensures CellNext(s, 6, 6, 4, 4) == 0
    ensures CellNext(s, 6, 6, 4, 5) == 0
  {
    InitialRowCounts4(s);
    assert s[Index(6, 6, 4, 0)] == 0;
    assert s[Index(6, 6, 4, 1)] == 0;
    assert s[Index(6, 6, 4, 2)] == 0;
    assert s[Index(6, 6, 4, 3)] == 0;
    assert s[Index(6, 6, 4, 4)] == 0;
    assert s[Index(6, 6, 4, 5)] == 0;
    WindowRule(s, 6, 6, 4, 0);
    WindowRule(s, 6, 6, 4, 1);
    WindowRule(s, 6, 6, 4, 2);
    WindowRule(s, 6, 6, 4, 3);
    WindowRule(s, 6, 6, 4, 4);
    WindowRule(s, 6, 6, 4, 5);
  }

  /** Live-neighbour counts along row 5 of the initial pattern. */
  lemma InitialRowCounts5(s: seq<Uint3>)
    requires s == Board6(InitialLive)
    ensures WindowCount(s, 6, 6, 5, 0) == 1
    ensures WindowCount(s, 6, 6, 5, 1) == 1
    ensures WindowCount(s, 6, 6, 5, 2) == 0
    ensures WindowCount(s, 6, 6, 5, 3) == 0
    ensures WindowCount(s, 6, 6, 5, 4) == 0
    ensures WindowCount(s, 6, 6, 5, 5) == 1
  {
    assert s[0] == 1;
    assert s[1] == 0;
    assert s[2] == 0;
    assert s[3] == 0;
    assert s[4] == 0;
    assert s[5] == 0;
    assert s[24] == 0;
    assert s[25] == 0;
    assert s[26] == 0;
    assert s[27] == 0;
    assert s[28] == 0;
    assert s[29] == 0;
    assert s[30] == 0;
    assert s[31] == 0;
    assert s[32] == 0;
    assert s[33] == 0;
    assert s[34] == 0;
    assert s[35] == 0;
  }

  /** Row 5 after one generation. */
  lemma GliderRow5(s: seq<Uint3>)
    requires s == Board6(InitialLive)
    ensures CellNext(s, 6, 6, 5, 0) == 0
    ensures CellNext(s, 6, 6, 5, 1) == 0
    ensures CellNext(s, 6, 6, 5, 2) == 0
    ensures CellNext(s, 6, 6, 5, 3) == 0
    ensures CellNext(s, 6, 6, 5, 4) == 0
    ensures CellNext(s, 6, 6, 5, 5) == 0
  {
    InitialRowCounts5(s);
    assert s[Index(6, 6, 5, 0)] == 0;
    assert s[Index(6, 6, 5, 1)] == 0;
    assert s[Index(6, 6, 5, 2)] == 0;
    assert s[Index(6, 6, 5, 3)] == 0;
    assert s[Index(6, 6, 5, 4)] == 0;
    assert s[Index(6, 6, 5, 5)] == 0;
    WindowRule(s, 6, 6, 5, 0);
    WindowRule(s, 6, 6, 5, 1);
    WindowRule(s, 6, 6, 5, 2);
    WindowRule(s, 6, 6, 5, 3);
    WindowRule(s, 6, 6, 5, 4);
    WindowRule(s, 6, 6, 5, 5);
  }

  /** Row 0 of the next generation, cell by cell. */
  lemma NextRow0(s: seq<Uint3>)
    requires s == Board6(InitialLive)
    ensures Generation(s, 6, 6)[0] == 0
    ensures Generation(s, 6, 6)[1] == 1
    ensures Generation(s, 6, 6)[2] == 0
    ensures Generation(s, 6, 6)[3] == 0
    ensures Generation(s, 6, 6)[4] == 0
    ensures Generation(s, 6, 6)[5] == 0
  {
    GliderRow0(s);
    var r := Generation(s, 6, 6);
    assert r[Index(6, 6, 0, 0)] == CellNext(s, 6, 6, 0, 0);
    assert r[Index(6, 6, 0, 1)] == CellNext(s, 6, 6, 0, 1);
    assert r[Index(6, 6, 0, 2)] == CellNext(s, 6, 6, 0, 2);
    assert r[Index(6, 6, 0, 3)] == CellNext(s, 6, 6, 0, 3);
    assert r[Index(6, 6, 0, 4)] == CellNext(s, 6, 6, 0, 4);
    assert r[Index(6, 6, 0, 5)] == CellNext(s, 6, 6, 0, 5);
  }

  /** Row 1 of the next generation, cell by cell. */
  lemma NextRow1(s: seq<Uint3>)
    requires s == Board6(InitialLive)
    ensures Generation(s, 6, 6)[6] == 0
    ensures Generation(s, 6, 6)[7] == 0
    ensures Generation(s, 6, 6)[8] == 1
    ensures Generation(s, 6, 6)[9] == 0
    ensures Generation(s, 6, 6)[10] == 0
    ensures Generation(s, 6, 6)[11] == 0
  {
    GliderRow1(s);
    var r := Generation(s, 6, 6);
    assert r[Index(6, 6, 1, 0)] == CellNext(s, 6, 6, 1, 0);
    assert r[Index(6, 6, 1, 1)] == CellNext(s, 6, 6, 1, 1);
    assert r[Index(6, 6, 1, 2)] == CellNext(s, 6, 6, 1, 2);
    assert r[Index(6, 6, 1, 3)] == CellNext(s, 6, 6, 1, 3);
    assert r[Index(6, 6, 1, 4)] == CellNext(s, 6, 6, 1, 4);
    assert r[Index(6, 6, 1, 5)] == CellNext(s, 6, 6, 1, 5);
  }

  /** Row 2 of the next generation, cell by cell. */
  lemma NextRow2(s: seq<Uint3>)
    requires s == Board6(InitialLive)
    ensures Generation(s, 6, 6)[12] == 1
    ensures Generation(s, 6, 6)[13] == 1
    ensures Generation(s, 6, 6)[14] == 1
    ensures Generation(s, 6, 6)[15] == 0
    ensures Generation(s, 6, 6)[16] == 0
    ensures Generation(s, 6, 6)[17] == 0
  {
    GliderRow2(s);
    var r := Generation(s, 6, 6);
    assert r[Index(6, 6, 2, 0)] == CellNext(s, 6, 6, 2, 0);
    assert r[Index(6, 6, 2, 1)] == CellNext(s, 6, 6, 2, 1);
    assert r[Index(6, 6, 2, 2)] == CellNext(s, 6, 6, 2, 2);
    assert r[Index(6, 6, 2, 3)] == CellNext(s, 6, 6, 2, 3);
    assert r[Index(6, 6, 2, 4)] == CellNext(s, 6, 6, 2, 4);
    assert r[Index(6, 6, 2, 5)] == CellNext(s, 6, 6, 2, 5);
  }

  /** Row 3 of the next generation, cell by cell. */
  lemma NextRow3(s: seq<Uint3>)
    requires s == Board6(InitialLive)
    ensures Generation(s, 6, 6)[18] == 0
    ensures Generation(s, 6, 6)[19] == 0
    ensures Generation(s, 6, 6)[20] == 0
    ensures Generation(s, 6, 6)[21] == 0
    ensures Generation(s, 6, 6)[22] == 0
    ensures Generation(s, 6, 6)[23] == 0
  {
    GliderRow3(s);
    var r := Generation(s, 6, 6);
    assert r[Index(6, 6, 3, 0)] == CellNext(s, 6, 6, 3, 0);
    assert r[Index(6, 6, 3, 1)] == CellNext(s, 6, 6, 3, 1);
    assert r[Index(6, 6, 3, 2)] == CellNext(s, 6, 6, 3, 2);
    assert r[Index(6, 6, 3, 3)] == CellNext(s, 6, 6, 3, 3);
    assert r[Index(6, 6, 3, 4)] == CellNext(s, 6, 6, 3, 4);
    assert r[Index(6, 6, 3, 5)] == CellNext(s, 6, 6, 3, 5);
  }

  /** Row 4 of the next generation, cell by cell. */
  lemma NextRow4(s: seq<Uint3>)
    requires s == Board6(InitialLive)
    ensures Generation(s, 6, 6)[24] == 0
    ensures Generation(s, 6, 6)[25] == 0
    ensures Generation(s, 6, 6)[26] == 0
    ensures Generation(s, 6, 6)[27] == 0
    ensures Generation(s, 6, 6)[28] == 0
    ensures Generation(s, 6, 6)[29] == 0
  {
    GliderRow4(s);
    var r := Generation(s, 6, 6);
    assert r[Index(6, 6, 4, 0)] == CellNext(s, 6, 6, 4, 0);
    assert r[Index(6, 6, 4, 1)] == CellNext(s, 6, 6, 4, 1);
    assert r[Index(6, 6, 4, 2)] == CellNext(s, 6, 6, 4, 2);
    assert r[Index(6, 6, 4, 3)] == CellNext(s, 6, 6, 4, 3);
    assert r[Index(6, 6, 4, 4)] == CellNext(s, 6, 6, 4, 4);
    assert r[Index(6, 6, 4, 5)] == CellNext(s, 6, 6, 4, 5);
  }

  /** Row 5 of the next generation, cell by cell. */
  lemma NextRow5(s: seq<Uint3>)
    requires s == Board6(InitialLive)
    ensures Generation(s, 6, 6)[30] == 0
    ensures Generation(s, 6, 6)[31] == 0
    ensures Generation(s, 6, 6)[32] == 0
    ensures Generation(s, 6, 6)[33] == 0
    ensures Generation(s, 6, 6)[34] == 0
    ensures Generation(s, 6, 6)[35] == 0
  {
    GliderRow5(s);
    var r := Generation(s, 6, 6);
    assert r[Index(6, 6, 5, 0)] == CellNext(s, 6, 6, 5, 0);
    assert r[Index(6, 6, 5, 1)] == CellNext(s, 6, 6, 5, 1);
    assert r[Index(6, 6, 5, 2)] == CellNext(s, 6, 6, 5, 2);
    assert r[Index(6, 6, 5, 3)] == CellNext(s, 6, 6, 5, 3);
    assert r[Index(6, 6, 5, 4)] == CellNext(s, 6, 6, 5, 4);
    assert r[Index(6, 6, 5, 5)] == CellNext(s, 6, 6, 5, 5);
  }

  /** A 36-cell board holding these values, row by row, is the glider one
      step on. The cells are listed one by one so that the case split over
      the 36 positions happens here, away from the definition of the
      generation step. */
  lemma AfterOneCells(r: seq<Uint3>)
    requires |r| == 36
    requires r[0] == 0 && r[1] == 1 && r[2] == 0 && r[3] == 0 && r[4] == 0 && r[5] == 0
    requires r[6] == 0 && r[7] == 0 && r[8] == 1 && r[9] == 0 && r[10] == 0 && r[11] == 0
    requires r[12] == 1 && r[13] == 1 && r[14] == 1 && r[15] == 0 && r[16] == 0 && r[17] == 0
    requires r[18] == 0 && r[19] == 0 && r[20] == 0 && r[21] == 0 && r[22] == 0 && r[23] == 0
    requires r[24] == 0 && r[25] == 0 && r[26] == 0 && r[27] == 0 && r[28] == 0 && r[29] == 0
    requires r[30] == 0 && r[31] == 0 && r[32] == 0 && r[33] == 0 && r[34] == 0 && r[35] == 0
    ensures r == Board6(AfterOneLive)
  {
    var t := Board6(AfterOneLive);
    forall k | 0 <= k < 36
      ensures r[k] == t[k]
    {
      assert k == 0 || k == 1 || k == 2 || k == 3 || k == 4 || k == 5 || k == 6 || k == 7 || k == 8 || k == 9 || k == 10 || k == 11 || k == 12 || k == 13 || k == 14 || k == 15 || k == 16 || k == 17 || k == 18 || k == 19 || k == 20 || k == 21 || k == 22 || k == 23 || k == 24 || k == 25 || k == 26 || k == 27 || k == 28 || k == 29 || k == 30 || k == 31 || k == 32 || k == 33 || k == 34 || k == 35;
    }
  }

  /** The program's initial pattern after one update is the textbook next
      generation: the glider moved one step. */
  lemma InitialPatternStep()
    ensures Generation(Board6(InitialLive), 6, 6) == Board6(AfterOneLive)
  {
    NextRow0(Board6(InitialLive));
    NextRow1(Board6(InitialLive));
    NextRow2(Board6(InitialLive));
    NextRow3(Board6(InitialLive));
    NextRow4(Board6(InitialLive));
    NextRow5(Board6(InitialLive));
    AfterOneCells(Generation(Board6(InitialLive), 6, 6));
  }

  /** The program's start: a 6-column board built from the initial pattern,
      updated once, holds the glider's next generation. */
  method GliderFirstUpdate() returns (b: Board)
    ensures b.dimensions == (6, 6)
    ensures b.states == Board6(AfterOneLive)
  {
    InitialIsProgramLiteral();
    b := new Board(6, ProgramStart);
    b.Update();
    InitialPatternStep();
  }
}
