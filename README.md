# Game of Life on a torus, over 3-bit counters

This project models the generation step of a homomorphically encrypted Game of
Life (`src/main.rs`). It models the step in plaintext. Each encrypted `FheUint3` becomes a
3-bit value `Uint3` (a natural number below 8). The program's four operations
on those values are modelled as:

- `+=` is addition modulo 8.
- `eq(k)` yields 0 or 1.
- `&` and `|` are bitwise on three bits.

On top of these the model has:

- `is_alive` (`Rules.IsAlive`). A loop adds the eight neighbours into a
  wrapping counter that starts at 0. It then returns
  `count.eq(3) | (cell & count.eq(2))`. It is proved against
  `Rules.AliveFromCount` applied to the true sum modulo 8.
- `Board` (`Torus.Board`). A class holding the dimensions `(rows, cols)`, the
  current generation `states` in row-major order and the scratch buffer
  `newStates`.
- `Board::new` (`Torus.Board.constructor`). The row count is the number of
  whole rows the cells fill. All cells are kept, including a trailing
  incomplete row.
- `Board::update` (`Torus.Board.Update`). It clears the scratch buffer. For
  every row `i` and column `j` it reads the eight neighbours at the wrapped
  rows and columns, and pushes `is_alive` of the cell onto the scratch buffer.
  Then it swaps the two buffers. It is proved against the specification
  function `Torus.Generation`: the new `states` is `Generation` of the old
  `states`, and the old `states` is now the scratch buffer.

The lemmas in `Evolution` are about `Generation` and its n-fold iterate
`Generations`. Through `Update`'s postcondition they hold for the board after
one update, and through `Evolution.UpdateTimes` (n calls of `Update`, proved to
leave `Generations` of the starting cells) after any number of updates:

- the exact wrap-around formulas for the neighbours;
- agreement with the textbook rule on 0/1 boards, although a count of 8 wraps
  to 0;
- results in {0, 1} for any input values;
- independence from the trailing cells;
- permanence of an empty board and of 0/1 boards over any number of
  generations.

`Patterns` follows the program's 6-by-6 starting glider through one update.

`Board::new` does not check that the number of cells is a multiple of the
column count. It keeps every cell and sets the row count to the quotient, and
the model follows this code. The leftover cells are never read by an update
(`Evolution.TrailingCellsIgnored`). The first swap moves them out of `states`
into the scratch buffer, and the next update's `clear` discards them.

## Model

| member | source | states |
|---|---|---|
| Uint3.Add | src/main.rs:15 | `+=` on a 3-bit value is `(a + b) mod 8` |
| Uint3.Eq | src/main.rs:20 | `eq(k)` is 1 exactly when the value equals `k`, else 0 |
| Uint3.And | src/main.rs:20 | `&` is bounded by both operands; with a 0/1 operand it keeps the other's lowest bit or gives 0 |
| Uint3.Or | src/main.rs:20 | bitwise or is at least both operands; on 0/1 operands it is the boolean or |
| Rules.AliveFromCount | src/main.rs:20 | `eq(3)` or-ed with `cell & eq(2)` is 0 or 1, and is 1 exactly when the count is 3, or the count is 2 and the cell's lowest bit is set |
| Rules.IsAlive | src/main.rs:12-21 | the loop's wrapping counter ends at the neighbours' sum mod 8; the result is the rule on that count, with its iff form |
| Rules.SumPermutation | src/main.rs:14-18 | any reordering of the neighbours has the same sum |
| Rules.NeighbourOrderIrrelevant | src/main.rs:14-20 | `is_alive` gives the same result for any ordering of the neighbour slice |
| Rules.SumConcat | src/main.rs:14-16 | the running sum over a concatenation is the sum of the parts |
| Rules.SumOfBitsBounded | src/main.rs:14-16 | eight 0/1 neighbours sum to at most eight |
| Rules.SumOfZeros | src/main.rs:14-16 | dead neighbours count to zero |
| Rules.ModularRuleMatchesTextbook | src/main.rs:8-20 | for a 0/1 cell and eight 0/1 neighbours, the rule on the count mod 8 equals the textbook survive-on-2-or-3, birth-on-3 rule on the true count (0..8) |
| Torus.Prev | src/main.rs:47-50 | the row above / column left is in range and equals `(i + n - 1) mod n` |
| Torus.Next | src/main.rs:48-51 | the row below / column right is in range and equals `(i + 1) mod n` |
| Torus.Index | src/main.rs:54-65 | `i * ny + j` for an in-range cell lies below `nx * ny`: no read is out of bounds |
| Torus.IndexDecodes | src/main.rs:54-65 | a position decodes back to its row and column, so distinct cells have distinct positions |
| Torus.NeighbourPositions | src/main.rs:47-61 | the eight neighbour coordinates n1..n8 are all inside the board |
| Torus.Neighbours | src/main.rs:54-61 | neighbour k is the value of `states` at the k-th wrapped position |
| Torus.Generation | src/main.rs:41-73 | the next generation has `nx * ny` cells, and cell (i, j) is the rule applied to cell (i, j) and its neighbours in the old generation only |
| Torus.Generations | src/main.rs:41-73 | after at least one update the board holds `nx * ny` cells |
| Torus.NextCellFromReads | src/main.rs:54-67 | the eight reads at the wrapped rows and columns feed `is_alive` with exactly the neighbours the next generation's cell is defined by |
| Torus.WholeRows | src/main.rs:31 | the row count `len / cols` leaves fewer than one row of cells over |
| Torus.Board.constructor | src/main.rs:30-39 | dimensions are `(len / n_cols, n_cols)`, the cells are kept as given, the scratch buffer is empty, and every addressed cell exists |
| Torus.Board.Update | src/main.rs:41-73 | dimensions unchanged; the new `states` is `Generation` of the old `states` (length `nx * ny`, computed from the old generation only); the scratch buffer now holds the old generation |
| Evolution.BoardsAgree | src/main.rs:46-65 | two boards agreeing at every (row, column) position are equal |
| Evolution.NeighbourPositionsWrap | src/main.rs:47-61 | neighbour k sits at `((i + di) mod nx, (j + dj) mod ny)` for the k-th offset |
| Evolution.CornerSeesOppositeCorner | src/main.rs:47-54 | cell (0, 0) reads cell (nx - 1, ny - 1), the last cell, as its first neighbour |
| Evolution.GenerationIsBinary | src/main.rs:64-67 | whatever values the cells hold, every cell of the next generation is 0 or 1 |
| Evolution.GenerationFollowsLife | src/main.rs:8-20 | when the whole rows hold only 0 and 1 (a trailing incomplete row may hold anything), each next cell is 1 exactly when the textbook rule holds for its true live-neighbour count |
| Evolution.TrailingCellsIgnored | src/main.rs:30-39 | cells past the `nx * ny` whole-row cells do not influence the next generation |
| Evolution.ExtinctStaysExtinct | src/main.rs:41-73 | an all-dead board stays all dead after an update |
| Evolution.ExtinctionIsPermanent | src/main.rs:41-73 | an all-dead board stays all dead after any number of updates |
| Evolution.BinaryStaysBinary | src/main.rs:41-73 | a 0/1 board stays a 0/1 board after any number of updates |
| Evolution.GenerationsLast | src/main.rs:41-73 | n + 1 generations are one generation after n, and every iterate still holds the `nx * ny` cells the update reads |
| Evolution.UpdateTimes | src/main.rs:114-139 | calling `update` n times in a row keeps the dimensions and leaves the board holding `Generations` of its starting cells, n steps on; for n > 0 the scratch buffer holds the generation n - 1 |
| Patterns.InitialIsProgramLiteral | src/main.rs:95-102 | the starting configuration used by the worked example is exactly the program's literal 6-by-6 vector |
| Patterns.SumOfEight | src/main.rs:14-16 | the sum of eight neighbours is their explicit total |
| Patterns.WindowRule | src/main.rs:54-67 | a cell's next state is the rule applied to the explicit total of its eight wrapped neighbours |
| Patterns.InitialPatternStep | src/main.rs:95-102 | the starting pattern's next generation is the textbook one: the glider moved one step |
| Patterns.GliderFirstUpdate | src/main.rs:112-132 | `Board::new(6, states)` on the program's literal starting vector, followed by one `update`, yields a 6-by-6 board holding the glider's next generation |

## Left out

- Encryption, decryption, key generation and caching, and installing the server key are left out (`src/main.rs:1-6`, 82-91, 104-110). The model computes on the plaintext values that the ciphertexts stand for.
- The cost of homomorphic operations and the `Instant` timing are not modelled.
- `main`'s printing and its fixed count of five iterations are left out (`src/main.rs:76-139`). Its board construction is modelled by `Patterns.GliderFirstUpdate`, and its repeated calls of `update` by `Evolution.UpdateTimes`. The display loop prints columns `0..n_rows` rather than `0..n_cols` (`src/main.rs:118-121`). On the program's square 6-by-6 board this prints exactly the board. On a non-square board the display is wrong: with fewer rows than columns it omits the right-hand columns, and with more rows than columns the last row reads past the end of `states` and panics. It never changes the board.
- `Vec::with_capacity` and `clear`'s retention of capacity have no observable effect on the cells, and are not modelled.
- `usize` arithmetic is unbounded in the model. Every index the update computes is below `nx * ny <= len(states)` (`Torus.Index`), so neither overflow nor a bounds-check panic can occur.
- `Board::new` with `n_cols == 0` divides by zero and panics. The constructor requires `nCols > 0` instead of modelling the panic.
- The encrypted values are shared by reference between reads. The model reads plain values, which is equivalent because nothing is written to `states` during an update.
- The commented-out `sum()` form of the count (`src/main.rs:17-18`) is not code. `Rules.NeighbourOrderIrrelevant` covers its order-independence.
- No other counting encoding and no parallel scheduling appear in the source. The update is the sequential double loop modelled here.
