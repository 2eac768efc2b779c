# Minesweeper engine, modelled in Dafny

The engine of a terminal minesweeper game, in `src/main.rs`. A board has columns of cells. Each
cell holds a mine or water and carries two flags: opened and flagged. Next to the cells, the board
keeps a grid of neighbour counts, computed once when the board is built. The player can:

- toggle the flag of a closed cell;
- open a cell, which reports a mine and otherwise floods through the cells whose count is zero;
- ask whether the game is won, meaning every water cell is open.

A fresh board comes from a generation step. It checks the requested size, places the mines by
rejection sampling, and builds the columns.

The model has four modules:

- `Mines` (`mines.dfy`): the error kinds, the `Result` type, and the cell state machine. A cell is
  owned by value inside its column and is never shared. So the methods that update a cell in place
  become functions that return the updated cell.
- `Grid` (`grid.dfy`):
  - bounds-checked lookup (`Get2d`);
  - the neighbour count, both as a reference definition (`AdjacentMines`) and as the looping
    method of the source (`CountNeighbours`);
  - the counts grid (`NumbersOf`);
  - the win condition;
  - the example board of the source's test.
- `Board` (`board.dfy`): the `Field` class with the fields `cells` and `numbers`. `Flag` and
  `Open` update `cells` in place. `numbers` is fixed when the board is built. `ComputeNumbers`
  is the push loop that builds it.
- `Generation` (`generation.dfy`): the validation, the placement loop and the construction of
  the columns.

Coordinates are unbounded naturals. Grids are sequences of columns and may be ragged, as the
source's nested vectors may be. Every lookup checks the inner length of its own column.

The flood fill is split into three mutually recursive methods: `Field.Open`, `Field.Cascade`
for the loop over the columns of the neighbour window, and `Field.CascadeColumn` for the loop
over one column. A cascade starts only after Open has opened a closed cell. So every nested Open
starts with strictly fewer closed cells (`ClosedSet`, ordered by proper subset) than the Open
that started the cascade. That closed set is Cascade's ghost `bound`, and it is what the recursion
decreases. In the source this argument breaks for a flagged cell whose count is zero, which
recurses on itself forever (see Findings). The model follows the evidently intended behaviour:
it cascades only when the cell has really been opened.

Open also returns a ghost flood order: the positions it opened, in order, each after the first
with a parent index. The parent is an earlier entry, a zero-count water cell next to it. The
parents form a spanning tree rooted at (x, y). `PathTo` turns that tree into a path from (x, y)
to any opened position through opened zero-count water cells. So Open opens nothing outside
the zero-count region connected to (x, y) and that region's border.

## Model

| member | source | states |
|---|---|---|
| Mines.Cell.Mine | src/main.rs:30-36 | a mine cell that is closed, unflagged and valid |
| Mines.Cell.Water | src/main.rs:38-44 | a water cell that is closed, unflagged and valid |
| Mines.Cell.Open | src/main.rs:46-56 | a flagged cell is left unchanged with Ok; an unflagged cell becomes opened, with Err(MineOpened) exactly when it holds a mine and Ok exactly when it holds water; value and flag never change; a cell never ends up both opened and flagged |
| Mines.Cell.ToggleFlag | src/main.rs:58-62 | an opened cell is unchanged; a closed cell's flag is inverted; value and opened state are kept, and the cell stays valid |
| Mines.ToggleFlagTwice | src/main.rs:58-62 | toggling twice restores the original cell |
| Mines.OpenIdempotent | src/main.rs:46-56 | opening a second time changes nothing more and reports the same outcome (Ok for a flagged cell) |
| Grid.Get2d | src/main.rs:207-214 | succeeds exactly when x indexes a column and y indexes that column, returning that element; otherwise OutOfBounds(x, y) |
| Grid.AdjacentMinesIsCount | src/main.rs:180-205 | the reference count equals the number of in-bounds positions other than (x, y), within distance one in both coordinates, that hold a mine |
| Grid.ZeroCountNoMine | src/main.rs:124-131 | a zero count means no in-bounds neighbour is a mine, so the cascade around it never opens a mine |
| Grid.ScanIsAdjacentMines | src/main.rs:190-203 | the source's clamped scan window (the centre skipped, off-grid positions ignored) adds up to the reference count |
| Grid.CountNeighbours | src/main.rs:180-205 | EmptyField for an empty grid, then OutOfBounds(x, y) when x or y is outside the grid, otherwise Ok with the reference count, which is at most 8 |
| Grid.NumbersOfValuesOnly | src/main.rs:72-85 | the counts grid depends only on where the mines are, so opening and flagging never change it |
| Grid.WonIffOnlyMinesClosed | src/main.rs:136-145 | the game is won exactly when every closed position is a mine |
| Grid.ExampleNumbers | src/main.rs:328-343 | the 3×3 test board with mines at (0,2), (1,0), (2,0), (2,2) has counts [[1,2,0],[1,4,2],[1,3,0]] |
| Board.ComputeNumbers | src/main.rs:72-85 | the counts grid has the cells' shape, and each entry is the neighbour count of its position, at most 8 |
| Board.Field.WithCells | src/main.rs:72-85 | the board keeps the given cells and the valid counts grid of exactly their shape |
| Board.Field.Flag | src/main.rs:110-115 | out of bounds: Err(OutOfBounds(x, y)) and nothing changes; otherwise Ok, and only (x, y) changes, by a flag toggle; counts unchanged; validity of all cells kept |
| Board.Field.Open | src/main.rs:117-134 | out of bounds: Err and unchanged; an opened or flagged cell: Ok and unchanged; a closed unflagged mine: Err(MineOpened) with only that cell opened; water: Ok, opened, and with a nonzero count nothing else changes; in every case no value, flag or count changes and no cell closes; every cell opened besides (x, y) is water; every zero-count water cell it opens has all its in-bounds neighbours opened or flagged; the opened positions are exactly the entries of a flood order rooted at (x, y), where each later entry is next to an earlier zero-count water entry |
| Board.Field.Cascade | src/main.rs:124-131 | after the loop over the window's columns every in-bounds neighbour of (x, y) is opened or flagged; values and flags are kept, no mine beyond (x, y) is opened, every zero-count water cell it opens has all its in-bounds neighbours opened or flagged, and (x, y) plus the opened positions form a flood order rooted at (x, y) |
| Board.Field.CascadeColumn | src/main.rs:128-130 | after the loop over one column of the window every in-bounds position of it is opened or flagged, with the same guarantees as Cascade about everything opened since the cascade began |
| Board.PathTo | src/main.rs:124-131 | in a flood order, every entry is reached from the first by a path of adjacent positions, all listed in the order, each before the last a zero-count water cell |
| Board.Field.IsWon | src/main.rs:136-145 | true exactly when every water cell is opened |
| Board.ClosedSetShrinks | src/main.rs:117-134 | opening a closed cell strictly shrinks the set of closed cells, which is the measure the recursion decreases |
| Board.AsWrittenFirstCall | src/main.rs:117-131 | the source's open reaches its first nested call exactly when (x, y) is in bounds, closed and of count zero, and is flagged or water, so a flag does not stop the cascade; that call is at (max(x - 1, 0), max(y - 1, 0)), on the unchanged board when the cell is flagged and with (x, y) opened otherwise |
| Board.AsWrittenSelfCall | src/main.rs:117-131 | on a flagged, closed cell at (0, 0) with count zero, the source's open makes its first nested call on (0, 0) with the board unchanged |
| Board.AsWrittenDiverges | src/main.rs:117-131 | for the one-cell board holding flagged water, with its own counts, the source's first nested call is on the same coordinate and the same board |
| Generation.DistinctCard | src/main.rs:159-163 | a bomb list without repetitions has as many distinct coordinates as entries |
| Generation.SampleBombs | src/main.rs:155-167 | from an in-bounds stream of draws with enough distinct coordinates, the loop picks exactly `mines` distinct, in-bounds bombs, all of them drawn |
| Generation.BuildCells | src/main.rs:168-176 | `width` columns of `height` closed, unflagged, valid cells, where a cell is a mine exactly when its coordinate is in the bomb list |
| Generation.BuildCellsMines | src/main.rs:168-176 | the mines of the built grid are exactly the bomb coordinates, and distinct bombs give exactly as many mines |
| Generation.GenerateCells | src/main.rs:148-177 | TooManyMines when width·height < 10·mines, checked first; otherwise FieldTooSmall(width, height) when both dimensions are below 8; otherwise a width × height grid of closed, unflagged cells with exactly `mines` mines, all at drawn coordinates |

## Left out

- `Field::print` and `color_number` (src/main.rs:92-108, 216-227) are terminal rendering only.
- `main` (src/main.rs:229-298) is argument parsing, the input loop and the exit on a lost game.
  All of it is I/O.
- `Field::generate` (src/main.rs:87-90) only composes `generate_cells` with `with_cells` around
  the random generator.
- The random generator is not modelled. Its outputs are the parameter `draws` of `SampleBombs`
  and `GenerateCells`.
- Generation.SampleBombs: requires that `draws` holds at least `mines` distinct coordinates. The
  source's retry loop has no such bound: it only ends with probability one.
- Generation.GenerateCells: requires that width·height and 10·mines stay below 65536. The source
  computes them in `u16`, whose overflow is excluded rather than modelled.
- Grid.CountNeighbours: coordinates are unbounded naturals, so `x + 2` in `u16` never overflows
  here. Board.Field.Open and Board.Field.Cascade make the same simplification.
- Board.ComputeNumbers: passes each index as a natural. The source casts it with `as u16`, which
  truncates for grids with more than 65535 columns or rows (src/main.rs:77); no caller builds one.
- Board.Field.Open, Board.Field.Cascade and Board.Field.CascadeColumn: require the board invariant `numbers == NumbersOf(cells)`.
  Every board is built by `with_cells`, and every operation keeps the invariant.
- Board.Field.Open: models the corrected flood fill, which cascades only from a cell it actually
  opened (see Findings). The source's version does not terminate on a flagged zero-count cell.
- A chord operation (revealing every neighbour of a satisfied number) does not exist in this
  source, so none is modelled.
- A cell is updated in place in the source; here `Cell.Open` and `Cell.ToggleFlag` return the new
  cell and the board stores it. Cells are never aliased, so nothing observable is lost.

## Findings

| source | as written | input that shows it | evidently intended | confidence | as-written member | corrected member |
|---|---|---|---|---|---|---|
| src/main.rs:117-131 (with src/main.rs:47, 53-54) | `open` runs the cascade whenever the cell's count is zero, even when `Cell::open` left a flagged cell closed; the cascade window includes (x, y) itself, so the call recurses on the same cell and the same board forever | a one-cell board holding flagged water, opened at (0, 0) | cascade only from a cell that this call actually opened, so every nested call faces strictly fewer closed cells | not executed | Board.AsWrittenDiverges | Board.Field.Open |
