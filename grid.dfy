/**
 * The grid primitives of the engine: the bounds-checked lookup, the 8-neighbourhood and the
 * neighbour count, and the read-only views of a grid used by the board.
 * A grid is a sequence of columns: `cells[x][y]` is column `x`, row `y`. Columns may differ in length.
 */
module Grid {
  import opened Mines

  /** Two grids have the same columns, of the same lengths. */
  predicate SameShape<A, B>(a: seq<seq<A>>, b: seq<seq<B>>) {
    |a| == |b| && forall x :: 0 <= x < |a| ==> |a[x]| == |b[x]|
  }

  predicate InBounds<T>(v: seq<seq<T>>, x: nat, y: nat) {
    x < |v| && y < |v[x]|
  }

  /** Bounds-checked lookup of `v[x][y]`. */
  function Get2d<T>(v: seq<seq<T>>, x: nat, y: nat): (r: Result<T>)
    ensures r.Ok? <==> x < |v| && y < |v[x]|
    ensures r.Ok? ==> r.value == v[x][y]
    ensures r.Err? ==> r.error == OutOfBounds(x, y)
  {
    if x < |v| then
      var col := v[x];
      if y < |col| then Ok(col[y]) else Err(OutOfBounds(x, y))
    else
      Err(OutOfBounds(x, y))
  }

  /** (nx, ny) is one of the up to eight cells around (x, y). */
  predicate Adjacent(x: nat, y: nat, nx: nat, ny: nat) {
    (nx, ny) != (x, y) && x <= nx + 1 && nx <= x + 1 && y <= ny + 1 && ny <= y + 1
  }

  /** 1 if the position, taken over the integers, holds a mine of the grid, else 0. */
  function MineAt(cells: seq<seq<Cell>>, i: int, j: int): nat {
    if 0 <= i < |cells| && 0 <= j < |cells[i]| && cells[i][j].value == CellValue.Mine then 1 else 0
  }

  /**
   * The reference definition of the neighbour count: one term per offset of the
   * 8-neighbourhood, where a position off the grid (negative or too large) holds no mine.
   */
  function AdjacentMines(cells: seq<seq<Cell>>, x: nat, y: nat): (n: nat)
    ensures n <= 8
  {
    MineAt(cells, x - 1, y - 1) + MineAt(cells, x - 1, y) + MineAt(cells, x - 1, y + 1) +
    MineAt(cells, x, y - 1) + MineAt(cells, x, y + 1) +
    MineAt(cells, x + 1, y - 1) + MineAt(cells, x + 1, y) + MineAt(cells, x + 1, y + 1)
  }

  /** The neighbour count is exactly the number of positions that are adjacent, in bounds and mined. */
  lemma AdjacentMinesIsCount(cells: seq<seq<Cell>>, x: nat, y: nat)
    ensures AdjacentMines(cells, x, y) == |AdjacentMineSet(cells, x, y)|
  {
    var d0 := Dots(cells, x - 1, y - 1);
    var d1 := d0 + Dots(cells, x - 1, y);
    var d2 := d1 + Dots(cells, x - 1, y + 1);
    var d3 := d2 + Dots(cells, x, y - 1);
    var d4 := d3 + Dots(cells, x, y + 1);
    var d5 := d4 + Dots(cells, x + 1, y - 1);
    var d6 := d5 + Dots(cells, x + 1, y);
    var d7 := d6 + Dots(cells, x + 1, y + 1);
    AddDot(d0, cells, x - 1, y);
    AddDot(d1, cells, x - 1, y + 1);
    AddDot(d2, cells, x, y - 1);
    AddDot(d3, cells, x, y + 1);
    AddDot(d4, cells, x + 1, y - 1);
    AddDot(d5, cells, x + 1, y);
    AddDot(d6, cells, x + 1, y + 1);
    assert d7 == DotsAround(cells, x, y);
    AdjacentMineSetIsDots(cells, x, y);
  }

  /** The positions around (x, y) that are in bounds and hold a mine. */
  ghost function AdjacentMineSet(cells: seq<seq<Cell>>, x: nat, y: nat): set<Coord> {
    set nx: nat, ny: nat | nx < x + 2 && ny < y + 2 && Adjacent(x, y, nx, ny) &&
      InBounds(cells, nx, ny) && cells[nx][ny].value == CellValue.Mine :: (nx, ny)
  }

  /** The one-element set of a mined position, or the empty set. */
  ghost function Dots(cells: seq<seq<Cell>>, i: int, j: int): (s: set<Coord>)
    ensures |s| == MineAt(cells, i, j)
    ensures forall p: Coord :: p in s <==>
      p.0 == i && p.1 == j && InBounds(cells, p.0, p.1) && cells[p.0][p.1].value == CellValue.Mine
  {
    if MineAt(cells, i, j) == 1 then {(i as nat, j as nat)} else {}
  }

  lemma AddDot(s: set<Coord>, cells: seq<seq<Cell>>, i: int, j: int)
    requires forall p :: p in s ==> p.0 != i || p.1 != j
    ensures |s + Dots(cells, i, j)| == |s| + MineAt(cells, i, j)
  {
    if MineAt(cells, i, j) == 1 {
      assert (i as nat, j as nat) !in s;
    }
  }

  /** The union of the eight one-position sets around (x, y). */
  ghost function DotsAround(cells: seq<seq<Cell>>, x: nat, y: nat): set<Coord> {
    Dots(cells, x - 1, y - 1) + Dots(cells, x - 1, y) + Dots(cells, x - 1, y + 1) +
    Dots(cells, x, y - 1) + Dots(cells, x, y + 1) +
    Dots(cells, x + 1, y - 1) + Dots(cells, x + 1, y) + Dots(cells, x + 1, y + 1)
  }

  lemma AdjacentMineSetIsDots(cells: seq<seq<Cell>>, x: nat, y: nat)
    ensures AdjacentMineSet(cells, x, y) == DotsAround(cells, x, y)
  {
    AdjacentMineSetInDots(cells, x, y);
    DotsInAdjacentMineSet(cells, x, y);
    SubsetAntisymmetric(AdjacentMineSet(cells, x, y), DotsAround(cells, x, y));
  }

  lemma AdjacentMineSetInDots(cells: seq<seq<Cell>>, x: nat, y: nat)
    ensures AdjacentMineSet(cells, x, y) <= DotsAround(cells, x, y)
  {
    forall p | p in AdjacentMineSet(cells, x, y) ensures p in DotsAround(cells, x, y) {
      var (nx, ny) := p;
      var i: int, j: int := nx, ny;
      assert i == x - 1 || i == x || i == x + 1;
      assert j == y - 1 || j == y || j == y + 1;
      assert p in Dots(cells, i, j);
    }
  }

  lemma DotsInAdjacentMineSet(cells: seq<seq<Cell>>, x: nat, y: nat)
    ensures DotsAround(cells, x, y) <= AdjacentMineSet(cells, x, y)
  {
    forall p | p in DotsAround(cells, x, y) ensures p in AdjacentMineSet(cells, x, y) {
      assert Adjacent(x, y, p.0, p.1) && InBounds(cells, p.0, p.1) && cells[p.0][p.1].value == CellValue.Mine;
    }
  }

  lemma SubsetAntisymmetric<T>(a: set<T>, b: set<T>)
    requires a <= b && b <= a
    ensures a == b
  {
  }

  /** A zero count means that no in-bounds neighbour is a mine. */
  lemma ZeroCountNoMine(cells: seq<seq<Cell>>, x: nat, y: nat, nx: nat, ny: nat)
    requires AdjacentMines(cells, x, y) == 0
    requires Adjacent(x, y, nx, ny) && InBounds(cells, nx, ny)
    ensures cells[nx][ny].value == CellValue.Water
  {
    assert MineAt(cells, nx, ny) == 0 by {
      if nx + 1 == x {
        assert ny + 1 == y || ny == y || ny == y + 1;
      } else if nx == x {
        assert ny + 1 == y || ny == y + 1;
      } else {
        assert ny + 1 == y || ny == y || ny == y + 1;
      }
    }
  }

  /** What one step of the scan adds: a mine at (cx, cy), unless it is the centre itself. */
  function Counted(cells: seq<seq<Cell>>, x: nat, y: nat, cx: int, cy: int): nat {
    if cx == x && cy == y then 0 else MineAt(cells, cx, cy)
  }

  /** The scan of column cx over the rows [lo, hi). */
  ghost function ScanColumn(cells: seq<seq<Cell>>, x: nat, y: nat, cx: nat, lo: nat, hi: nat): nat
    decreases hi
  {
    if hi <= lo then 0 else ScanColumn(cells, x, y, cx, lo, hi - 1) + Counted(cells, x, y, cx, hi - 1)
  }

  /** The scan of the columns [lo, hi), each over the rows [ylo, y + 2). */
  ghost function ScanWindow(cells: seq<seq<Cell>>, x: nat, y: nat, lo: nat, hi: nat, ylo: nat): nat
    decreases hi
  {
    if hi <= lo then 0 else ScanWindow(cells, x, y, lo, hi - 1, ylo) + ScanColumn(cells, x, y, hi - 1, ylo, y + 2)
  }

  function Below(v: nat): nat {
    if v > 0 then v - 1 else v
  }

  lemma {:induction false} ScanColumnIs(cells: seq<seq<Cell>>, x: nat, y: nat, cx: nat)
    ensures ScanColumn(cells, x, y, cx, Below(y), y + 2) ==
      Counted(cells, x, y, cx, y - 1) + Counted(cells, x, y, cx, y) + Counted(cells, x, y, cx, y + 1)
  {
    var lo := Below(y);
    assert ScanColumn(cells, x, y, cx, lo, y + 2) ==
      ScanColumn(cells, x, y, cx, lo, y + 1) + Counted(cells, x, y, cx, y + 1);
    assert ScanColumn(cells, x, y, cx, lo, y + 1) ==
      ScanColumn(cells, x, y, cx, lo, y) + Counted(cells, x, y, cx, y);
    if y > 0 {
      assert ScanColumn(cells, x, y, cx, lo, y) ==
        ScanColumn(cells, x, y, cx, lo, y - 1) + Counted(cells, x, y, cx, y - 1);
    } else {
      assert ScanColumn(cells, x, y, cx, lo, y) == 0;
    }
  }

  /** The clamped-below, filtered-above scan of the source counts exactly the reference count. */
  lemma {:induction false} ScanIsAdjacentMines(cells: seq<seq<Cell>>, x: nat, y: nat)
    ensures ScanWindow(cells, x, y, Below(x), x + 2, Below(y)) == AdjacentMines(cells, x, y)
  {
    var lo, ylo := Below(x), Below(y);
    ScanColumnIs(cells, x, y, x + 1);
    ScanColumnIs(cells, x, y, x);
    assert ScanWindow(cells, x, y, lo, x + 2, ylo) ==
      ScanWindow(cells, x, y, lo, x + 1, ylo) + ScanColumn(cells, x, y, x + 1, ylo, y + 2);
    assert ScanWindow(cells, x, y, lo, x + 1, ylo) ==
      ScanWindow(cells, x, y, lo, x, ylo) + ScanColumn(cells, x, y, x, ylo, y + 2);
    if x > 0 {
      ScanColumnIs(cells, x, y, x - 1);
      assert ScanWindow(cells, x, y, lo, x, ylo) ==
        ScanWindow(cells, x, y, lo, x - 1, ylo) + ScanColumn(cells, x, y, x - 1, ylo, y + 2);
    } else {
      assert ScanWindow(cells, x, y, lo, x, ylo) == 0;
    }
  }

  /**
   * Counts the mines around (x, y) by scanning the columns from max(x - 1, 0) to x + 1 and the
   * rows from max(y - 1, 0) to y + 1, skipping (x, y) and every position the lookup rejects.
   */
  method CountNeighbours(cells: seq<seq<Cell>>, x: nat, y: nat) returns (r: Result<nat>)
    ensures |cells| == 0 ==> r == Err(EmptyField)
    ensures |cells| > 0 && !InBounds(cells, x, y) ==> r == Err(OutOfBounds(x, y))
    ensures |cells| > 0 && InBounds(cells, x, y) ==> r == Ok(AdjacentMines(cells, x, y))
    ensures r.Ok? ==> r.value <= 8
  {
    var counter := 0;
    if |cells| == 0 {
      return Err(EmptyField);
    }
    var minX := if x > 0 then x - 1 else x;
    var minY := if y > 0 then y - 1 else y;
    if x >= |cells| {
      return Err(OutOfBounds(x, y));
    }
    for cx := minX to x + 2
      invariant cx > minX ==> y < |cells[x]|
      invariant counter == ScanWindow(cells, x, y, minX, cx, minY)
    {
      if y >= |cells[x]| {
        return Err(OutOfBounds(x, y));
      }
      for cy := minY to y + 2
        invariant counter == ScanWindow(cells, x, y, minX, cx, minY) + ScanColumn(cells, x, y, cx, minY, cy)
      {
        if !(cx == x && cy == y) {
          var cell := Get2d(cells, cx, cy);
          if cell.Ok? && cell.value.value == CellValue.Mine {
            counter := counter + 1;
          }
        }
      }
    }
    ScanIsAdjacentMines(cells, x, y);
    return Ok(counter);
  }

  /** The grid of neighbour counts, one per cell, of the same shape as `cells`. */
  ghost function NumbersOf(cells: seq<seq<Cell>>): (numbers: seq<seq<nat>>)
    ensures SameShape(numbers, cells)
  {
    seq(|cells|, x requires 0 <= x < |cells| =>
      seq(|cells[x]|, y requires 0 <= y < |cells[x]| => AdjacentMines(cells, x, y)))
  }

  /** The grid's cells have the same contents; only opened and flag state may differ. */
  predicate SameValues(a: seq<seq<Cell>>, b: seq<seq<Cell>>) {
    SameShape(a, b) &&
    forall x, y :: 0 <= x < |a| && 0 <= y < |a[x]| ==> a[x][y].value == b[x][y].value
  }

  /** The counts depend on the mine layout alone. */
  lemma NumbersOfValuesOnly(a: seq<seq<Cell>>, b: seq<seq<Cell>>)
    requires SameValues(a, b)
    ensures NumbersOf(a) == NumbersOf(b)
  {
    forall x, y | 0 <= x < |a| && 0 <= y < |a[x]|
      ensures AdjacentMines(a, x, y) == AdjacentMines(b, x, y)
    {
      forall i: int, j: int ensures MineAt(a, i, j) == MineAt(b, i, j) {
      }
    }
    forall x | 0 <= x < |a| ensures NumbersOf(a)[x] == NumbersOf(b)[x] {
    }
  }

  /** The set of elements of s. */
  function Elements<T>(s: seq<T>): set<T> {
    set e | e in s
  }

  /** The positions of the grid that hold a mine. */
  ghost function MineSet(cells: seq<seq<Cell>>): set<Coord> {
    set x: nat, y: nat | x < |cells| && y < |cells[x]| && cells[x][y].value == CellValue.Mine :: (x, y)
  }

  /** The positions of the grid that are not opened yet. */
  ghost function ClosedSet(cells: seq<seq<Cell>>): set<Coord> {
    set x: nat, y: nat | x < |cells| && y < |cells[x]| && !cells[x][y].isOpened :: (x, y)
  }

  /** The game is won when every water cell is opened. */
  predicate Won(cells: seq<seq<Cell>>) {
    forall x, y :: 0 <= x < |cells| && 0 <= y < |cells[x]| && cells[x][y].value == CellValue.Water ==>
      cells[x][y].isOpened
  }

  /** Winning means that only mines are left closed; flags and opened mines play no part. */
  lemma WonIffOnlyMinesClosed(cells: seq<seq<Cell>>)
    ensures Won(cells) <==> ClosedSet(cells) <= MineSet(cells)
  {
    if ClosedSet(cells) <= MineSet(cells) {
      forall x, y | 0 <= x < |cells| && 0 <= y < |cells[x]| && cells[x][y].value == CellValue.Water
        ensures cells[x][y].isOpened
      {
        assert !cells[x][y].isOpened ==> (x, y) in ClosedSet(cells);
      }
    }
  }

  /** The grid of the hand-computed example: mines at (0, 2), (1, 0), (2, 0) and (2, 2). */
  function ExampleGrid(): seq<seq<Cell>> {
    [[Cell.Water(), Cell.Water(), Cell.Mine()],
     [Cell.Mine(), Cell.Water(), Cell.Water()],
     [Cell.Mine(), Cell.Water(), Cell.Mine()]]
  }

  lemma ExampleNumbers()
    ensures NumbersOf(ExampleGrid()) == [[1, 2, 0], [1, 4, 2], [1, 3, 0]]
  {
    var g := ExampleGrid();
    var n := NumbersOf(g);
    assert n[0] == [1, 2, 0];
    assert n[1] == [1, 4, 2];
    assert n[2] == [1, 3, 0];
  }
}
