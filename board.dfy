/**
 * The board: a grid of cells with its precomputed grid of neighbour counts, and the player's
 * operations on it (flag, open with its flood fill, and the win check).
 */
module Board {
  import opened Mines
  import opened Grid

  /** The only change a cell may undergo during play: it may be opened, and only if unflagged. */
  predicate Step(c: Cell, d: Cell) {
    d.value == c.value && d.isFlagged == c.isFlagged &&
    (c.isOpened ==> d.isOpened) &&
    (d.isOpened && !c.isOpened ==> !c.isFlagged)
  }

  /** Grid b is a later state of grid a: same shape and every cell changed by a Step at most. */
  ghost predicate Evolves(a: seq<seq<Cell>>, b: seq<seq<Cell>>) {
    SameShape(a, b) &&
    forall i, j :: 0 <= i < |a| && 0 <= j < |a[i]| ==> Step(a[i][j], b[i][j])
  }

  /** (i, j) is closed in a and opened in b. */
  ghost predicate NewlyOpened(a: seq<seq<Cell>>, b: seq<seq<Cell>>, i: nat, j: nat) {
    InBounds(a, i, j) && InBounds(b, i, j) && !a[i][j].isOpened && b[i][j].isOpened
  }

  /** (i, j) is water with no mine around it, by the counts grid. */
  ghost predicate ZeroWater(b: seq<seq<Cell>>, numbers: seq<seq<nat>>, i: nat, j: nat) {
    InBounds(b, i, j) && InBounds(numbers, i, j) && b[i][j].value == Water && numbers[i][j] == 0
  }

  /** A cell is settled when it is opened or protected by a flag. */
  predicate Settled(c: Cell) {
    c.isOpened || c.isFlagged
  }

  /** Every cell that went from a to b, other than (x, y), is water. */
  ghost predicate NoMineBeyond(a: seq<seq<Cell>>, b: seq<seq<Cell>>, x: nat, y: nat) {
    forall i: nat, j: nat :: NewlyOpened(a, b, i, j) && (i != x || j != y) ==> b[i][j].value == Water
  }

  /** Every zero-count water cell opened from a to b has all its neighbours settled. */
  ghost predicate CascadeClosed(a: seq<seq<Cell>>, b: seq<seq<Cell>>, numbers: seq<seq<nat>>) {
    forall i: nat, j: nat, ni: nat, nj: nat ::
      (NewlyOpened(a, b, i, j) && ZeroWater(b, numbers, i, j) &&
       Adjacent(i, j, ni, nj) && InBounds(b, ni, nj)) ==> Settled(b[ni][nj])
  }

  /**
   * A flood order: `order` lists positions so that every entry after the first is adjacent to an
   * earlier entry, its parent at index `parent[k]`, that is a zero-count water cell of b. The
   * parents form a spanning tree rooted at `order[0]`.
   */
  ghost predicate Chain(b: seq<seq<Cell>>, numbers: seq<seq<nat>>, order: seq<Coord>, parent: seq<nat>) {
    |parent| == |order| &&
    forall k {:trigger parent[k]} :: 1 <= k < |order| ==>
      parent[k] < k && ZeroWater(b, numbers, order[parent[k]].0, order[parent[k]].1) &&
      Adjacent(order[parent[k]].0, order[parent[k]].1, order[k].0, order[k].1)
  }

  /** Consecutive positions of the path are adjacent, and every one but the last is zero-count water. */
  ghost predicate FloodPath(b: seq<seq<Cell>>, numbers: seq<seq<nat>>, path: seq<Coord>) {
    forall k :: 0 <= k < |path| - 1 ==>
      ZeroWater(b, numbers, path[k].0, path[k].1) && Adjacent(path[k].0, path[k].1, path[k + 1].0, path[k + 1].1)
  }

  /** No cell is opened and flagged at once. */
  ghost predicate AllValid(cells: seq<seq<Cell>>) {
    forall i, j :: 0 <= i < |cells| && 0 <= j < |cells[i]| ==> cells[i][j].Valid()
  }

  /** The grid with cell (x, y) opened and nothing else changed. */
  function OpenedAt(cells: seq<seq<Cell>>, x: nat, y: nat): seq<seq<Cell>>
    requires InBounds(cells, x, y)
  {
    cells[x := cells[x][y := cells[x][y].(isOpened := true)]]
  }

  lemma EvolvesTransitive(a: seq<seq<Cell>>, b: seq<seq<Cell>>, c: seq<seq<Cell>>)
    requires Evolves(a, b) && Evolves(b, c)
    ensures Evolves(a, c)
  {
  }

  /** A settled cell stays settled: opened cells stay opened and flags do not change. */
  lemma EvolvesKeepsSettled(a: seq<seq<Cell>>, b: seq<seq<Cell>>)
    requires Evolves(a, b)
    ensures forall i: nat, j: nat :: InBounds(a, i, j) && Settled(a[i][j]) ==> Settled(b[i][j])
  {
    forall i: nat, j: nat | InBounds(a, i, j) && Settled(a[i][j]) ensures Settled(b[i][j]) {
      assert Step(a[i][j], b[i][j]);
    }
  }

  /** Opening a closed cell shrinks the set of closed cells: the measure of the flood fill. */
  lemma ClosedSetShrinks(a: seq<seq<Cell>>, b: seq<seq<Cell>>, x: nat, y: nat)
    requires Evolves(a, b) && NewlyOpened(a, b, x, y)
    ensures ClosedSet(b) < ClosedSet(a)
  {
    assert (x, y) in ClosedSet(a);
    assert (x, y) !in ClosedSet(b);
    forall p | p in ClosedSet(b) ensures p in ClosedSet(a) {
      var (i, j) := p;
      assert Step(a[i][j], b[i][j]);
    }
  }

  /** Opening the closed cell (x, y) removes exactly (x, y) from the closed cells. */
  lemma ClosedSetOpenedAt(a: seq<seq<Cell>>, x: nat, y: nat)
    requires InBounds(a, x, y) && !a[x][y].isOpened
    ensures ClosedSet(OpenedAt(a, x, y)) == ClosedSet(a) - {(x, y)}
    ensures ClosedSet(a) - ClosedSet(OpenedAt(a, x, y)) == {(x, y)}
  {
    assert (x, y) in ClosedSet(a);
  }

  /**
   * Builds the counts grid column by column: `numbers[x][y]` is the neighbour count of (x, y).
   * Every lookup succeeds, since (x, y) ranges over the grid itself.
   */
  method ComputeNumbers(cells: seq<seq<Cell>>) returns (numbers: seq<seq<nat>>)
    ensures SameShape(numbers, cells)
    ensures forall x, y :: 0 <= x < |cells| && 0 <= y < |cells[x]| ==>
      numbers[x][y] == AdjacentMines(cells, x, y) && numbers[x][y] <= 8
    ensures numbers == NumbersOf(cells)
  {
    numbers := [];
    for x := 0 to |cells|
      invariant |numbers| == x
      invariant forall i :: 0 <= i < x ==> numbers[i] == NumbersOf(cells)[i]
    {
      var col: seq<nat> := [];
      for y := 0 to |cells[x]|
        invariant |col| == y
        invariant forall j :: 0 <= j < y ==> col[j] == AdjacentMines(cells, x, j)
      {
        var n := CountNeighbours(cells, x, y);
        col := col + [n.value];
      }
      numbers := numbers + [col];
    }
  }

  /** The board object: the cells in play and their neighbour counts, fixed at construction. */
  class Field {
    var cells: seq<seq<Cell>>
    var numbers: seq<seq<nat>>

    /** The counts grid matches the mine layout. */
    ghost predicate Valid()
      reads this
    {
      numbers == NumbersOf(cells)
    }

    /** A board over the given cells, with every count computed once. */
    constructor WithCells(cells: seq<seq<Cell>>)
      ensures Valid() && this.cells == cells
      ensures SameShape(numbers, cells)
      ensures forall x, y :: 0 <= x < |cells| && 0 <= y < |cells[x]| ==> numbers[x][y] == AdjacentMines(cells, x, y)
    {
      var numbers := ComputeNumbers(cells);
      this.cells := cells;
      this.numbers := numbers;
    }

    /** Toggles the flag of (x, y); only a closed cell's flag changes. */
    method Flag(x: nat, y: nat) returns (r: Result<()>)
      requires Valid()
      modifies this
      ensures Valid() && numbers == old(numbers)
      ensures !InBounds(old(cells), x, y) ==> r == Err(OutOfBounds(x, y)) && cells == old(cells)
      ensures InBounds(old(cells), x, y) ==>
        r == Ok(()) && cells == old(cells)[x := old(cells)[x][y := old(cells)[x][y].ToggleFlag()]]
      ensures AllValid(old(cells)) ==> AllValid(cells)
    {
      var found := Get2d(cells, x, y);
      if found.Err? {
        return Err(found.error);
      }
      var cell := cells[x][y].ToggleFlag();
      cells := cells[x := cells[x][y := cell]];
      NumbersOfValuesOnly(old(cells), cells);
      return Ok(());
    }

    /**
     * Opens (x, y). An out-of-bounds coordinate is reported; an opened or flagged cell is left
     * alone; a mine is opened and reported. Opening a water cell whose count is zero opens
     * every neighbour the same way (see Cascade). The cascade runs only when the cell was
     * actually opened (see the README findings). The ghost `order` lists the opened positions
     * as a flood order rooted at (x, y).
     */
    method Open(x: nat, y: nat) returns (r: Result<()>, ghost order: seq<Coord>, ghost parent: seq<nat>)
      requires Valid()
      modifies this
      decreases ClosedSet(cells), 2
      ensures Valid() && numbers == old(numbers)
      ensures Evolves(old(cells), cells)
      ensures cells != old(cells) ==> NewlyOpened(old(cells), cells, x, y)
      ensures !InBounds(old(cells), x, y) ==> r == Err(OutOfBounds(x, y)) && cells == old(cells)
      ensures InBounds(old(cells), x, y) ==> Settled(cells[x][y])
      ensures InBounds(old(cells), x, y) && Settled(old(cells)[x][y]) ==> r == Ok(()) && cells == old(cells)
      ensures InBounds(old(cells), x, y) && !Settled(old(cells)[x][y]) && old(cells)[x][y].value == Mine ==>
        r == Err(MineOpened) && cells == OpenedAt(old(cells), x, y)
      ensures InBounds(old(cells), x, y) && !Settled(old(cells)[x][y]) && old(cells)[x][y].value == Water ==>
        r == Ok(()) && (numbers[x][y] != 0 ==> cells == OpenedAt(old(cells), x, y))
      ensures NoMineBeyond(old(cells), cells, x, y)
      ensures CascadeClosed(old(cells), cells, numbers)
      ensures Elements(order) == ClosedSet(old(cells)) - ClosedSet(cells)
      ensures order != [] ==> order[0] == (x, y)
      ensures Chain(cells, numbers, order, parent)
      ensures AllValid(old(cells)) ==> AllValid(cells)
    {
      order, parent := [], [];
      NothingOpened(cells, numbers, x, y);
      var found := Get2d(cells, x, y);
      if found.Err? {
        r := Err(found.error);
        return;
      }
      if cells[x][y].isOpened {
        r := Ok(());
        return;
      }
      var (cell, res) := cells[x][y].Open();
      if !cell.isOpened {
        // a flag keeps the cell closed: nothing changes, and no cascade follows
        r := Ok(());
        return;
      }
      cells := cells[x := cells[x][y := cell]];
      NumbersOfValuesOnly(old(cells), cells);
      OnlyOneOpened(old(cells), numbers, x, y);
      order, parent := [(x, y)], [0];
      if res.Err? {
        r := res;
        return;
      }
      if numbers[x][y] == 0 {
        ghost var afterOwn := cells;
        ClosedSetShrinks(old(cells), cells, x, y);
        order, parent := Cascade(x, y, ClosedSet(old(cells)));
        OpenThenCascade(old(cells), afterOwn, cells, numbers, x, y);
      }
      r := Ok(());
    }

    /**
     * The cascade of Open around the zero-count water cell (x, y): opens every position of the
     * columns max(x - 1, 0) to x + 1 and rows max(y - 1, 0) to y + 1, (x, y) included, dropping
     * the outcomes. `bound` is the closed set at the start of the Open that led here. The ghost
     * `order` starts with (x, y) and adds the nested calls' orders.
     */
    method Cascade(x: nat, y: nat, ghost bound: set<Coord>) returns (ghost order: seq<Coord>, ghost parent: seq<nat>)
      requires Valid() && InBounds(cells, x, y) && cells[x][y].isOpened && ZeroWater(cells, numbers, x, y)
      requires ClosedSet(cells) < bound
      modifies this
      decreases bound, 1
      ensures Valid() && numbers == old(numbers)
      ensures Evolves(old(cells), cells)
      ensures forall i: nat, j: nat :: Adjacent(x, y, i, j) && InBounds(cells, i, j) ==> Settled(cells[i][j])
      ensures NoMineBeyond(old(cells), cells, x, y)
      ensures CascadeClosed(old(cells), cells, numbers)
      ensures |order| > 0 && order[0] == (x, y)
      ensures Elements(order) == {(x, y)} + (ClosedSet(old(cells)) - ClosedSet(cells))
      ensures Chain(cells, numbers, order, parent)
    {
      order, parent := [(x, y)], [0];
      var mx := if x > 0 then x - 1 else 0;
      for nx := mx to x + 2
        invariant Valid() && numbers == old(numbers)
        invariant Evolves(old(cells), cells)
        invariant forall i: nat, j: nat :: mx <= i < nx && Below(y) <= j < y + 2 && InBounds(cells, i, j) ==>
          Settled(cells[i][j])
        invariant NoMineBeyond(old(cells), cells, x, y)
        invariant CascadeClosed(old(cells), cells, numbers)
        invariant |order| > 0 && order[0] == (x, y)
        invariant Elements(order) == {(x, y)} + (ClosedSet(old(cells)) - ClosedSet(cells))
        invariant Chain(cells, numbers, order, parent)
      {
        ghost var before := cells;
        order, parent := CascadeColumn(x, y, nx, old(cells), bound, order, parent);
        EvolvesKeepsSettled(before, cells);
        forall i: nat, j: nat | mx <= i < nx + 1 && Below(y) <= j < y + 2 && InBounds(cells, i, j)
          ensures Settled(cells[i][j])
        {
          if i < nx {
            assert InBounds(before, i, j) && Settled(before[i][j]);
          } else {
            assert i == nx && Below(y) <= j < y + 2 && InBounds(cells, nx, j);
          }
        }
      }
    }

    /**
     * Column nx of the cascade around (x, y): opens rows max(y - 1, 0) to y + 1 of that column.
     * `entry` is the board when the cascade began; the flood order grows from `order0`.
     */
    method CascadeColumn(x: nat, y: nat, nx: nat, ghost entry: seq<seq<Cell>>, ghost bound: set<Coord>,
                         ghost order0: seq<Coord>, ghost parent0: seq<nat>)
      returns (ghost order: seq<Coord>, ghost parent: seq<nat>)
      requires Valid() && numbers == NumbersOf(entry)
      requires InBounds(entry, x, y) && entry[x][y].isOpened && ZeroWater(entry, numbers, x, y)
      requires Below(x) <= nx <= x + 1
      requires Evolves(entry, cells) && ClosedSet(entry) < bound
      requires NoMineBeyond(entry, cells, x, y) && CascadeClosed(entry, cells, numbers)
      requires |order0| > 0 && order0[0] == (x, y)
      requires Elements(order0) == {(x, y)} + (ClosedSet(entry) - ClosedSet(cells))
      requires Chain(cells, numbers, order0, parent0)
      modifies this
      decreases bound, 0
      ensures Valid() && numbers == old(numbers)
      ensures Evolves(old(cells), cells) && Evolves(entry, cells)
      ensures forall j: nat :: Below(y) <= j < y + 2 && InBounds(cells, nx, j) ==> Settled(cells[nx][j])
      ensures NoMineBeyond(entry, cells, x, y) && CascadeClosed(entry, cells, numbers)
      ensures |order| > 0 && order[0] == (x, y)
      ensures Elements(order) == {(x, y)} + (ClosedSet(entry) - ClosedSet(cells))
      ensures Chain(cells, numbers, order, parent)
    {
      order, parent := order0, parent0;
      var my := if y > 0 then y - 1 else 0;
      for ny := my to y + 2
        invariant Valid() && numbers == old(numbers)
        invariant Evolves(old(cells), cells) && Evolves(entry, cells)
        invariant forall j: nat :: my <= j < ny && InBounds(cells, nx, j) ==> Settled(cells[nx][j])
        invariant NoMineBeyond(entry, cells, x, y) && CascadeClosed(entry, cells, numbers)
        invariant |order| > 0 && order[0] == (x, y)
        invariant Elements(order) == {(x, y)} + (ClosedSet(entry) - ClosedSet(cells))
        invariant Chain(cells, numbers, order, parent)
      {
        ghost var before := cells;
        ClosedSetMonotone(entry, cells);
        var ignored;
        ghost var nested: seq<Coord>, nestedParent: seq<nat>;
        ignored, nested, nestedParent := Open(nx, ny);
        CascadeStep(entry, before, cells, numbers, x, y, nx, ny);
        OrderStep(entry, before, cells, numbers, x, y, nx, ny, order, parent, nested, nestedParent);
        order, parent := order + nested, Graft(parent, nestedParent, |order|);
        EvolvesTransitive(old(cells), before, cells);
        EvolvesKeepsSettled(before, cells);
        forall j: nat | my <= j < ny + 1 && InBounds(cells, nx, j) ensures Settled(cells[nx][j]) {
          if j < ny {
            assert InBounds(before, nx, j) && Settled(before[nx][j]);
          }
        }
      }
    }

    /** Scans the whole grid for a closed water cell. */
    method IsWon() returns (won: bool)
      ensures won == Won(cells)
    {
      for x := 0 to |cells|
        invariant forall i, j :: 0 <= i < x && 0 <= j < |cells[i]| && cells[i][j].value == Water ==>
          cells[i][j].isOpened
      {
        for y := 0 to |cells[x]|
          invariant forall j :: 0 <= j < y && cells[x][j].value == Water ==> cells[x][j].isOpened
        {
          if cells[x][y].value == Water && !cells[x][y].isOpened {
            return false;
          }
        }
      }
      return true;
    }
  }

  lemma ClosedSetMonotone(a: seq<seq<Cell>>, b: seq<seq<Cell>>)
    requires Evolves(a, b)
    ensures ClosedSet(b) <= ClosedSet(a)
  {
    forall p | p in ClosedSet(b) ensures p in ClosedSet(a) {
      var (i, j) := p;
      assert Step(a[i][j], b[i][j]);
    }
  }

  /**
   * One nested call of the cascade around (x, y), at (nx, ny) and from `before` to `after`, keeps
   * the cascade's facts about everything opened since `entry`.
   */
  lemma CascadeStep(entry: seq<seq<Cell>>, before: seq<seq<Cell>>, after: seq<seq<Cell>>,
                    numbers: seq<seq<nat>>, x: nat, y: nat, nx: nat, ny: nat)
    requires numbers == NumbersOf(entry)
    requires InBounds(entry, x, y) && entry[x][y].isOpened && ZeroWater(entry, numbers, x, y)
    requires Evolves(entry, before) && Evolves(before, after)
    requires Below(x) <= nx <= x + 1 && Below(y) <= ny <= y + 1
    requires NoMineBeyond(entry, before, x, y)
    requires CascadeClosed(entry, before, numbers)
    requires after != before ==> NewlyOpened(before, after, nx, ny)
    requires NoMineBeyond(before, after, nx, ny)
    requires CascadeClosed(before, after, numbers)
    ensures Evolves(entry, after)
    ensures NoMineBeyond(entry, after, x, y)
    ensures CascadeClosed(entry, after, numbers)
  {
    EvolvesTransitive(entry, before, after);
    forall i: nat, j: nat | NewlyOpened(entry, after, i, j) && (i != x || j != y)
      ensures after[i][j].value == Water
    {
      if !before[i][j].isOpened && i == nx && j == ny {
        assert AdjacentMines(entry, x, y) == 0 by {
          assert numbers[x][y] == NumbersOf(entry)[x][y];
        }
        ZeroCountNoMine(entry, x, y, nx, ny);
      }
    }
    forall i: nat, j: nat, ni: nat, nj: nat |
      NewlyOpened(entry, after, i, j) && ZeroWater(after, numbers, i, j) &&
      Adjacent(i, j, ni, nj) && InBounds(after, ni, nj)
      ensures Settled(after[ni][nj])
    {
      if before[i][j].isOpened {
        assert NewlyOpened(entry, before, i, j);
        assert Step(before[ni][nj], after[ni][nj]);
      } else {
        assert NewlyOpened(before, after, i, j);
      }
    }
  }

  /** An Open that changes nothing meets Open's guarantees with an empty flood order. */
  lemma NothingOpened(cells: seq<seq<Cell>>, numbers: seq<seq<nat>>, x: nat, y: nat)
    ensures Evolves(cells, cells) && NoMineBeyond(cells, cells, x, y) && CascadeClosed(cells, cells, numbers)
    ensures Elements<Coord>([]) == ClosedSet(cells) - ClosedSet(cells) && Chain(cells, numbers, [], [])
  {
  }

  /**
   * Opening the closed, unflagged cell (x, y) alone, a mine or a water cell with a nonzero count,
   * meets Open's guarantees with the flood order [(x, y)].
   */
  lemma OnlyOneOpened(entry: seq<seq<Cell>>, numbers: seq<seq<nat>>, x: nat, y: nat)
    requires InBounds(entry, x, y) && !entry[x][y].isOpened && !entry[x][y].isFlagged
    ensures Evolves(entry, OpenedAt(entry, x, y)) && NewlyOpened(entry, OpenedAt(entry, x, y), x, y)
    ensures NoMineBeyond(entry, OpenedAt(entry, x, y), x, y)
    ensures ZeroWater(OpenedAt(entry, x, y), numbers, x, y) || CascadeClosed(entry, OpenedAt(entry, x, y), numbers)
    ensures Elements([(x, y)]) == ClosedSet(entry) - ClosedSet(OpenedAt(entry, x, y))
    ensures Chain(OpenedAt(entry, x, y), numbers, [(x, y)], [0])
    ensures AllValid(entry) ==> AllValid(OpenedAt(entry, x, y))
  {
    ClosedSetOpenedAt(entry, x, y);
    var after := OpenedAt(entry, x, y);
    forall i: nat, j: nat | InBounds(entry, i, j) && (i != x || j != y) ensures after[i][j] == entry[i][j] {
    }
  }

  /**
   * Open's own step (opening the closed, unflagged cell (x, y) of `entry` into `own`) followed by
   * the cascade from `own` to `final` gives Open's facts from `entry` to `final`.
   */
  lemma OpenThenCascade(entry: seq<seq<Cell>>, own: seq<seq<Cell>>, final: seq<seq<Cell>>,
                        numbers: seq<seq<nat>>, x: nat, y: nat)
    requires InBounds(entry, x, y) && !entry[x][y].isOpened && !entry[x][y].isFlagged
    requires own == OpenedAt(entry, x, y) && ZeroWater(own, numbers, x, y)
    requires Evolves(entry, own) && Evolves(own, final)
    requires forall i: nat, j: nat :: Adjacent(x, y, i, j) && InBounds(final, i, j) ==> Settled(final[i][j])
    requires NoMineBeyond(own, final, x, y)
    requires CascadeClosed(own, final, numbers)
    ensures Evolves(entry, final)
    ensures NewlyOpened(entry, final, x, y)
    ensures NoMineBeyond(entry, final, x, y)
    ensures CascadeClosed(entry, final, numbers)
    ensures {(x, y)} + (ClosedSet(own) - ClosedSet(final)) == ClosedSet(entry) - ClosedSet(final)
  {
    EvolvesTransitive(entry, own, final);
    assert Step(own[x][y], final[x][y]);
    forall i: nat, j: nat | NewlyOpened(entry, final, i, j) && (i != x || j != y)
      ensures NewlyOpened(own, final, i, j)
    {
      assert own[i][j] == entry[i][j];
    }
    ClosedSetOpenedAt(entry, x, y);
    ClosedSetMonotone(own, final);
    assert (x, y) !in ClosedSet(final);
  }

  /** The parent sequence of a flood order followed by a nested order rooted next to its first entry. */
  ghost function Graft(parent: seq<nat>, nestedParent: seq<nat>, n: nat): seq<nat> {
    parent + seq(|nestedParent|, i requires 0 <= i < |nestedParent| => if i == 0 then 0 else nestedParent[i] + n)
  }

  /** A flood order stays one while the board evolves: values and counts do not change. */
  lemma ChainEvolves(a: seq<seq<Cell>>, b: seq<seq<Cell>>, numbers: seq<seq<nat>>, order: seq<Coord>, parent: seq<nat>)
    requires Evolves(a, b) && Chain(a, numbers, order, parent)
    ensures Chain(b, numbers, order, parent)
  {
    forall k | 1 <= k < |order|
      ensures ZeroWater(b, numbers, order[parent[k]].0, order[parent[k]].1)
    {
      var (i, j) := order[parent[k]];
      assert Step(a[i][j], b[i][j]);
    }
  }

  /**
   * Appending the flood order of a nested call rooted at a neighbour of the first entry, a
   * zero-count water cell, gives a flood order again.
   */
  lemma ChainAppend(b: seq<seq<Cell>>, numbers: seq<seq<nat>>, order: seq<Coord>, parent: seq<nat>,
                    nested: seq<Coord>, nestedParent: seq<nat>)
    requires Chain(b, numbers, order, parent) && |order| > 0 && ZeroWater(b, numbers, order[0].0, order[0].1)
    requires Chain(b, numbers, nested, nestedParent)
    requires nested != [] ==> Adjacent(order[0].0, order[0].1, nested[0].0, nested[0].1)
    ensures Chain(b, numbers, order + nested, Graft(parent, nestedParent, |order|))
  {
    var all := order + nested;
    var g := Graft(parent, nestedParent, |order|);
    forall k | 1 <= k < |all|
      ensures g[k] < k && ZeroWater(b, numbers, all[g[k]].0, all[g[k]].1) &&
        Adjacent(all[g[k]].0, all[g[k]].1, all[k].0, all[k].1)
    {
      if k < |order| {
        assert g[k] == parent[k] && all[k] == order[k] && all[parent[k]] == order[parent[k]];
      } else if k == |order| {
        assert g[k] == 0 && all[k] == nested[0] && all[0] == order[0];
      } else {
        var m := k - |order|;
        assert g[k] == nestedParent[m] + |order|;
        assert all[k] == nested[m] && all[g[k]] == nested[nestedParent[m]];
      }
    }
  }

  /** For sets a ⊇ b ⊇ c, what leaves a before b and what leaves b before c is what leaves a before c. */
  lemma DifferenceSplit<T>(a: set<T>, b: set<T>, c: set<T>)
    requires c <= b <= a
    ensures (a - b) + (b - c) == a - c
  {
  }

  /**
   * One nested call of the cascade around (x, y), at (nx, ny) and from `before` to `after`, extends
   * the cascade's flood order by the nested call's order.
   */
  lemma OrderStep(entry: seq<seq<Cell>>, before: seq<seq<Cell>>, after: seq<seq<Cell>>,
                  numbers: seq<seq<nat>>, x: nat, y: nat, nx: nat, ny: nat,
                  order: seq<Coord>, parent: seq<nat>, nested: seq<Coord>, nestedParent: seq<nat>)
    requires InBounds(entry, x, y) && entry[x][y].isOpened && ZeroWater(entry, numbers, x, y)
    requires Evolves(entry, before) && Evolves(before, after)
    requires Below(x) <= nx <= x + 1 && Below(y) <= ny <= y + 1
    requires |order| > 0 && order[0] == (x, y)
    requires Elements(order) == {(x, y)} + (ClosedSet(entry) - ClosedSet(before))
    requires Chain(before, numbers, order, parent)
    requires Elements(nested) == ClosedSet(before) - ClosedSet(after)
    requires nested != [] ==> nested[0] == (nx, ny)
    requires Chain(after, numbers, nested, nestedParent)
    ensures Elements(order + nested) == {(x, y)} + (ClosedSet(entry) - ClosedSet(after))
    ensures Chain(after, numbers, order + nested, Graft(parent, nestedParent, |order|))
  {
    ClosedSetMonotone(entry, before);
    ClosedSetMonotone(before, after);
    DifferenceSplit(ClosedSet(entry), ClosedSet(before), ClosedSet(after));
    assert Elements(order + nested) == Elements(order) + Elements(nested);
    ChainEvolves(before, after, numbers, order, parent);
    assert Step(entry[x][y], after[x][y]);
    if nested != [] {
      assert (nx, ny) in Elements(nested);
      assert Step(entry[x][y], before[x][y]);
      assert (x, y) !in ClosedSet(before);
    }
    ChainAppend(after, numbers, order, parent, nested, nestedParent);
  }

  /**
   * The path through a flood order from its first entry to entry k, following parents: every
   * position it lists is reached from the first through adjacent zero-count water cells that it
   * also lists.
   */
  ghost function PathTo(b: seq<seq<Cell>>, numbers: seq<seq<nat>>, order: seq<Coord>, parent: seq<nat>, k: nat): (path: seq<Coord>)
    requires Chain(b, numbers, order, parent) && k < |order|
    ensures |path| > 0 && path[0] == order[0] && path[|path| - 1] == order[k]
    ensures FloodPath(b, numbers, path)
    ensures forall i :: 0 <= i < |path| ==> path[i] in Elements(order)
    decreases k
  {
    if k == 0 then [order[0]]
    else
      var prefix := PathTo(b, numbers, order, parent, parent[k]);
      assert prefix[|prefix| - 1] == order[parent[k]];
      prefix + [order[k]]
  }

  /**
   * The open operation as the source writes it, up to its first nested call: the coordinate and the
   * board that call receives, or None when the call returns before its cascade. The source cascades
   * whenever the count is zero, including when a flag kept the cell closed.
   */
  function AsWrittenFirstCall(cells: seq<seq<Cell>>, numbers: seq<seq<nat>>, x: nat, y: nat)
    : (next: Option<(nat, nat, seq<seq<Cell>>)>)
    requires SameShape(numbers, cells)
    ensures next.Some? <==>
      InBounds(cells, x, y) && !cells[x][y].isOpened && numbers[x][y] == 0 &&
      (cells[x][y].isFlagged || cells[x][y].value == Water)
    ensures next.Some? ==> next.value.0 == Below(x) && next.value.1 == Below(y)
    ensures next.Some? && cells[x][y].isFlagged ==> next.value.2 == cells
    ensures next.Some? && !cells[x][y].isFlagged ==> next.value.2 == OpenedAt(cells, x, y)
  {
    if !InBounds(cells, x, y) || cells[x][y].isOpened then None
    else
      var (cell, res) := cells[x][y].Open();
      if res.Err? || numbers[x][y] != 0 then None
      else
        assert cell.isFlagged ==> cells[x][y := cell] == cells[x];
        Some((if x > 0 then x - 1 else 0, if y > 0 then y - 1 else 0, cells[x := cells[x][y := cell]]))
  }

  /**
   * On a flagged, closed corner cell with a zero count, the source's open calls itself at once with
   * the same coordinate and the same board, so it never returns.
   */
  lemma AsWrittenSelfCall(cells: seq<seq<Cell>>, numbers: seq<seq<nat>>)
    requires SameShape(numbers, cells) && InBounds(cells, 0, 0)
    requires cells[0][0].isFlagged && !cells[0][0].isOpened && numbers[0][0] == 0
    ensures AsWrittenFirstCall(cells, numbers, 0, 0) == Some((0, 0, cells))
  {
  }

  /** The single flagged water cell has no mine around it. */
  lemma FlaggedWaterCount()
    ensures NumbersOf([[Cell(Water, false, true)]])[0][0] == 0
  {
    var cells := [[Cell(Water, false, true)]];
    assert MineAt(cells, 0, 1) == 0 && MineAt(cells, 1, 0) == 0 && MineAt(cells, 1, 1) == 0;
  }

  /**
   * A concrete board showing it: a single flagged water cell, whose neighbour count is zero; with
   * its own counts the source's open calls itself on the same arguments.
   */
  lemma AsWrittenDiverges()
    ensures AsWrittenFirstCall([[Cell(Water, false, true)]], NumbersOf([[Cell(Water, false, true)]]), 0, 0)
      == Some((0, 0, [[Cell(Water, false, true)]]))
  {
    FlaggedWaterCount();
    AsWrittenSelfCall([[Cell(Water, false, true)]], NumbersOf([[Cell(Water, false, true)]]));
  }
}
