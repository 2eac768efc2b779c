/**
 * Generation of a fresh grid: validation of the requested size, placement of the mines by
 * rejection sampling, and the construction of the columns from the list of mine coordinates.
 * The random generator is an oracle: the sequence `draws` of the coordinates it would return.
 */
module Generation {
  import opened Mines
  import opened Grid

  /** No element of s occurs twice. */
  ghost predicate Distinct<T>(s: seq<T>) {
    forall i, j :: 0 <= i < j < |s| ==> s[i] != s[j]
  }

  /** Every coordinate of s lies in a field of `width` columns and `height` rows. */
  predicate AllInField(s: seq<Coord>, width: nat, height: nat) {
    forall i :: 0 <= i < |s| ==> s[i].0 < width && s[i].1 < height
  }

  /** A sequence without repetitions has as many distinct elements as it is long. */
  lemma {:induction false} DistinctCard<T>(s: seq<T>)
    requires Distinct(s)
    ensures |Elements(s)| == |s|
  {
    if |s| > 0 {
      var init := s[..|s| - 1];
      assert Distinct(init);
      DistinctCard(init);
      assert s == init + [s[|s| - 1]];
      assert Elements(s) == Elements(init) + {s[|s| - 1]};
      assert s[|s| - 1] !in Elements(init);
    }
  }

  /** Taking one more element of a sequence adds that element to the set of its prefix. */
  lemma ElementsExtend<T>(s: seq<T>, n: nat)
    requires n < |s|
    ensures Elements(s[..n + 1]) == Elements(s[..n]) + {s[n]}
  {
    assert s[..n + 1] == s[..n] + [s[n]];
  }

  /** The whole of a sequence has the same elements as the sequence. */
  lemma ElementsWhole<T>(s: seq<T>)
    ensures Elements(s[..|s|]) == Elements(s)
  {
    assert s[..|s|] == s;
  }

  /**
   * The placement loop: for each of the `mines` bombs, draw coordinates until they are not yet
   * taken. `draws` are the generator's outputs in order; it must hold at least `mines` distinct
   * coordinates for the loop to end (with a real generator this holds with probability one).
   */
  method SampleBombs(width: nat, height: nat, mines: nat, draws: seq<Coord>) returns (bombs: seq<Coord>)
    requires AllInField(draws, width, height)
    requires mines <= |Elements(draws)|
    ensures |bombs| == mines && Distinct(bombs)
    ensures AllInField(bombs, width, height)
    ensures Elements(bombs) <= Elements(draws)
  {
    bombs := [];
    var next := 0;
    for k := 0 to mines
      invariant |bombs| == k && Distinct(bombs) && AllInField(bombs, width, height)
      invariant next <= |draws|
      invariant Elements(bombs) == Elements(draws[..next])
    {
      while true
        invariant next <= |draws|
        invariant |bombs| == k && Distinct(bombs) && AllInField(bombs, width, height)
        invariant Elements(bombs) == Elements(draws[..next])
        decreases |draws| - next
      {
        DistinctCard(bombs);
        ElementsWhole(draws);
        if next == |draws| {
          // every draw is already a bomb, yet fewer than `mines` bombs exist
          assert false;
        }
        var coords := draws[next];
        ElementsExtend(draws, next);
        next := next + 1;
        if coords !in bombs {
          bombs := bombs + [coords];
          break;
        }
      }
    }
  }

  /** The columns built from the bomb list: a mine exactly where a bomb coordinate lies. */
  function BuildCells(width: nat, height: nat, bombs: seq<Coord>): (cells: seq<seq<Cell>>)
    ensures |cells| == width
    ensures forall x :: 0 <= x < width ==> |cells[x]| == height
    ensures forall x: nat, y: nat :: x < width && y < height ==>
      !cells[x][y].isOpened && !cells[x][y].isFlagged && cells[x][y].Valid() &&
      (cells[x][y].value == CellValue.Mine <==> (x, y) in bombs)
  {
    seq(width, x requires 0 <= x < width =>
      seq(height, y requires 0 <= y < height => if (x, y) in bombs then Cell.Mine() else Cell.Water()))
  }

  /**
   * The mines of the built grid are exactly the bomb coordinates; distinct bombs give as many
   * mines as there are bombs.
   */
  lemma BuildCellsMines(width: nat, height: nat, bombs: seq<Coord>)
    requires AllInField(bombs, width, height)
    ensures MineSet(BuildCells(width, height, bombs)) == Elements(bombs)
    ensures Distinct(bombs) ==> |MineSet(BuildCells(width, height, bombs))| == |bombs|
  {
    var cells := BuildCells(width, height, bombs);
    forall p | p in Elements(bombs) ensures p in MineSet(cells) {
      var i :| 0 <= i < |bombs| && bombs[i] == p;
      assert p.0 < width && p.1 < height;
    }
    if Distinct(bombs) {
      DistinctCard(bombs);
    }
  }

  /**
   * Generation of the initial grid. The request is refused with TooManyMines when fewer than ten
   * cells per mine exist, checked first, and with FieldTooSmall when both dimensions are below 8.
   * Otherwise the grid has `width` columns of `height` closed, unflagged cells and exactly `mines`
   * mines, all at drawn coordinates.
   */
  method GenerateCells(width: nat, height: nat, mines: nat, draws: seq<Coord>) returns (r: Result<seq<seq<Cell>>>)
    requires width * height < 0x1_0000 && mines * 10 < 0x1_0000
    requires AllInField(draws, width, height)
    requires width * height >= mines * 10 && (width >= 8 || height >= 8) ==> mines <= |Elements(draws)|
    ensures width * height < mines * 10 ==> r == Err(TooManyMines)
    ensures width * height >= mines * 10 && width < 8 && height < 8 ==> r == Err(FieldTooSmall(width, height))
    ensures width * height >= mines * 10 && (width >= 8 || height >= 8) ==>
      r.Ok? && |r.value| == width && (forall x :: 0 <= x < width ==> |r.value[x]| == height) &&
      (forall x: nat, y: nat :: x < width && y < height ==> !r.value[x][y].isOpened && !r.value[x][y].isFlagged) &&
      |MineSet(r.value)| == mines && MineSet(r.value) <= Elements(draws)
  {
    if width * height < mines * 10 {
      return Err(TooManyMines);
    }
    if width < 8 && height < 8 {
      return Err(FieldTooSmall(width, height));
    }
    var bombs := SampleBombs(width, height, mines, draws);
    var cells := BuildCells(width, height, bombs);
    BuildCellsMines(width, height, bombs);
    return Ok(cells);
  }
}
