/** Basic vocabulary of the game engine: errors, results and the state machine of one cell. */
module Mines {

  /** The error kinds an engine operation can report. */
  datatype MinesError =
    | MineOpened
    | OutOfBounds(x: nat, y: nat)
    | EmptyField
    | FieldTooSmall(width: nat, height: nat)
    | TooManyMines

  /** The outcome of a fallible operation. */
  datatype Result<T> = Ok(value: T) | Err(error: MinesError)

  datatype Option<T> = None | Some(value: T)

  /** A grid coordinate: column `x`, row `y`. */
  type Coord = (nat, nat)

  datatype CellValue = Mine | Water

  /**
   * One position of the board. A cell lives inside its column by value and is never shared,
   * so the operations that update it in place are modelled as functions returning the new cell.
   */
  datatype Cell = Cell(value: CellValue, isOpened: bool, isFlagged: bool) {

    /** The consistency of a cell: it is never opened and flagged at once. */
    predicate Valid() {
      !(isOpened && isFlagged)
    }

    /** A concealed, unflagged mine. */
    static function Mine(): (c: Cell)
      ensures c.value == CellValue.Mine && !c.isOpened && !c.isFlagged && c.Valid()
    {
      Cell(CellValue.Mine, false, false)
    }

    /** A concealed, unflagged water cell. */
    static function Water(): (c: Cell)
      ensures c.value == CellValue.Water && !c.isOpened && !c.isFlagged && c.Valid()
    {
      Cell(CellValue.Water, false, false)
    }

    /**
     * Opens the cell unless a flag protects it. Opening a mine reports MineOpened, but the
     * cell stays isOpened. The first component is the updated cell.
     */
    function Open(): (r: (Cell, Result<()>))
      ensures isFlagged ==> r == (this, Ok(()))
      ensures !isFlagged ==> r.0.isOpened && (r.1 == Err(MineOpened) <==> value == CellValue.Mine)
      ensures !isFlagged ==> (r.1 == Ok(()) <==> value == CellValue.Water)
      ensures r.0.value == value && r.0.isFlagged == isFlagged
      ensures Valid() ==> r.0.Valid()
    {
      if !isFlagged then
        var c := this.(isOpened := true);
        match value
        case Mine => (c, Err(MineOpened))
        case Water => (c, Ok(()))
      else
        (this, Ok(()))
    }

    /** Flips the flag of a concealed cell; an isOpened cell keeps its flag state. */
    function ToggleFlag(): (c: Cell)
      ensures isOpened ==> c == this
      ensures !isOpened ==> c.isFlagged == !isFlagged
      ensures c.value == value && c.isOpened == isOpened
      ensures Valid() ==> c.Valid()
    {
      if !isOpened then this.(isFlagged := !isFlagged) else this
    }
  }

  /** Two toggles restore the original cell. */
  lemma ToggleFlagTwice(c: Cell)
    ensures c.ToggleFlag().ToggleFlag() == c
  {
  }

  /** Opening is idempotent: a second open changes nothing more and reports the same outcome. */
  lemma OpenIdempotent(c: Cell)
    ensures c.Open().0.Open() == (c.Open().0, if c.isFlagged then Ok(()) else c.Open().1)
  {
  }
}
