/**
 * The oldest Field variant (bg/softuni/model/Field.java): mine placement
 * without a capacity check and neighbour hints over the flag-less Cell
 * enumeration.
 */
module BasicField {
  import opened Wrappers
  import opened Coordinates
  import opened Grid
  import Board
  import E = MinesweeperCell

  const Tags: Board.Tags<E.Cell> := Board.Tags(E.Values, E.Mine)

  datatype Field = Field(rows: nat, columns: nat, minesCount: int, minesCells: map<Cell, E.Cell>)

  function MineCells(f: Field): set<Cell> {
    Board.MineCells(Tags, f.minesCells)
  }

  /** Class invariant: a finished hint grid with exactly the budgeted number of mines. */
  ghost predicate Valid(f: Field) {
    Board.WellFormed(f.rows, f.columns, Tags, f.minesCount, f.minesCells)
  }

  datatype Error = IllegalArgument | OutOfPicks

  /** The constructor: `placeMines` on the given picks, then `placeHints`; no capacity check. */
  method New(rows: nat, columns: nat, minesCount: int, picks: seq<Cell>) returns (r: Result<Field, Error>)
    requires Board.PicksInBounds(rows, columns, picks)
    ensures r == Failure(IllegalArgument) <==> 0 < minesCount && (rows == 0 || columns == 0)
    ensures r.Success? <==> Board.PlaceMines(rows, columns, minesCount, picks).Placed?
    ensures r.Success? ==> minesCount <= rows * columns
    ensures r.Success? ==> Valid(r.value)
    ensures r.Success? ==> r.value.rows == rows && r.value.columns == columns && r.value.minesCount == minesCount
    ensures r.Success? ==> |MineCells(r.value)| == if minesCount < 0 then 0 else minesCount
  {
    var grid := Board.Generate(rows, columns, Tags, minesCount, picks);
    if grid.Failure? {
      return if grid.error.ZeroBound? then Failure(IllegalArgument) else Failure(OutOfPicks);
    }
    if minesCount > rows * columns {
      Board.PlacementNeedsRoom(rows, columns, minesCount, picks);
    }
    return Success(Field(rows, columns, minesCount, grid.value));
  }

  /** `getCell`: Empty for any out-of-range coordinate, else the stored value. */
  function GetCell(f: Field, row: int, column: int): (v: E.Cell)
    requires Valid(f)
    ensures v == E.Mine <==> Cell(row, column) in MineCells(f)
    ensures !InBounds(f.rows, f.columns, Cell(row, column)) ==> v == E.Empty
    ensures InBounds(f.rows, f.columns, Cell(row, column)) && Cell(row, column) !in MineCells(f) ==>
              v == E.HintFor(Board.MinesAround(MineCells(f), Cell(row, column)))
  {
    Board.GetCellValue(f.rows, f.columns, Tags, f.minesCells, Cell(row, column))
  }

  /** `isMine(row, column)` holds exactly when `getCell` returns Mine. */
  function IsMine(f: Field, row: int, column: int): (b: bool)
    requires Valid(f)
    ensures b <==> Cell(row, column) in MineCells(f)
    ensures b ==> InBounds(f.rows, f.columns, Cell(row, column))
  {
    GetCell(f, row, column) == E.Mine
  }
}
