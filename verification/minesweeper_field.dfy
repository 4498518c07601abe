/**
 * The middle Field variant (minesweeper Field.java): mine placement without
 * a capacity check, neighbour hints, lookups and the flood fill.
 */
module MinesweeperField {
  import opened Wrappers
  import opened Coordinates
  import opened Grid
  import Board
  import V = MinesweeperCellValue

  const Tags: Board.Tags<V.CellValue> := Board.Tags(V.Values, V.Mine)

  datatype Field = Field(rows: nat, columns: nat, minesCount: int, minesCells: map<Cell, V.CellValue>)

  function MineCells(f: Field): set<Cell> {
    Board.MineCells(Tags, f.minesCells)
  }

  /** Class invariant: a finished hint grid with exactly the budgeted number of mines. */
  ghost predicate Valid(f: Field) {
    Board.WellFormed(f.rows, f.columns, Tags, f.minesCount, f.minesCells)
  }

  /** `nextInt` on a zero bound, and a pick stream too short for the placement loop. */
  datatype Error = IllegalArgument | OutOfPicks

  /**
   * The constructor: place mines by rejection sampling on the given picks,
   * then compute the hints. There is no capacity check, so a budget above
   * rows * columns never lets the loop end.
   */
  method New(rows: nat, columns: nat, minesCount: int, picks: seq<Cell>) returns (r: Result<Field, Error>)
    requires Board.PicksInBounds(rows, columns, picks)
    ensures r == Failure(IllegalArgument) <==> 0 < minesCount && (rows == 0 || columns == 0)
    ensures r.Success? <==> Board.PlaceMines(rows, columns, minesCount, picks).Placed?
    ensures r.Success? ==> minesCount <= rows * columns
    ensures r.Success? ==> Valid(r.value)
    ensures r.Success? ==> r.value.rows == rows && r.value.columns == columns && r.value.minesCount == minesCount
    ensures r.Success? ==> |MineCells(r.value)| == if minesCount < 0 then 0 else minesCount
  {
    var grid := Board.Generate(rows, columns, Tags, minesCount, picks);
    if grid.Failure? {
      return if grid.error.ZeroBound? then Failure(IllegalArgument) else Failure(OutOfPicks);
    }
    if minesCount > rows * columns {
      Board.PlacementNeedsRoom(rows, columns, minesCount, picks);
    }
    return Success(Field(rows, columns, minesCount, grid.value));
  }

  /** `getCellValue(row, column)`: Empty off the grid, Mine on a mine, else the hint for the adjacent mines. */
  function GetCellValue(f: Field, row: int, column: int): (v: V.CellValue)
    requires Valid(f)
    ensures v == V.Mine <==> Cell(row, column) in MineCells(f)
    ensures !InBounds(f.rows, f.columns, Cell(row, column)) ==> v == V.Empty
    ensures InBounds(f.rows, f.columns, Cell(row, column)) && Cell(row, column) !in MineCells(f) ==>
              v == V.HintFor(Board.MinesAround(MineCells(f), Cell(row, column)))
  {
    Board.GetCellValue(f.rows, f.columns, Tags, f.minesCells, Cell(row, column))
  }

  /** `getCellValue(Cell)`: the same lookup through a coordinate. */
  function GetCellValueOf(f: Field, cell: Cell): (v: V.CellValue)
    requires Valid(f)
    ensures v == V.Mine <==> cell in MineCells(f)
    ensures !InBounds(f.rows, f.columns, cell) ==> v == V.Empty
    ensures InBounds(f.rows, f.columns, cell) && cell !in MineCells(f) ==> v == V.HintFor(Board.MinesAround(MineCells(f), cell))
  {
    GetCellValue(f, cell.row, cell.column)
  }

  /** `isMine`: holds only for mine cells, so never off the grid. */
  function IsMine(f: Field, row: int, column: int): (b: bool)
    requires Valid(f)
    ensures b <==> Cell(row, column) in MineCells(f)
    ensures b ==> InBounds(f.rows, f.columns, Cell(row, column))
  {
    GetCellValue(f, row, column) == V.Mine
  }

  /**
   * `getAdjacentCells`: fails on a mine start, fails on an off-grid start
   * (the array access), otherwise returns the flood-fill region.
   */
  method AdjacentCells(f: Field, row: int, column: int) returns (r: Result<set<Cell>, Board.Fault>)
    requires Valid(f)
    ensures r == Failure(Board.MineStart) <==> IsMine(f, row, column)
    ensures r == Failure(Board.IndexOutOfBounds) <==> !InBounds(f.rows, f.columns, Cell(row, column))
    ensures r.Success? ==> Board.Region(Tags, f.minesCells, Cell(row, column), r.value)
    ensures r.Success? ==> Cell(row, column) in r.value
    ensures r.Success? ==> forall c :: c in r.value ==> InBounds(f.rows, f.columns, c) && !IsMine(f, c.row, c.column)
    ensures r.Success? && GetCellValue(f, row, column) != V.Empty ==> r.value == {Cell(row, column)}
  {
    r := Board.AdjacentCells(f.rows, f.columns, Tags, f.minesCells, Cell(row, column));
    if r.Success? && GetCellValue(f, row, column) != V.Empty {
      Board.HintStartRevealsItself(Tags, f.minesCells, Cell(row, column), r.value);
    }
  }
}
