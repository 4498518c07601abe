/**
 * The fullest Field variant (poosweeper Field.java): a poo grid fixed at
 * construction, a flag set capped by the poo budget, an opened set and the
 * win predicate. A Field value is immutable; the mutators return the next one.
 */
module PoosweeperField {
  import opened Wrappers
  import opened Coordinates
  import opened Grid
  import Board
  import V = PoosweeperCellValue

  /** The enumeration as the shared grid logic sees it: `values()` and the mine constant `Poo`. */
  const Tags: Board.Tags<V.CellValue> := Board.Tags(V.Values, V.Poo)

  datatype Field = Field(
    rows: nat,
    columns: nat,
    pooCount: int,                        // the budget given to the constructor
    pooCells: map<Cell, V.CellValue>,     // the grid
    flagsCells: set<Cell>,
    openedCells: set<Cell>)

  /** The cells holding Poo. */
  function PooCells(f: Field): set<Cell> {
    Board.MineCells(Tags, f.pooCells)
  }

  /** The in-bound cells that are not Poo: what a winner must open. */
  function SafeCells(f: Field): set<Cell> {
    Cells(f.rows, f.columns) - PooCells(f)
  }

  /**
   * Class invariant: the grid is a finished hint grid with exactly the budgeted
   * number of Poos, and flags never outnumber the budget.
   */
  ghost predicate Valid(f: Field) {
    && Board.WellFormed(f.rows, f.columns, Tags, f.pooCount, f.pooCells)
    && |f.flagsCells| <= if f.pooCount < 0 then 0 else f.pooCount
  }

  /** The constructor's exceptions, and a pick stream too short for the placement loop. */
  datatype Error = IllegalArgument | OutOfPicks

  /**
   * The constructor: reject a budget above rows * columns, place the Poos by
   * rejection sampling on the given picks, then compute the hints.
   */
  method New(rows: nat, columns: nat, pooCount: int, picks: seq<Cell>) returns (r: Result<Field, Error>)
    requires Board.PicksInBounds(rows, columns, picks)
    ensures r == Failure(IllegalArgument) <==> rows * columns < pooCount
    ensures r.Success? <==> pooCount <= rows * columns && Board.PlaceMines(rows, columns, pooCount, picks).Placed?
    ensures r.Success? ==> Valid(r.value)
    ensures r.Success? ==> r.value.rows == rows && r.value.columns == columns && r.value.pooCount == pooCount
    ensures r.Success? ==> r.value.flagsCells == {} && r.value.openedCells == {} && GetPooCount(r.value) == pooCount
    ensures r.Success? ==> |PooCells(r.value)| == if pooCount < 0 then 0 else pooCount
    ensures r.Success? ==> (IsSolved(r.value) <==> pooCount == rows * columns)
  {
    if rows * columns < pooCount {
      return Failure(IllegalArgument);
    }
    var grid := Board.Generate(rows, columns, Tags, pooCount, picks);
    if grid.Failure? {
      // ZeroBound needs 0 < pooCount <= rows * columns == 0, so only an exhausted stream lands here.
      return Failure(OutOfPicks);
    }
    return Success(Field(rows, columns, pooCount, grid.value, {}, {}));
  }

  /** `getPooCount`: the budget minus the flags; never negative for a non-negative budget. */
  function GetPooCount(f: Field): (n: int)
    requires Valid(f)
    ensures n <= f.pooCount
    ensures f.pooCount >= 0 ==> 0 <= n
    ensures n == f.pooCount <==> f.flagsCells == {}
  {
    f.pooCount - |f.flagsCells|
  }

  /** `isFlagged`: a flag can only stand while the budget allows one, so the counter is then below the budget. */
  function IsFlagged(f: Field, row: int, column: int): (b: bool)
    requires Valid(f)
    ensures b ==> 0 < f.pooCount && GetPooCount(f) < f.pooCount
  {
    Cell(row, column) in f.flagsCells
  }

  /** `isOpen`: the cell has been opened; which cells that is follows from the moves played (`OpenedByMoves`). */
  predicate IsOpen(f: Field, row: int, column: int) {
    Cell(row, column) in f.openedCells
  }

  /**
   * `getCellValue`: Empty off the grid; on it, Poo for a Poo cell and
   * otherwise the hint for the number of adjacent Poos.
   */
  function GetCellValue(f: Field, row: int, column: int): (v: V.CellValue)
    requires Valid(f)
    ensures v == V.Poo <==> Cell(row, column) in PooCells(f)
    ensures !InBounds(f.rows, f.columns, Cell(row, column)) ==> v == V.Empty
    ensures Cell(row, column) in SafeCells(f) ==> v == V.HintFor(Board.MinesAround(PooCells(f), Cell(row, column)))
  {
    Board.GetCellValue(f.rows, f.columns, Tags, f.pooCells, Cell(row, column))
  }

  /** `isPoo`: holds only for Poo cells, so never off the grid. */
  function IsPoo(f: Field, row: int, column: int): (b: bool)
    requires Valid(f)
    ensures b <==> Cell(row, column) in PooCells(f)
    ensures b ==> InBounds(f.rows, f.columns, Cell(row, column))
  {
    GetCellValue(f, row, column) == V.Poo
  }

  /**
   * `toggleFlag`: unflag a flagged cell (false); flag an unflagged one while
   * the counter is positive (true); otherwise change nothing (false). The
   * result says whether the cell is flagged afterwards.
   */
  function ToggleFlag(f: Field, row: int, column: int): (r: (Field, bool))
    requires Valid(f)
    ensures Valid(r.0)
    ensures r.0 == f.(flagsCells := r.0.flagsCells)
    ensures r.1 <==> IsFlagged(r.0, row, column)
    ensures forall c :: c != Cell(row, column) ==> (c in r.0.flagsCells <==> c in f.flagsCells)
    ensures IsFlagged(f, row, column) ==> !r.1
    ensures !IsFlagged(f, row, column) ==> (r.1 <==> GetPooCount(f) > 0)
    ensures GetPooCount(r.0) == GetPooCount(f) + (if IsFlagged(f, row, column) then 1 else if r.1 then -1 else 0)
  {
    var cell := Cell(row, column);
    if cell in f.flagsCells then
      (f.(flagsCells := f.flagsCells - {cell}), false)
    else if GetPooCount(f) > 0 then
      (f.(flagsCells := f.flagsCells + {cell}), true)
    else
      (f, false)
  }

  /** `openCell`: mark the cell opened, drop any flag on it, and return its value. */
  function OpenCell(f: Field, cell: Cell): (r: (Field, V.CellValue))
    requires Valid(f)
    ensures Valid(r.0)
    ensures IsOpen(r.0, cell.row, cell.column) && !IsFlagged(r.0, cell.row, cell.column)
    ensures r.0.rows == f.rows && r.0.columns == f.columns && r.0.pooCount == f.pooCount && r.0.pooCells == f.pooCells
    ensures forall c :: c != cell ==> (c in r.0.openedCells <==> c in f.openedCells) && (c in r.0.flagsCells <==> c in f.flagsCells)
    ensures r.1 == GetCellValue(f, cell.row, cell.column)
  {
    var f' := f.(openedCells := f.openedCells + {cell}, flagsCells := f.flagsCells - {cell});
    (f', GetCellValue(f', cell.row, cell.column))
  }

  /** With a non-negative budget, the cells without a Poo number rows * columns - pooCount. */
  lemma SafeCellsCount(f: Field)
    requires Valid(f) && f.pooCount >= 0
    ensures |SafeCells(f)| == f.rows * f.columns - f.pooCount
  {
    CellsCount(f.rows, f.columns);
    assert PooCells(f) <= Cells(f.rows, f.columns);
  }

  /** `isSolved`: as many opened cells as there are cells without a Poo. */
  function IsSolved(f: Field): (b: bool)
    ensures Valid(f) && f.pooCount >= 0 ==> (b <==> |f.openedCells| == |SafeCells(f)|)
  {
    var b := |f.openedCells| + f.pooCount == f.rows * f.columns;
    assert Valid(f) && f.pooCount >= 0 ==> |SafeCells(f)| == f.rows * f.columns - f.pooCount by {
      if Valid(f) && f.pooCount >= 0 {
        SafeCellsCount(f);
      }
    }
    b
  }

  /**
   * `getAdjacentCells`: fails on a Poo start, fails on an off-grid start
   * (the array access), and otherwise returns the flood-fill region.
   */
  method AdjacentCells(f: Field, row: int, column: int) returns (r: Result<set<Cell>, Board.Fault>)
    requires Valid(f)
    ensures r == Failure(Board.MineStart) <==> IsPoo(f, row, column)
    ensures r == Failure(Board.IndexOutOfBounds) <==> !InBounds(f.rows, f.columns, Cell(row, column))
    ensures r.Success? ==> Board.Region(Tags, f.pooCells, Cell(row, column), r.value)
    ensures r.Success? ==> Cell(row, column) in r.value && r.value <= SafeCells(f)
    ensures r.Success? && GetCellValue(f, row, column) != V.Empty ==> r.value == {Cell(row, column)}
  {
    r := Board.AdjacentCells(f.rows, f.columns, Tags, f.pooCells, Cell(row, column));
    if r.Success? && GetCellValue(f, row, column) != V.Empty {
      Board.HintStartRevealsItself(Tags, f.pooCells, Cell(row, column), r.value);
    }
  }

  // ---------------------------------------------------------------- properties

  /**
   * When only cells without a Poo have been opened (as the flood fill
   * guarantees), the field is solved exactly when all of them are open.
   */
  lemma SolvedIffSafeCellsOpen(f: Field)
    requires Valid(f) && f.pooCount >= 0
    requires f.openedCells <= SafeCells(f)
    ensures IsSolved(f) <==> f.openedCells == SafeCells(f)
  {
    SafeCellsCount(f);
    if IsSolved(f) {
      assert |f.openedCells| == |SafeCells(f)|;
      assert SafeCells(f) - f.openedCells == {} by {
        assert |SafeCells(f)| == |f.openedCells| + |SafeCells(f) - f.openedCells|;
      }
    }
  }

  /** Toggling any cell twice restores the field; the second answer is whether the cell was flagged to begin with. */
  lemma ToggleFlagTwice(f: Field, row: int, column: int)
    requires Valid(f)
    ensures ToggleFlag(ToggleFlag(f, row, column).0, row, column) == (f, IsFlagged(f, row, column))
  {
    var cell := Cell(row, column);
    if cell in f.flagsCells {
      assert f.flagsCells - {cell} + {cell} == f.flagsCells;
    } else {
      assert f.flagsCells + {cell} - {cell} == f.flagsCells;
    }
  }

  /** Opening a cell twice is the same as opening it once. */
  lemma OpenCellIdempotent(f: Field, cell: Cell)
    requires Valid(f)
    ensures OpenCell(OpenCell(f, cell).0, cell) == OpenCell(f, cell)
  {
    var g := OpenCell(f, cell).0;
    assert g.openedCells + {cell} == g.openedCells;
    assert g.flagsCells - {cell} == g.flagsCells;
  }

  /** `toggleFlag` does not consult the opened set: flagging an open cell makes the two sets overlap. */
  lemma FlagOnOpenCellOverlaps(f: Field, row: int, column: int)
    requires Valid(f) && IsOpen(f, row, column) && !IsFlagged(f, row, column) && GetPooCount(f) > 0
    ensures ToggleFlag(f, row, column).0.flagsCells * f.openedCells != {}
  {
  }

  /** A move of the game loop: a secondary click, or opening one cell of a flood-fill result. */
  datatype Move = Toggle(row: int, column: int) | Open(cell: Cell)

  /** A move that obeys the caller's rules: never toggle an opened cell, open only non-Poo cells of the grid. */
  predicate Allowed(f: Field, m: Move)
    requires Valid(f)
  {
    match m
    case Toggle(row, column) => !IsOpen(f, row, column)
    case Open(cell) => cell in SafeCells(f)
  }

  function Apply(f: Field, m: Move): (g: Field)
    requires Valid(f)
    ensures Valid(g)
  {
    match m
    case Toggle(row, column) => ToggleFlag(f, row, column).0
    case Open(cell) => OpenCell(f, cell).0
  }

  function Play(f: Field, moves: seq<Move>): (g: Field)
    requires Valid(f)
    ensures Valid(g)
    decreases |moves|
  {
    if moves == [] then f else Play(Apply(f, moves[0]), moves[1..])
  }

  /** The game-loop state a session keeps: flags and openings disjoint, and only non-Poo cells opened. */
  ghost predicate Tidy(f: Field) {
    && f.flagsCells !! f.openedCells
    && f.openedCells <= SafeCells(f)
  }

  /** One allowed move keeps the grid, the dimensions and the budget, and keeps the session tidy. */
  lemma AllowedMoveKeepsTidy(f: Field, m: Move)
    requires Valid(f) && Tidy(f) && Allowed(f, m)
    ensures var g := Apply(f, m);
      && g.rows == f.rows && g.columns == f.columns && g.pooCount == f.pooCount && g.pooCells == f.pooCells
      && Tidy(g)
  {
  }

  /** One move opens exactly the cell it names, if any. */
  lemma ApplyOpens(f: Field, m: Move, cell: Cell)
    requires Valid(f)
    ensures IsOpen(Apply(f, m), cell.row, cell.column) <==> IsOpen(f, cell.row, cell.column) || m == Open(cell)
  {
  }

  /** `isOpen` after a session: a cell is open exactly when it was open before or some move opened it. */
  lemma {:induction false} OpenedByMoves(f: Field, moves: seq<Move>, cell: Cell)
    requires Valid(f)
    ensures IsOpen(Play(f, moves), cell.row, cell.column) <==> IsOpen(f, cell.row, cell.column) || Open(cell) in moves
    decreases |moves|
  {
    if moves != [] {
      var g := Apply(f, moves[0]);
      assert Play(f, moves) == Play(g, moves[1..]);
      OpenedByMoves(g, moves[1..], cell);
      ApplyOpens(f, moves[0], cell);
      assert Open(cell) in moves <==> moves[0] == Open(cell) || Open(cell) in moves[1..] by {
        assert moves == [moves[0]] + moves[1..];
      }
    }
  }

  /** Playing a prefix and then the next move is playing the longer prefix. */
  lemma {:induction false} PlayPrefix(f: Field, moves: seq<Move>, i: nat)
    requires Valid(f) && i < |moves|
    ensures Play(f, moves[..i + 1]) == Apply(Play(f, moves[..i]), moves[i])
    decreases i
  {
    if i > 0 {
      var g := Apply(f, moves[0]);
      var tail := moves[1..];
      assert Play(f, moves[..i + 1]) == Play(g, tail[..i]) by {
        assert moves[..i + 1][1..] == tail[..i];
      }
      assert Play(f, moves[..i]) == Play(g, tail[..i - 1]) by {
        assert moves[..i][1..] == tail[..i - 1];
      }
      PlayPrefix(g, tail, i - 1);
      assert tail[i - 1] == moves[i];
    } else {
      assert moves[..1][1..] == [];
    }
  }

  /** One allowed move from a mid-session field g of f keeps every session fact. */
  lemma SessionStep(f: Field, g: Field, m: Move)
    requires Valid(f) && f.pooCount >= 0 && Valid(g) && Tidy(g) && Allowed(g, m)
    requires g.rows == f.rows && g.columns == f.columns && g.pooCount == f.pooCount && g.pooCells == f.pooCells
    requires 0 <= GetPooCount(g) <= f.pooCount
    ensures var h := Apply(g, m);
      && h.rows == f.rows && h.columns == f.columns && h.pooCount == f.pooCount && h.pooCells == f.pooCells
      && 0 <= GetPooCount(h) <= f.pooCount
      && Tidy(h)
      && (IsSolved(h) <==> h.openedCells == SafeCells(h))
  {
    AllowedMoveKeepsTidy(g, m);
    SolvedIffSafeCellsOpen(Apply(g, m));
  }

  /**
   * Along any session of allowed moves the grid, the dimensions and the budget
   * never change, the counter stays within [0, budget], and flags and
   * openings stay apart; the session is won exactly when every safe cell is open.
   */
  lemma {:induction false} SessionInvariant(f: Field, moves: seq<Move>)
    requires Valid(f) && f.pooCount >= 0 && Tidy(f)
    requires forall i :: 0 <= i < |moves| ==> Allowed(Play(f, moves[..i]), moves[i])
    ensures var g := Play(f, moves);
      && g.rows == f.rows && g.columns == f.columns && g.pooCount == f.pooCount && g.pooCells == f.pooCells
      && 0 <= GetPooCount(g) <= f.pooCount
      && Tidy(g)
      && (IsSolved(g) <==> g.openedCells == SafeCells(g))
    decreases |moves|
  {
    if moves == [] {
      SolvedIffSafeCellsOpen(f);
    } else {
      var k := |moves| - 1;
      var front := moves[..k];
      forall i | 0 <= i < |front| ensures Allowed(Play(f, front[..i]), front[i]) {
        assert front[..i] == moves[..i];
      }
      SessionInvariant(f, front);
      PlayPrefix(f, moves, k);
      assert moves[..k + 1] == moves;
      SessionStep(f, Play(f, front), moves[k]);
    }
  }
}
