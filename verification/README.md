# Minesweeper game-field model in Dafny

This project models the game-field core of a JavaFX Minesweeper game that
comes in three near-identical variants:

- `bg/softuni/poosweeper/model/Field.java` is the fullest. Mines are called "poos". It adds a
  capacity check at construction, a flag set capped by the poo budget, an
  opened set and a win predicate.
- `bg/softuni/minesweeper/model/Field.java` adds the breadth-first flood-fill reveal.
- `bg/softuni/model/Field.java` only places mines and computes hints.

The grid logic is the same in all three variants. Module `Board` holds it once,
generic over the cell-value enumeration (`Tags` = the enum's `values()` plus its
mine constant):

- rejection-sampling mine placement;
- the eight-term neighbour count and `values()[count]` hints;
- the off-grid-is-Empty lookup;
- the flood fill.

Each Field module (`PoosweeperField`, `MinesweeperField`, `BasicField`)
plugs in its own enumeration and adds its own operations. `PoosweeperCellValue`
and `MinesweeperCellValue` are the two CellValue enums. `MinesweeperCell` is
the minesweeper package's Cell enum; it stands in for the oldest variant's own
Cell class, which is not part of this model. The other modules are:

- `Coordinates`: the `Cell` coordinate class with `equals` and `hashCode`.
- `Grid`: bounds, the cell set and the Moore neighbourhood.
- `Difficulty`: the presets and `createField`.
- `ElapsedTime` and `Decimal`: the timer label's minutes/seconds split and `formatTime`.

Modelling choices:

- A Field is an immutable value. `toggleFlag` and `openCell` return the next
  Field together with their Java result.
- The grid is a `map<Cell, T>`. After construction its keys are exactly the
  in-bound cells. During construction a missing key stands for Java's `null`.
- `java.util.Random` becomes a stream of picks. Each pick meets
  `nextInt`'s contract: row in [0, rows), column in [0, columns). The placement
  loop either ends (`Placed`), uses up the stream (`OutOfPicks`: the real
  generator would keep drawing), or calls `nextInt(0)` (`ZeroBound`: Java throws
  `IllegalArgumentException`).
- Exceptions become `Result` failures. These are the capacity
  `IllegalArgumentException`, the `IllegalStateException` of a flood fill
  started on a mine, and the array-index exception of a flood fill started off
  the grid.
- Budgets (`pooCount`, `minesCount`) are `int`, as in Java. A negative budget
  places no mines.

The flood fill is characterised without reference to its visiting order.
`Board.Region` says the result:

- contains the start;
- holds only in-grid cells that are not mines;
- is closed: every Empty member has all its in-grid non-mine neighbours in it;
- is contained in every closed set that contains the start.

So the result is the connected Empty area around the start plus its numbered
border. `Board.RegionUnique` shows that no other set satisfies this.

Because `openCell` clears the cell's flag, one would expect the flag set and
the opened set to stay disjoint. The Field class alone does not guarantee this: `toggleFlag` never looks at the opened set
(`PoosweeperField.FlagOnOpenCellOverlaps`). The model follows the code.
Disjointness holds only for sessions that obey the controller's rule of never
toggling an opened cell (`PoosweeperField.SessionInvariant`).

## Model

| member | source | states |
|---|---|---|
| `Coordinates.Equals` | src/bg/softuni/poosweeper/model/Cell.java:51-65 | true exactly when the other object is a Cell with the same row and column; null and other classes give false |
| `Coordinates.EqualsReflexive` | src/bg/softuni/poosweeper/model/Cell.java:53-55 | every cell equals itself |
| `Coordinates.EqualsSymmetric` | src/bg/softuni/poosweeper/model/Cell.java:61-64 | c.equals(d) exactly when d.equals(c) |
| `Coordinates.HashCode` | src/bg/softuni/poosweeper/model/Cell.java:74-76 | `Objects.hash(row, column)` in wrapping 32-bit arithmetic, always a Java int |
| `Coordinates.HashConsistentWithEquals` | src/bg/softuni/poosweeper/model/Cell.java:74-76 | equal cells have equal hash codes |
| `Grid.Cells` | src/bg/softuni/poosweeper/model/Field.java:244-246 | the cell set is exactly the coordinates for which `isOutside` is false |
| `Grid.CellsCount` | src/bg/softuni/poosweeper/model/Field.java:34 | a field has `rows * columns` cells, the `totalCount` the win test compares against |
| `Grid.RowMajor` | src/bg/softuni/poosweeper/model/Field.java:34 | a row-by-row enumeration lists every in-bound cell exactly once, so the grid has `rows * columns` (`totalCount`) cells; it also serves as a pick stream that draws each cell once |
| `Grid.NeighboursAreAdjacent` | src/bg/softuni/poosweeper/model/Field.java:259-266 | the eight visited offsets are exactly the Moore neighbourhood, with none repeated |
| `Board.PlaceFrom` | src/bg/softuni/poosweeper/model/Field.java:212-221 | the counter advances only on a new mine, so the loop ends with exactly max(count, counter) mines, all in bounds, and fails on a zero bound only while mines are still missing |
| `Board.PlaceMines` | src/bg/softuni/minesweeper/model/Field.java:88-100 | a finished placement holds exactly max(count, 0) in-bound mines |
| `Board.PlacementNeedsRoom` | src/bg/softuni/model/Field.java:50-62 | with no capacity check, a budget above rows * columns lets no pick stream end the loop |
| `Board.PlacementCanFinish` | src/bg/softuni/minesweeper/model/Field.java:90-99 | whenever the budget fits the grid, some pick stream ends the loop |
| `Board.PlacementPossible` | src/bg/softuni/poosweeper/model/Field.java:207-222 | some in-bound pick stream ends the loop exactly when the budget is at most rows * columns, which is the condition the constructor's capacity check enforces |
| `Board.MinesAround` | src/bg/softuni/poosweeper/model/Field.java:255-268 | a cell has at most eight adjacent mines, so `values()[hintValue]` is always in range |
| `Board.IsMineAt` | src/bg/softuni/poosweeper/model/Field.java:278-280 | the mine test used while the grid is still being filled tolerates unset (`null`) slots, and on a fully set grid it agrees with `getCellValue` returning the mine value |
| `Board.SumMines` | src/bg/softuni/model/Field.java:76-91 | a sum of 0/1 indicators over a list of cells is at most the list's length |
| `Board.MinesNear` | src/bg/softuni/poosweeper/model/Field.java:255-269 | the eight-term neighbour sum is at most 8, so `values()[pooNear]` is in range; `Board.MinesNearCounts` shows that it equals the adjacent-mine count |
| `Board.SumMinesCounts` | src/bg/softuni/model/Field.java:76-91 | summing `getMine` over distinct cells counts the mines among them |
| `Board.MinesNearCounts` | src/bg/softuni/poosweeper/model/Field.java:255-280 | the eight-term sum equals the number of adjacent mines; off-grid neighbours contribute 0 |
| `Board.PlaceHints` | src/bg/softuni/poosweeper/model/Field.java:227-235 | although it reads the partly rewritten grid, the pass leaves mines in place and gives every other cell `values()[number of adjacent mines]` |
| `Board.LayoutMines` | src/bg/softuni/minesweeper/model/Field.java:102-110 | the hint pass never writes the mine value, so the mine cells are exactly the placed ones |
| `Board.Generate` | src/bg/softuni/poosweeper/model/Field.java:39-40 | hints are computed after all mines are placed; the grid is well formed with the budgeted mine count, and it exists exactly when placement finished |
| `Board.GetCellValue` | src/bg/softuni/minesweeper/model/Field.java:45-52 | Empty off the grid; the mine value exactly on mine cells |
| `Board.HintIsMineCount` | src/bg/softuni/model/Field.java:64-72 | a non-mine cell holds the value indexed by its adjacent-mine count, and it is Empty exactly when that count is 0 |
| `Board.Admit` | src/bg/softuni/minesweeper/model/Field.java:136-143 | exactly the in-grid non-mine cells among the candidates are queued |
| `Board.FrontierStep` | src/bg/softuni/minesweeper/model/Field.java:65-83 | each loop step keeps the neighbours of every expanded Empty cell either in the result or in the queue |
| `Board.WithinClosedStep` | src/bg/softuni/minesweeper/model/Field.java:65-83 | each loop step keeps everything seen inside every closed set that contains the start |
| `Board.SeenStep` | src/bg/softuni/minesweeper/model/Field.java:65-83 | each loop step queues only in-grid non-mine cells and never loses sight of the start |
| `Board.TraversalStep` | src/bg/softuni/minesweeper/model/Field.java:65-83 | one dequeue keeps the whole traversal invariant |
| `Board.TraversalDone` | src/bg/softuni/minesweeper/model/Field.java:65-85 | once the queue is empty, the collected set is the region of the start |
| `Board.AdjacentCells` | src/bg/softuni/poosweeper/model/Field.java:170-202 | fails exactly on a mine start or an off-grid start; otherwise it terminates with the region: the start, only in-grid non-mine cells, closed, and least among closed sets containing the start |
| `Board.HintStartRevealsItself` | src/bg/softuni/minesweeper/model/Field.java:71-82 | a numbered start yields just the start |
| `Board.RegionUnique` | src/bg/softuni/poosweeper/model/Field.java:181-199 | the revealed set does not depend on the visiting order |
| `Board.RegionClosure` | src/bg/softuni/minesweeper/model/Field.java:71-80 | every Empty cell of the result has all its in-grid non-mine neighbours in the result |
| `PoosweeperCellValue.Ordinal` | src/bg/softuni/poosweeper/model/CellValue.java:9-19 | each constant sits at its declaration index in `values()` |
| `PoosweeperCellValue.DeclarationOrder` | src/bg/softuni/poosweeper/model/CellValue.java:9-19 | indices 0..8 are Empty..Eight, 9 is Poo, 10 is Flag |
| `PoosweeperCellValue.HintFor` | src/bg/softuni/poosweeper/model/CellValue.java:9-17 | `values()[n]` for n in 0..8 has ordinal n, is never Poo or Flag, and is Empty only for 0 |
| `PoosweeperCellValue.ToString` | src/bg/softuni/poosweeper/model/CellValue.java:9-35 | one character: a space for Empty, the digit n for index n in 1..8, `*` for Poo, `P` for Flag |
| `PoosweeperCellValue.RenderingsDistinct` | src/bg/softuni/poosweeper/model/CellValue.java:9-19 | no two constants render alike |
| `MinesweeperCellValue.Ordinal` | src/bg/softuni/minesweeper/model/CellValue.java:5-15 | each constant sits at its declaration index in `values()` |
| `MinesweeperCellValue.DeclarationOrder` | src/bg/softuni/minesweeper/model/CellValue.java:5-15 | indices 0..8 are Empty..Eight, 9 is Mine, 10 is Flag |
| `MinesweeperCellValue.HintFor` | src/bg/softuni/minesweeper/model/CellValue.java:5-13 | `values()[n]` for n in 0..8 has ordinal n and is never Mine or Flag |
| `MinesweeperCellValue.ToString` | src/bg/softuni/minesweeper/model/CellValue.java:5-27 | a space for Empty, the digit n for index n in 1..8, `*` for Mine, `P` for Flag |
| `MinesweeperCellValue.RenderingsDistinct` | src/bg/softuni/minesweeper/model/CellValue.java:5-15 | no two constants render alike |
| `MinesweeperCell.Ordinal` | src/bg/softuni/minesweeper/model/Cell.java:5-14 | each constant sits at its declaration index in `values()` |
| `MinesweeperCell.DeclarationOrder` | src/bg/softuni/minesweeper/model/Cell.java:5-14 | indices 0..8 are Empty..Eight and 9 is Mine; there is no Flag |
| `MinesweeperCell.HintFor` | src/bg/softuni/minesweeper/model/Cell.java:5-13 | `values()[n]` for n in 0..8 is never Mine |
| `MinesweeperCell.ToString` | src/bg/softuni/minesweeper/model/Cell.java:5-25 | a space for Empty, "1".."8" for One..Eight, `*` for Mine |
| `MinesweeperCell.RenderingsDistinct` | src/bg/softuni/minesweeper/model/Cell.java:5-14 | the ten renderings are distinct |
| `PoosweeperField.New` | src/bg/softuni/poosweeper/model/Field.java:29-41 | throws IllegalArgumentException exactly when pooCount > rows * columns; otherwise echoes the arguments and yields a well-formed grid with exactly pooCount Poos, no flags, nothing open, counter = pooCount, solved only if there is no safe cell |
| `PoosweeperField.GetPooCount` | src/bg/softuni/poosweeper/model/Field.java:66-68 | never above the budget, never negative for a non-negative budget, and equal to the budget exactly when nothing is flagged |
| `PoosweeperField.GetCellValue` | src/bg/softuni/poosweeper/model/Field.java:145-152 | Empty off the grid; Poo exactly on Poo cells; any other cell holds the hint for its number of adjacent Poos |
| `PoosweeperField.IsPoo` | src/bg/softuni/poosweeper/model/Field.java:98-100 | true exactly on Poo cells, hence never off the grid |
| `PoosweeperField.ToggleFlag` | src/bg/softuni/poosweeper/model/Field.java:77-89 | unflags a flagged cell (false); flags an unflagged one exactly when the counter is positive (true); changes only that cell's flag; the result says whether it is now flagged; the counter moves by one accordingly; the invariant holds |
| `PoosweeperField.OpenCell` | src/bg/softuni/poosweeper/model/Field.java:108-112 | the cell becomes open and unflagged, no other cell changes, the grid is untouched, and the cell's value is returned |
| `PoosweeperField.AdjacentCells` | src/bg/softuni/poosweeper/model/Field.java:170-202 | IllegalStateException exactly on a Poo start; index failure exactly off the grid; otherwise the flood-fill region, made only of safe cells, and just the start when the start is numbered |
| `PoosweeperField.IsFlagged` | src/bg/softuni/poosweeper/model/Field.java:133-136 | a flagged cell implies a positive budget and a counter below it |
| `PoosweeperField.OpenedByMoves` | src/bg/softuni/poosweeper/model/Field.java:121-124 | after any sequence of clicks, `isOpen` holds for a cell exactly when it was open before or some click opened it |
| `PoosweeperField.SafeCellsCount` | src/bg/softuni/poosweeper/model/Field.java:34 | with a non-negative budget, a valid field has exactly `totalCount - pooCount` cells without a Poo |
| `PoosweeperField.IsSolved` | src/bg/softuni/poosweeper/model/Field.java:159-161 | with a non-negative budget, `opened + pooCount == totalCount` holds exactly when the number of opened cells equals the number of cells without a Poo |
| `PoosweeperField.SolvedIffSafeCellsOpen` | src/bg/softuni/poosweeper/model/Field.java:159-161 | when only safe cells are open, `isSolved` holds exactly when all of them are open |
| `PoosweeperField.ToggleFlagTwice` | src/bg/softuni/poosweeper/model/Field.java:81-86 | toggling any cell twice restores the field; the second call answers whether the cell was flagged to begin with |
| `PoosweeperField.OpenCellIdempotent` | src/bg/softuni/poosweeper/model/Field.java:108-112 | opening a cell twice equals opening it once |
| `PoosweeperField.FlagOnOpenCellOverlaps` | src/bg/softuni/poosweeper/model/Field.java:77-89 | toggleFlag ignores the opened set: flagging an open cell makes flags and openings overlap |
| `PoosweeperField.Apply` | src/bg/softuni/poosweeper/controller/MainController.java:183-203 | one click, as a toggle or an open, keeps the class invariant |
| `PoosweeperField.Play` | src/bg/softuni/poosweeper/controller/MainController.java:183-203 | any sequence of clicks keeps the class invariant |
| `PoosweeperField.AllowedMoveKeepsTidy` | src/bg/softuni/poosweeper/controller/MainController.java:185-196 | a click that obeys the caller's rules keeps the grid and keeps flags and openings disjoint, with only safe cells open |
| `PoosweeperField.PlayPrefix` | src/bg/softuni/poosweeper/controller/MainController.java:183-203 | playing a prefix and then the next click equals playing the longer prefix |
| `PoosweeperField.SessionStep` | src/bg/softuni/poosweeper/controller/MainController.java:185-203 | one allowed click keeps the grid and budget, the counter within [0, pooCount], flags and openings apart, and the win test equal to "every safe cell open" |
| `PoosweeperField.SessionInvariant` | src/bg/softuni/poosweeper/model/Field.java:66-161 | along any rule-abiding session the grid and budget never change, the counter stays within [0, pooCount], flags and openings stay disjoint, and the game is won exactly when every safe cell is open |
| `MinesweeperField.New` | src/bg/softuni/minesweeper/model/Field.java:14-35 | without validation: IllegalArgumentException exactly for a positive budget on an empty dimension; succeeds only when minesCount fits; echoes rows, columns and minesCount; exactly minesCount mines with correct hints |
| `MinesweeperField.GetCellValue` | src/bg/softuni/minesweeper/model/Field.java:45-52 | Empty off the grid, Mine exactly on mines, and otherwise the hint for the adjacent-mine count |
| `MinesweeperField.GetCellValueOf` | src/bg/softuni/minesweeper/model/Field.java:41-43 | the Cell overload gives Mine exactly on mine cells, Empty off the grid, and otherwise the hint for the cell's adjacent-mine count |
| `MinesweeperField.IsMine` | src/bg/softuni/minesweeper/model/Field.java:37-39 | true exactly on mine cells, hence false off the grid |
| `MinesweeperField.AdjacentCells` | src/bg/softuni/minesweeper/model/Field.java:54-86 | IllegalStateException exactly on a mine start; an index failure exactly on an off-grid start; otherwise the start plus only in-grid non-mine cells, closed under Empty neighbours, just the start for a numbered start |
| `BasicField.New` | src/bg/softuni/model/Field.java:14-35 | placement then hints; succeeds only when minesCount fits; echoes the arguments; exactly minesCount mines and every other cell holds its adjacent-mine count |
| `BasicField.GetCell` | src/bg/softuni/model/Field.java:41-48 | Empty for any out-of-range coordinate, Mine exactly on mines, otherwise `values()[adjacent mines]`, never Mine |
| `BasicField.IsMine` | src/bg/softuni/model/Field.java:37-39 | true exactly when getCell returns Mine, hence false off the grid |
| `Difficulty.PresetOf` | src/bg/softuni/poosweeper/model/Difficulty.java:6-9 | every preset has positive rows and columns and a budget strictly below rows * columns |
| `Difficulty.PresetPlacementCanFinish` | src/bg/softuni/minesweeper/model/Difficulty.java:6-9 | for every preset, some in-bound pick stream ends the placement loop |
| `Difficulty.CreatePooField` | src/bg/softuni/poosweeper/model/Difficulty.java:20-22 | passes rows, columns and pooCount in that order; never hits the capacity exception; a fresh field is not solved |
| `Difficulty.CreateMineField` | src/bg/softuni/minesweeper/model/Difficulty.java:20-22 | passes rows, columns and minesCount unchanged and never hits the zero-bound exception |
| `Decimal.NatToString` | src/bg/softuni/poosweeper/model/ElapsedTime.java:70 | decimal digits of a non-negative long with no leading zero; one digit exactly below 10 |
| `Decimal.ParseNatToString` | src/bg/softuni/poosweeper/model/ElapsedTime.java:70 | the digits read back as the number |
| `Decimal.ParseLeadingZero` | src/bg/softuni/poosweeper/model/ElapsedTime.java:67-69 | a padding "0" does not change the value read |
| `Decimal.LongToString` | src/bg/softuni/model/ElapsedTime.java:44 | `long` to string: the digits of the value, with '-' in front of a negative value |
| `ElapsedTime.Split` | src/bg/softuni/poosweeper/model/ElapsedTime.java:42 | minutes * 60 + seconds is the total; for a non-negative total seconds lie in 0..59 (Java truncating division otherwise) |
| `ElapsedTime.Pad` | src/bg/softuni/poosweeper/model/ElapsedTime.java:67-70 | a leading '0' exactly when the value is below 10; at least two characters; exactly two digits for 0..99 |
| `ElapsedTime.FormatTime` | src/bg/softuni/poosweeper/model/ElapsedTime.java:63-80 | minutes part, then the label's only ':', then the seconds part; two seconds digits when seconds are in 0..59 |
| `ElapsedTime.FormatTimeRoundTrip` | src/bg/softuni/model/ElapsedTime.java:37-54 | the label of non-negative minutes and seconds parses back to the same pair |
| `ElapsedTime.LabelShowsElapsed` | src/bg/softuni/model/ElapsedTime.java:28 | the label for a non-negative total reads back as that total, with seconds below 60 |

## Left out

- The JavaFX user interface, controllers, click handlers, alerts, styles and
  both `Main` classes are left out because they are presentation glue. The
  controller's rules for its callers appear only as the `Allowed` precondition
  of the session lemma. They are: open only cells that are not poos, and never
  toggle an opened cell.
- Both `Sound` classes are left out because they are foreign `AudioClip` calls
  plus a random choice of clip.
- The `ElapsedTime` timer machinery is left out because it is concurrency and
  the wall clock: `java.util.Timer`, `Instant.now`, the 500 ms schedule and
  `stop`. Only the split and `formatTime` are modelled.
- `java.util.Random` is left out: its draws are a parameter of the
  constructors. Whether a real generator ever finishes placement is a property
  of the generator. The model proves instead that some finite in-bound stream
  finishes exactly when the budget fits (`Board.PlacementPossible`). An
  arbitrary stream can still run dry (`OutOfPicks`).
- The internals of `HashSet`, `LinkedList` and `Objects.hash` are left out.
  They are replaced by Dafny sets, sequences and datatype equality, plus the
  closed-form hash.
- Java `int` and `long` overflow in `rows * columns`, in the placement counter
  and in the time values is left out, along with negative dimensions
  (`NegativeArraySizeException`). Dimensions are `nat`, and arithmetic is
  mathematical except in `Coordinates.HashCode`.
- The reference-identity shortcut at the top of `Cell.equals` is left out
  because datatypes have no identity. Its result agrees with the
  field-by-field comparison.
- The oldest variant's own `Cell` class (the `Cell[][]` of
  src/bg/softuni/model/Field.java:12, in package `bg.softuni.model`) is not
  part of this model. `MinesweeperCell`, the enumeration of the same name in
  the minesweeper package, stands in for it in `BasicField`.
- The minesweeper package's `new Cell(row, column)` is left out. It does not
  match that package's `Cell` enum. The minesweeper Field uses the coordinate
  datatype instead.
- PoosweeperField.SolvedIffSafeCellsOpen: requires `pooCount >= 0`. With a
  negative budget, which no constructor rejects, `isSolved` never holds once
  every safe cell is open, because `|opened| + pooCount` falls short of
  `rows * columns`.
- The counter's lower bound of 0 holds only for a non-negative budget.
  With a negative budget the counter starts below 0 and no flag can ever be
  placed (`PoosweeperField.GetPooCount`, `PoosweeperField.ToggleFlag`).
