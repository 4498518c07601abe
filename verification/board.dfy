/**
 * The grid logic the three Field classes share, written once over any
 * cell-value enumeration: rejection-sampling mine placement, neighbour
 * hints, cell lookup and the breadth-first flood fill.
 */
module Board {
  import opened Wrappers
  import opened Coordinates
  import opened Grid

  /**
   * What the grid logic needs of a cell-value enumeration: `values()` in
   * declaration order (so `values[n]` is the hint for n neighbouring mines)
   * and the mine constant (`Poo` or `Mine`).
   */
  datatype Tags<T> = Tags(values: seq<T>, mine: T)

  /** Indices 0..8 are Empty..Eight: never the mine, and from index 1 on never Empty. */
  predicate ValidTags<T(==)>(t: Tags<T>) {
    && |t.values| >= 9
    && (forall i :: 0 <= i < 9 ==> t.values[i] != t.mine)
    && (forall i :: 1 <= i < 9 ==> t.values[i] != t.values[0])
  }

  // ---------------------------------------------------------------- placement

  /**
   * Outcome of the placement loop on a given stream of random picks:
   * the mine set, the stream ran dry before the loop ended (the real
   * generator would keep drawing), or `nextInt` was asked for a zero bound.
   */
  datatype Placement = Placed(mines: set<Cell>) | OutOfPicks | ZeroBound

  /** Every pick satisfies `nextInt`'s contract: row in [0, rows), column in [0, columns). */
  predicate PicksInBounds(rows: nat, columns: nat, picks: seq<Cell>) {
    forall i :: 0 <= i < |picks| ==> InBounds(rows, columns, picks[i])
  }

  /**
   * The rejection-sampling loop from the state (`placed`, `mines`): draw a
   * cell, and only if it is not a mine yet, make it one and advance the counter.
   */
  function PlaceFrom(rows: nat, columns: nat, count: int, picks: seq<Cell>, placed: nat, mines: set<Cell>): (r: Placement)
    requires PicksInBounds(rows, columns, picks)
    requires placed == |mines| && mines <= Cells(rows, columns)
    ensures r.Placed? ==> mines <= r.mines <= Cells(rows, columns)
    ensures r.Placed? ==> |r.mines| == if placed < count then count else placed
    ensures r.ZeroBound? ==> placed < count && (rows == 0 || columns == 0)
    decreases |picks|
  {
    if placed >= count then Placed(mines)
    else if rows == 0 || columns == 0 then ZeroBound
    else if |picks| == 0 then OutOfPicks
    else if picks[0] !in mines then
      PlaceFrom(rows, columns, count, picks[1..], placed + 1, mines + {picks[0]})
    else
      PlaceFrom(rows, columns, count, picks[1..], placed, mines)
  }

  /** `placeMines` / `placePoo` without the capacity check: the loop from an empty grid and a zero counter. */
  function PlaceMines(rows: nat, columns: nat, count: int, picks: seq<Cell>): (r: Placement)
    requires PicksInBounds(rows, columns, picks)
    ensures r.Placed? ==> r.mines <= Cells(rows, columns)
    ensures r.Placed? ==> |r.mines| == if count < 0 then 0 else count
    ensures r.ZeroBound? ==> 0 < count && (rows == 0 || columns == 0)
  {
    PlaceFrom(rows, columns, count, picks, 0, {})
  }

  /** The loop cannot end with more mines than cells: no pick stream finishes it. */
  lemma PlacementNeedsRoom(rows: nat, columns: nat, count: int, picks: seq<Cell>)
    requires PicksInBounds(rows, columns, picks)
    requires count > rows * columns
    ensures !PlaceMines(rows, columns, count, picks).Placed?
  {
    var r := PlaceMines(rows, columns, count, picks);
    if r.Placed? {
      CellsCount(rows, columns);
      SubsetCard(r.mines, Cells(rows, columns));
      assert false;
    }
  }

  /** Distinct fresh picks each advance the counter, so enough of them finish the loop. */
  lemma {:induction false} FreshPicksFinish(rows: nat, columns: nat, count: int, picks: seq<Cell>, placed: nat, mines: set<Cell>)
    requires PicksInBounds(rows, columns, picks)
    requires placed == |mines| && mines <= Cells(rows, columns)
    requires Distinct(picks) && forall i :: 0 <= i < |picks| ==> picks[i] !in mines
    requires count <= placed + |picks|
    ensures PlaceFrom(rows, columns, count, picks, placed, mines).Placed?
    decreases |picks|
  {
    if placed < count {
      assert picks[0] !in mines;
      var rest := picks[1..];
      assert forall i :: 0 <= i < |rest| ==> rest[i] !in mines + {picks[0]} by {
        forall i | 0 <= i < |rest| ensures rest[i] !in mines + {picks[0]} {
          assert rest[i] == picks[i + 1];
        }
      }
      FreshPicksFinish(rows, columns, count, rest, placed + 1, mines + {picks[0]});
    }
  }

  /**
   * Whenever the budget fits, some stream of picks ends the loop: drawing
   * every cell once in row-major order does.
   */
  lemma PlacementCanFinish(rows: nat, columns: nat, count: int)
    requires count <= rows * columns
    ensures PlaceMines(rows, columns, count, RowMajor(rows, columns)).Placed?
  {
    FreshPicksFinish(rows, columns, count, RowMajor(rows, columns), 0, {});
  }

  /** Placement can finish exactly when the budget fits the grid. */
  lemma PlacementPossible(rows: nat, columns: nat, count: int)
    ensures (exists picks :: PicksInBounds(rows, columns, picks) && PlaceMines(rows, columns, count, picks).Placed?)
      <==> count <= rows * columns
  {
    if count <= rows * columns {
      var picks := RowMajor(rows, columns);
      PlacementCanFinish(rows, columns, count);
      assert PicksInBounds(rows, columns, picks);
    } else {
      forall picks | PicksInBounds(rows, columns, picks)
        ensures !PlaceMines(rows, columns, count, picks).Placed?
      {
        PlacementNeedsRoom(rows, columns, count, picks);
      }
    }
  }

  // ---------------------------------------------------------------- hints

  /**
   * `isPoo` / `isMine` while the grid is still being filled: in bounds and
   * the slot holds the mine constant (an unset slot is Java's null).
   */
  function IsMineAt<T(==)>(rows: nat, columns: nat, t: Tags<T>, grid: map<Cell, T>, c: Cell): (b: bool)
    ensures ValidTags(t) && grid.Keys == Cells(rows, columns) ==> (b <==> GetCellValue(rows, columns, t, grid, c) == t.mine)
  {
    InBounds(rows, columns, c) && c in grid && grid[c] == t.mine
  }

  /** Sum of `getPoo` / `getMine` (1 for a mine, else 0) over the listed cells. */
  function SumMines<T(==)>(rows: nat, columns: nat, t: Tags<T>, grid: map<Cell, T>, s: seq<Cell>): (n: nat)
    ensures n <= |s|
  {
    if s == [] then 0
    else (if IsMineAt(rows, columns, t, grid, s[0]) then 1 else 0) + SumMines(rows, columns, t, grid, s[1..])
  }

  /** The eight-term sum of `pooNear` / `minesNear`, taken NW, N, NE, W, E, SW, S, SE. */
  function MinesNear<T(==)>(rows: nat, columns: nat, t: Tags<T>, grid: map<Cell, T>, c: Cell): (n: nat)
    ensures n <= 8
  {
    SumMines(rows, columns, t, grid, Neighbours(c))
  }

  /** Reference count: how many mines are adjacent to c. */
  function MinesAround(mines: set<Cell>, c: Cell): (n: nat)
    ensures n <= 8
  {
    var around := set x | x in mines && Adjacent(c, x);
    NeighboursAreAdjacent(c);
    DistinctCard(Neighbours(c));
    SubsetCard(around, SetOf(Neighbours(c)));
    |around|
  }

  /** Summing the indicator over distinct cells counts the mines among them. */
  lemma {:induction false} SumMinesCounts<T>(rows: nat, columns: nat, t: Tags<T>, grid: map<Cell, T>, mines: set<Cell>, s: seq<Cell>)
    requires forall x :: IsMineAt(rows, columns, t, grid, x) <==> x in mines
    requires Distinct(s)
    ensures SumMines(rows, columns, t, grid, s) == |SetOf(s) * mines|
  {
    if s != [] {
      var tail := s[1..];
      assert Distinct(tail);
      assert s[0] !in tail by {
        forall i | 0 <= i < |tail| ensures tail[i] != s[0] {
          assert tail[i] == s[i + 1];
        }
      }
      assert SetOf(s) == {s[0]} + SetOf(tail) by {
        assert s == [s[0]] + tail;
      }
      SumMinesCounts(rows, columns, t, grid, mines, tail);
      if s[0] in mines {
        assert s[0] !in SetOf(tail) * mines;
        assert SetOf(s) * mines == {s[0]} + SetOf(tail) * mines;
      } else {
        assert SetOf(s) * mines == SetOf(tail) * mines;
      }
    }
  }

  /**
   * While the grid's mine slots are exactly `mines`, the eight-term sum is the
   * number of adjacent mines; out-of-grid neighbours contribute nothing.
   */
  lemma MinesNearCounts<T>(rows: nat, columns: nat, t: Tags<T>, grid: map<Cell, T>, mines: set<Cell>, c: Cell)
    requires forall x :: IsMineAt(rows, columns, t, grid, x) <==> x in mines
    ensures MinesNear(rows, columns, t, grid, c) == MinesAround(mines, c)
  {
    NeighboursAreAdjacent(c);
    SumMinesCounts(rows, columns, t, grid, mines, Neighbours(c));
    assert SetOf(Neighbours(c)) * mines == set x | x in mines && Adjacent(c, x);
  }

  /**
   * The finished grid for mine set `mines`: every in-bound cell is set, the
   * mines hold the mine constant and every other cell `values[k]` for its k
   * adjacent mines.
   */
  ghost predicate Layout<T>(rows: nat, columns: nat, t: Tags<T>, mines: set<Cell>, grid: map<Cell, T>)
    requires |t.values| >= 9
  {
    && grid.Keys == Cells(rows, columns)
    && forall c :: c in grid ==> grid[c] == if c in mines then t.mine else t.values[MinesAround(mines, c)]
  }

  /**
   * `placeHints`: visit the cells row by row and overwrite every slot that is
   * not a mine with `values()[minesNear]`, reading the partly rewritten grid.
   */
  method PlaceHints<T(==)>(rows: nat, columns: nat, t: Tags<T>, mines: set<Cell>) returns (grid: map<Cell, T>)
    requires ValidTags(t) && mines <= Cells(rows, columns)
    ensures Layout(rows, columns, t, mines, grid)
  {
    grid := map c | c in mines :: t.mine;
    var row := 0;
    while row < rows
      invariant 0 <= row <= rows
      invariant forall c :: c in grid <==> c in mines || (InBounds(rows, columns, c) && c.row < row)
      invariant forall c :: c in grid ==> grid[c] == if c in mines then t.mine else t.values[MinesAround(mines, c)]
    {
      var column := 0;
      while column < columns
        invariant 0 <= column <= columns
        invariant forall c :: c in grid <==> c in mines || (InBounds(rows, columns, c) && (c.row < row || (c.row == row && c.column < column)))
        invariant forall c :: c in grid ==> grid[c] == if c in mines then t.mine else t.values[MinesAround(mines, c)]
      {
        var c := Cell(row, column);
        if !(c in grid && grid[c] == t.mine) {
          assert forall x :: IsMineAt(rows, columns, t, grid, x) <==> x in mines by {
            forall x ensures IsMineAt(rows, columns, t, grid, x) <==> x in mines {
              if x in grid && x !in mines {
                assert t.values[MinesAround(mines, x)] != t.mine;
              }
            }
          }
          MinesNearCounts(rows, columns, t, grid, mines, c);
          grid := grid[c := t.values[MinesNear(rows, columns, t, grid, c)]];
        }
        column := column + 1;
      }
      row := row + 1;
    }
  }

  /** The cells holding the mine constant. */
  function MineCells<T(==)>(t: Tags<T>, grid: map<Cell, T>): set<Cell> {
    set c | c in grid && grid[c] == t.mine
  }

  /** In a finished grid the mine slots are exactly the placed mines. */
  lemma LayoutMines<T>(rows: nat, columns: nat, t: Tags<T>, mines: set<Cell>, grid: map<Cell, T>)
    requires ValidTags(t) && mines <= Cells(rows, columns)
    requires Layout(rows, columns, t, mines, grid)
    ensures MineCells(t, grid) == mines
  {
    forall c | c in grid && c !in mines ensures grid[c] != t.mine {
      assert t.values[MinesAround(mines, c)] != t.mine;
    }
  }

  /** Invariant of a constructed grid with mine budget `count` (no mines for a negative budget). */
  ghost predicate WellFormed<T>(rows: nat, columns: nat, t: Tags<T>, count: int, grid: map<Cell, T>) {
    && ValidTags(t)
    && Layout(rows, columns, t, MineCells(t, grid), grid)
    && |MineCells(t, grid)| == if count < 0 then 0 else count
  }

  /** The two construction steps in order: place every mine first, then the hints. */
  method Generate<T(==)>(rows: nat, columns: nat, t: Tags<T>, count: int, picks: seq<Cell>) returns (r: Result<map<Cell, T>, Placement>)
    requires ValidTags(t) && PicksInBounds(rows, columns, picks)
    ensures r.Success? <==> PlaceMines(rows, columns, count, picks).Placed?
    ensures r.Failure? ==> r.error == PlaceMines(rows, columns, count, picks)
    ensures r.Success? ==> WellFormed(rows, columns, t, count, r.value)
    ensures r.Success? ==> MineCells(t, r.value) == PlaceMines(rows, columns, count, picks).mines
  {
    var placement := PlaceMines(rows, columns, count, picks);
    if !placement.Placed? {
      return Failure(placement);
    }
    var grid := PlaceHints(rows, columns, t, placement.mines);
    LayoutMines(rows, columns, t, placement.mines, grid);
    return Success(grid);
  }

  // ---------------------------------------------------------------- queries

  /** `getCellValue`: the stored value, and Empty (`values[0]`) for any coordinate outside the grid. */
  function GetCellValue<T(==)>(rows: nat, columns: nat, t: Tags<T>, grid: map<Cell, T>, c: Cell): (v: T)
    requires ValidTags(t) && grid.Keys == Cells(rows, columns)
    ensures v == t.mine <==> c in MineCells(t, grid)
    ensures !InBounds(rows, columns, c) ==> v == t.values[0]
  {
    if !InBounds(rows, columns, c) then t.values[0] else grid[c]
  }

  /** A non-mine cell of a well-formed grid holds the value indexed by its adjacent-mine count. */
  lemma HintIsMineCount<T>(rows: nat, columns: nat, t: Tags<T>, count: int, grid: map<Cell, T>, c: Cell)
    requires WellFormed(rows, columns, t, count, grid)
    requires InBounds(rows, columns, c) && c !in MineCells(t, grid)
    ensures GetCellValue(rows, columns, t, grid, c) == t.values[MinesAround(MineCells(t, grid), c)]
    ensures GetCellValue(rows, columns, t, grid, c) == t.values[0] <==> MinesAround(MineCells(t, grid), c) == 0
  {
  }

  // ---------------------------------------------------------------- flood fill

  /** The test of `addAdjacentCell`: inside the grid and not a mine. */
  predicate Enterable<T(==)>(t: Tags<T>, grid: map<Cell, T>, c: Cell) {
    c in grid && grid[c] != t.mine
  }

  predicate IsEmptyAt<T(==)>(t: Tags<T>, grid: map<Cell, T>, c: Cell) {
    |t.values| > 0 && c in grid && grid[c] == t.values[0]
  }

  /** The listed cells that pass `addAdjacentCell`'s test, in order. */
  function Admit<T(==)>(t: Tags<T>, grid: map<Cell, T>, s: seq<Cell>): (r: seq<Cell>)
    ensures forall n :: n in r <==> n in s && Enterable(t, grid, n)
  {
    if s == [] then []
    else (if Enterable(t, grid, s[0]) then [s[0]] else []) + Admit(t, grid, s[1..])
  }

  /** What the eight `addAdjacentCell` calls append to the queue when c is expanded. */
  function Enqueued<T(==)>(t: Tags<T>, grid: map<Cell, T>, c: Cell): seq<Cell> {
    Admit(t, grid, Neighbours(c))
  }

  /** s contains every enterable neighbour of each of its Empty cells. */
  ghost predicate Closed<T>(t: Tags<T>, grid: map<Cell, T>, s: set<Cell>) {
    forall e, n :: e in s && IsEmptyAt(t, grid, e) && n in Enqueued(t, grid, e) ==> n in s
  }

  /**
   * s is the region revealed from `start`: it holds the start, only enterable
   * cells, is closed, and lies inside every closed set holding the start.
   * That is the connected Empty area around the start plus its numbered border.
   */
  ghost predicate Region<T>(t: Tags<T>, grid: map<Cell, T>, start: Cell, s: set<Cell>) {
    && start in s
    && (forall c :: c in s ==> Enterable(t, grid, c))
    && Closed(t, grid, s)
    && (forall other: set<Cell> :: start in other && Closed(t, grid, other) ==> s <= other)
  }

  /** Why `getAdjacentCells` fails instead of returning. */
  datatype Fault =
    | MineStart          // IllegalStateException: the start is a mine
    | IndexOutOfBounds   // the start is off the grid: the first dequeue indexes the array

  /** Traversal invariant: each expanded cell's enterable neighbours are already in the result or still queued. */
  ghost predicate Frontier<T>(t: Tags<T>, grid: map<Cell, T>, result: set<Cell>, queue: seq<Cell>) {
    forall e, n :: e in result && IsEmptyAt(t, grid, e) && n in Enqueued(t, grid, e) ==> n in result || n in queue
  }

  /** Traversal invariant: everything seen so far lies in every closed set holding the start. */
  ghost predicate WithinClosed<T>(t: Tags<T>, grid: map<Cell, T>, start: Cell, result: set<Cell>, queue: seq<Cell>) {
    forall other: set<Cell> :: start in other && Closed(t, grid, other) ==>
      result <= other && forall i :: 0 <= i < |queue| ==> queue[i] in other
  }

  /** The queue after dequeuing its head and, when the head gets expanded, appending its neighbours. */
  ghost predicate Dequeued<T>(t: Tags<T>, grid: map<Cell, T>, result: set<Cell>, queue: seq<Cell>, queue': seq<Cell>) {
    && |queue| > 0 && queue[0] in grid && |t.values| > 0
    && queue' == if grid[queue[0]] == t.values[0] && queue[0] !in result
                 then queue[1..] + Enqueued(t, grid, queue[0])
                 else queue[1..]
  }

  lemma FrontierStep<T>(t: Tags<T>, grid: map<Cell, T>, result: set<Cell>, queue: seq<Cell>, queue': seq<Cell>)
    requires Frontier(t, grid, result, queue)
    requires Dequeued(t, grid, result, queue, queue')
    ensures Frontier(t, grid, result + {queue[0]}, queue')
  {
    var current, rest := queue[0], queue[1..];
    assert forall n :: n in rest ==> n in queue';
    forall e, n | e in result + {current} && IsEmptyAt(t, grid, e) && n in Enqueued(t, grid, e)
      ensures n in result + {current} || n in queue'
    {
      if e in result {
        assert n in result || n in queue;
        if n in queue && n != current {
          assert n in rest by {
            var i :| 0 <= i < |queue| && queue[i] == n;
            assert rest[i - 1] == n;
          }
        }
      } else {
        assert queue' == rest + Enqueued(t, grid, current);
      }
    }
  }

  lemma WithinClosedStep<T>(t: Tags<T>, grid: map<Cell, T>, start: Cell, result: set<Cell>, queue: seq<Cell>, queue': seq<Cell>)
    requires WithinClosed(t, grid, start, result, queue)
    requires Dequeued(t, grid, result, queue, queue')
    ensures WithinClosed(t, grid, start, result + {queue[0]}, queue')
  {
    var current, rest := queue[0], queue[1..];
    forall other: set<Cell> | start in other && Closed(t, grid, other)
      ensures result + {current} <= other && forall i :: 0 <= i < |queue'| ==> queue'[i] in other
    {
      assert current in other;
      forall i | 0 <= i < |queue'| ensures queue'[i] in other {
        if i >= |rest| {
          assert queue'[i] in Enqueued(t, grid, current);
        } else {
          assert queue'[i] == queue[i + 1];
        }
      }
    }
  }

  /** Everything the traversal keeps between two dequeues. */
  ghost predicate Traversal<T>(t: Tags<T>, grid: map<Cell, T>, start: Cell, result: set<Cell>, queue: seq<Cell>) {
    && (forall c :: c in result ==> Enterable(t, grid, c))
    && (forall i :: 0 <= i < |queue| ==> Enterable(t, grid, queue[i]))
    && (start in result || start in queue)
    && Frontier(t, grid, result, queue)
    && WithinClosed(t, grid, start, result, queue)
  }

  /** One dequeue keeps every seen cell enterable and keeps the start seen. */
  lemma SeenStep<T>(t: Tags<T>, grid: map<Cell, T>, start: Cell, result: set<Cell>, queue: seq<Cell>, queue': seq<Cell>)
    requires forall i :: 0 <= i < |queue| ==> Enterable(t, grid, queue[i])
    requires start in result || start in queue
    requires Dequeued(t, grid, result, queue, queue')
    ensures forall i :: 0 <= i < |queue'| ==> Enterable(t, grid, queue'[i])
    ensures start in result + {queue[0]} || start in queue'
  {
    var current, rest := queue[0], queue[1..];
    forall i | 0 <= i < |queue'| ensures Enterable(t, grid, queue'[i]) {
      if i < |rest| {
        assert queue'[i] == queue[i + 1];
      } else {
        assert queue'[i] in Enqueued(t, grid, current);
      }
    }
    if start != current && start !in result {
      var i :| 0 <= i < |queue| && queue[i] == start;
      assert queue'[i - 1] == start;
    }
  }

  /** One dequeue keeps the traversal invariant. */
  lemma TraversalStep<T>(t: Tags<T>, grid: map<Cell, T>, start: Cell, result: set<Cell>, queue: seq<Cell>, queue': seq<Cell>)
    requires Traversal(t, grid, start, result, queue)
    requires Dequeued(t, grid, result, queue, queue')
    ensures Traversal(t, grid, start, result + {queue[0]}, queue')
  {
    FrontierStep(t, grid, result, queue, queue');
    WithinClosedStep(t, grid, start, result, queue, queue');
    SeenStep(t, grid, start, result, queue, queue');
  }

  /** With the queue drained, the traversal has found the region. */
  lemma TraversalDone<T>(t: Tags<T>, grid: map<Cell, T>, start: Cell, result: set<Cell>)
    requires Traversal(t, grid, start, result, [])
    ensures Region(t, grid, start, result)
  {
  }

  /** Adding a cell never grows the unvisited part, and adding an unvisited one shrinks it. */
  lemma RemainingShrinks(keys: set<Cell>, result: set<Cell>, current: Cell)
    ensures |keys - (result + {current})| <= |keys - result|
    ensures current in keys && current !in result ==> |keys - (result + {current})| < |keys - result|
  {
    if current in keys && current !in result {
      assert keys - (result + {current}) == (keys - result) - {current};
    } else {
      assert keys - (result + {current}) == keys - result;
    }
  }

  /**
   * `getAdjacentCells`: breadth-first traversal from the start. A dequeued
   * cell is expanded (its enterable neighbours enqueued) when it is Empty and
   * not yet in the result; every dequeued cell joins the result.
   */
  method AdjacentCells<T(==)>(rows: nat, columns: nat, t: Tags<T>, grid: map<Cell, T>, start: Cell)
    returns (r: Result<set<Cell>, Fault>)
    requires ValidTags(t) && grid.Keys == Cells(rows, columns)
    ensures r == Failure(MineStart) <==> start in MineCells(t, grid)
    ensures r == Failure(IndexOutOfBounds) <==> !InBounds(rows, columns, start)
    ensures r.Success? ==> Region(t, grid, start, r.value)
  {
    if GetCellValue(rows, columns, t, grid, start) == t.mine {
      return Failure(MineStart);
    }
    if !InBounds(rows, columns, start) {
      return Failure(IndexOutOfBounds);
    }
    var result: set<Cell> := {};
    var queue: seq<Cell> := [start];
    while |queue| > 0
      invariant Traversal(t, grid, start, result, queue)
      decreases |grid.Keys - result|, |queue|
    {
      var current := queue[0];
      assert Enterable(t, grid, queue[0]);
      var queue' := queue[1..];
      if grid[current] == t.values[0] && current !in result {
        queue' := queue' + Enqueued(t, grid, current);
      }
      RemainingShrinks(grid.Keys, result, current);
      TraversalStep(t, grid, start, result, queue, queue');
      queue := queue';
      result := result + {current};
    }
    TraversalDone(t, grid, start, result);
    return Success(result);
  }

  /** Starting on a numbered cell reveals that cell alone. */
  lemma HintStartRevealsItself<T>(t: Tags<T>, grid: map<Cell, T>, start: Cell, s: set<Cell>)
    requires Region(t, grid, start, s)
    requires !IsEmptyAt(t, grid, start)
    ensures s == {start}
  {
  }

  /** The revealed region does not depend on the traversal order: two regions from one start agree. */
  lemma RegionUnique<T>(t: Tags<T>, grid: map<Cell, T>, start: Cell, s1: set<Cell>, s2: set<Cell>)
    requires Region(t, grid, start, s1) && Region(t, grid, start, s2)
    ensures s1 == s2
  {
  }

  /** Every Empty cell of the region has all its in-grid non-mine neighbours in it. */
  lemma RegionClosure<T>(t: Tags<T>, grid: map<Cell, T>, start: Cell, s: set<Cell>, e: Cell, n: Cell)
    requires Region(t, grid, start, s)
    requires e in s && IsEmptyAt(t, grid, e)
    requires Adjacent(e, n) && n in grid && grid[n] != t.mine
    ensures n in s
  {
    NeighboursAreAdjacent(e);
    assert n in Enqueued(t, grid, e);
  }
}
