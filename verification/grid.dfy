/**
 * Geometry shared by every Field variant: the rectangle of in-bound cells
 * and the eight-cell Moore neighbourhood.
 */
module Grid {
  import opened Coordinates

  /** The negation of `Field.isOutside`: row in [0, rows) and column in [0, columns). */
  predicate InBounds(rows: nat, columns: nat, c: Cell) {
    0 <= c.row < rows && 0 <= c.column < columns
  }

  /** All in-bound cells of a rows x columns field. */
  function Cells(rows: nat, columns: nat): (s: set<Cell>)
    ensures forall c :: c in s <==> InBounds(rows, columns, c)
  {
    set r, k | 0 <= r < rows && 0 <= k < columns :: Cell(r, k)
  }

  predicate Distinct(s: seq<Cell>) {
    forall i, j :: 0 <= i < j < |s| ==> s[i] != s[j]
  }

  function SetOf(s: seq<Cell>): set<Cell> {
    set c | c in s
  }

  /** The cells of row r, left to right. */
  function RowOf(r: int, columns: nat): (s: seq<Cell>)
    ensures |s| == columns
    ensures forall c :: c in s <==> c.row == r && 0 <= c.column < columns
    ensures Distinct(s)
  {
    if columns == 0 then []
    else
      var front := RowOf(r, columns - 1);
      assert forall i :: 0 <= i < |front| ==> front[i].column < columns - 1 by {
        forall i | 0 <= i < |front| ensures front[i].column < columns - 1 {
          assert front[i] in front;
        }
      }
      front + [Cell(r, columns - 1)]
  }

  /** Every in-bound cell exactly once, row by row: the witness for the cell count and a pick stream that draws each cell once. */
  function RowMajor(rows: nat, columns: nat): (s: seq<Cell>)
    ensures |s| == rows * columns
    ensures forall c :: c in s <==> InBounds(rows, columns, c)
    ensures Distinct(s)
  {
    if rows == 0 then []
    else
      var front := RowMajor(rows - 1, columns);
      var last := RowOf(rows - 1, columns);
      assert forall i :: 0 <= i < |front| ==> front[i].row < rows - 1 by {
        forall i | 0 <= i < |front| ensures front[i].row < rows - 1 {
          assert front[i] in front;
        }
      }
      assert forall j :: 0 <= j < |last| ==> last[j].row == rows - 1 by {
        forall j | 0 <= j < |last| ensures last[j].row == rows - 1 {
          assert last[j] in last;
        }
      }
      assert |front + last| == rows * columns by {
        assert (rows - 1) * columns + columns == rows * columns;
      }
      front + last
  }

  /** A duplicate-free sequence has as many distinct elements as entries. */
  lemma {:induction false} DistinctCard(s: seq<Cell>)
    requires Distinct(s)
    ensures |SetOf(s)| == |s|
  {
    if |s| > 0 {
      var tail := s[1..];
      assert Distinct(tail);
      assert s[0] !in tail by {
        forall i | 0 <= i < |tail| ensures tail[i] != s[0] {
          assert tail[i] == s[i + 1];
        }
      }
      assert SetOf(s) == {s[0]} + SetOf(tail) by {
        assert s == [s[0]] + tail;
      }
      DistinctCard(tail);
    }
  }

  /** A subset is no larger than its superset. */
  lemma SubsetCard(a: set<Cell>, b: set<Cell>)
    requires a <= b
    ensures |a| <= |b|
  {
    assert b == a + (b - a);
    assert a * (b - a) == {};
  }

  /** A field has exactly rows * columns cells (the source's `totalCount`). */
  lemma CellsCount(rows: nat, columns: nat)
    ensures |Cells(rows, columns)| == rows * columns
  {
    var s := RowMajor(rows, columns);
    DistinctCard(s);
    assert SetOf(s) == Cells(rows, columns);
  }

  /** The eight Moore neighbours in the order the source visits them: NW, N, NE, W, E, SW, S, SE. */
  function Neighbours(c: Cell): (ns: seq<Cell>)
    ensures |ns| == 8
  {
    [Cell(c.row - 1, c.column - 1), Cell(c.row - 1, c.column), Cell(c.row - 1, c.column + 1),
     Cell(c.row, c.column - 1), Cell(c.row, c.column + 1),
     Cell(c.row + 1, c.column - 1), Cell(c.row + 1, c.column), Cell(c.row + 1, c.column + 1)]
  }

  /** Independent description of the Moore neighbourhood: a different cell at most one step away in each direction. */
  predicate Adjacent(a: Cell, b: Cell) {
    a != b && -1 <= b.row - a.row <= 1 && -1 <= b.column - a.column <= 1
  }

  /** The listed neighbours are exactly the adjacent cells, each listed once. */
  lemma NeighboursAreAdjacent(c: Cell)
    ensures forall n :: n in Neighbours(c) <==> Adjacent(c, n)
    ensures Distinct(Neighbours(c))
  {
    forall n | Adjacent(c, n) ensures n in Neighbours(c) {
      var ns := Neighbours(c);
      var dr, dk := n.row - c.row, n.column - c.column;
      assert n == Cell(c.row + dr, c.column + dk);
      if dr == -1 {
        if dk == -1 { assert n == ns[0]; } else if dk == 0 { assert n == ns[1]; } else { assert n == ns[2]; }
      } else if dr == 0 {
        if dk == -1 { assert n == ns[3]; } else { assert n == ns[4]; }
      } else {
        if dk == -1 { assert n == ns[5]; } else if dk == 0 { assert n == ns[6]; } else { assert n == ns[7]; }
      }
    }
  }
}
