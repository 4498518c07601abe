/**
 * The immutable coordinate class of the poosweeper package (Cell.java):
 * a (row, column) pair used as a key of hash-based sets.
 */
module Coordinates {

  /** A zero-based grid coordinate; both fields are final in the source. */
  datatype Cell = Cell(row: int, column: int)

  /** The argument of `equals(Object)`: null, some Cell, or an instance of any other class. */
  datatype Object = Null | CellObject(cell: Cell) | Other

  const IntModulus: int := 0x1_0000_0000
  const IntMin: int := -0x8000_0000

  /** Java `int` arithmetic: reduce an exact value into [-2^31, 2^31). */
  function WrapInt(x: int): (r: int)
    ensures IntMin <= r < IntMin + IntModulus
    ensures (r - x) % IntModulus == 0
  {
    (x - IntMin) % IntModulus + IntMin
  }

  /** `Cell.equals`: false for null and for other classes, otherwise a field-by-field comparison. */
  function Equals(c: Cell, o: Object): (b: bool)
    ensures b <==> o == CellObject(c)
  {
    match o
    case Null => false
    case Other => false
    case CellObject(d) => c.row == d.row && c.column == d.column
  }

  /**
   * `Cell.hashCode` = `Objects.hash(row, column)`, i.e. `31 * (31 * 1 + row) + column`
   * in wrapping 32-bit arithmetic (wrapping once at the end gives the same value).
   */
  function HashCode(c: Cell): (h: int)
    ensures IntMin <= h < IntMin + IntModulus
  {
    WrapInt(31 * (31 * 1 + c.row) + c.column)
  }

  /** equals is reflexive: every cell equals itself. */
  lemma EqualsReflexive(c: Cell)
    ensures Equals(c, CellObject(c))
  {
  }

  /** equals is symmetric between cells. */
  lemma EqualsSymmetric(c: Cell, d: Cell)
    ensures Equals(c, CellObject(d)) <==> Equals(d, CellObject(c))
  {
  }

  /** Equal cells have equal hash codes, as hash-based sets require. */
  lemma HashConsistentWithEquals(c: Cell, d: Cell)
    requires Equals(c, CellObject(d))
    ensures HashCode(c) == HashCode(d)
  {
  }
}
