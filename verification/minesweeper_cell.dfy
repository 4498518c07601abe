/**
 * The flag-less cell enumeration of minesweeper Cell.java. The oldest Field
 * variant's own `Cell` type is not part of this model; this enumeration stands in for it.
 */
module MinesweeperCell {
  import opened Decimal

  datatype Cell = Empty | One | Two | Three | Four | Five | Six | Seven | Eight | Mine

  /** `values()`: the constants in declaration order. */
  const Values: seq<Cell> := [Empty, One, Two, Three, Four, Five, Six, Seven, Eight, Mine]

  /** `ordinal()`: the position of a constant in `values()`. */
  function Ordinal(v: Cell): (i: nat)
    ensures i < |Values| && Values[i] == v
  {
    match v
    case Empty => 0
    case One => 1
    case Two => 2
    case Three => 3
    case Four => 4
    case Five => 5
    case Six => 6
    case Seven => 7
    case Eight => 8
    case Mine => 9
  }

  /** Indices 0..8 are Empty..Eight, 9 is Mine; each constant has one index. */
  lemma DeclarationOrder()
    ensures |Values| == 10
    ensures Ordinal(Mine) == 9
    ensures forall i :: 0 <= i < |Values| ==> Ordinal(Values[i]) == i
  {
  }

  /** `values()[n]` for a neighbour count n in 0..8: the hint lookup of the Field class. */
  function HintFor(n: nat): (v: Cell)
    requires n <= 8
    ensures Ordinal(v) == n
    ensures v != Mine
    ensures v == Empty <==> n == 0
  {
    Values[n]
  }

  /** The character each constant is declared with. */
  function Glyph(v: Cell): char {
    match v
    case Empty => ' '
    case One => '1'
    case Two => '2'
    case Three => '3'
    case Four => '4'
    case Five => '5'
    case Six => '6'
    case Seven => '7'
    case Eight => '8'
    case Mine => '*'
  }

  /** `toString()`: the declared character as a one-character string. */
  function ToString(v: Cell): (s: string)
    ensures |s| == 1
    ensures v == Empty ==> s == " "
    ensures 1 <= Ordinal(v) <= 8 ==> s == [DigitChar(Ordinal(v))]
    ensures v == Mine ==> s == "*"
  {
    [Glyph(v)]
  }

  /** No two constants render alike. */
  lemma RenderingsDistinct(a: Cell, b: Cell)
    ensures ToString(a) == ToString(b) ==> a == b
  {
  }
}
