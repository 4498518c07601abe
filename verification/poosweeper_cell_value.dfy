/** The cell values of the poosweeper grid (poosweeper CellValue.java). */
module PoosweeperCellValue {
  import opened Decimal

  datatype CellValue = Empty | One | Two | Three | Four | Five | Six | Seven | Eight | Poo | Flag

  /** `values()`: the constants in declaration order. */
  const Values: seq<CellValue> := [Empty, One, Two, Three, Four, Five, Six, Seven, Eight, Poo, Flag]

  /** `ordinal()`: the position of a constant in `values()`. */
  function Ordinal(v: CellValue): (i: nat)
    ensures i < |Values| && Values[i] == v
  {
    match v
    case Empty => 0
    case One => 1
    case Two => 2
    case Three => 3
    case Four => 4
    case Five => 5
    case Six => 6
    case Seven => 7
    case Eight => 8
    case Poo => 9
    case Flag => 10
  }

  /** Indices 0..8 are Empty..Eight, 9 is Poo, 10 is Flag; each constant has one index. */
  lemma DeclarationOrder()
    ensures |Values| == 11
    ensures Ordinal(Poo) == 9 && Ordinal(Flag) == 10
    ensures forall i :: 0 <= i < |Values| ==> Ordinal(Values[i]) == i
  {
  }

  /** `values()[n]` for a neighbour count n in 0..8: the hint lookup of the Field class. */
  function HintFor(n: nat): (v: CellValue)
    requires n <= 8
    ensures Ordinal(v) == n
    ensures v != Poo && v != Flag
    ensures v == Empty <==> n == 0
  {
    Values[n]
  }

  /** The character each constant is declared with. */
  function Glyph(v: CellValue): char {
    match v
    case Empty => ' '
    case One => '1'
    case Two => '2'
    case Three => '3'
    case Four => '4'
    case Five => '5'
    case Six => '6'
    case Seven => '7'
    case Eight => '8'
    case Poo => '*'
    case Flag => 'P'
  }

  /** `toString()`: the declared character as a one-character string. */
  function ToString(v: CellValue): (s: string)
    ensures |s| == 1
    ensures v == Empty ==> s == " "
    ensures 1 <= Ordinal(v) <= 8 ==> s == [DigitChar(Ordinal(v))]
    ensures v == Poo ==> s == "*"
    ensures v == Flag ==> s == "P"
  {
    [Glyph(v)]
  }

  /** No two constants render alike. */
  lemma RenderingsDistinct(a: CellValue, b: CellValue)
    ensures ToString(a) == ToString(b) ==> a == b
  {
  }
}
