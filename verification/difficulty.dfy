/** The four difficulty presets (both Difficulty.java enums) and `createField`. */
module Difficulty {
  import opened Wrappers
  import opened Coordinates
  import Board
  import PF = PoosweeperField
  import MF = MinesweeperField

  datatype Difficulty = Easy | Medium | Hard | ExtremelyHard

  /** The constructor arguments a preset carries: rows, columns and the mine (poo) budget. */
  datatype Preset = Preset(rows: nat, columns: nat, count: int)

  /** Every preset has a non-empty grid and a budget that fits it. */
  function PresetOf(d: Difficulty): (p: Preset)
    ensures 0 < p.rows && 0 < p.columns
    ensures 0 < p.count < p.rows * p.columns
  {
    match d
    case Easy => Preset(8, 8, 10)
    case Medium => Preset(16, 16, 40)
    case Hard => Preset(16, 30, 99)
    case ExtremelyHard => Preset(28, 60, 200)
  }

  /** Some pick stream lets every preset's placement loop finish. */
  lemma PresetPlacementCanFinish(d: Difficulty)
    ensures var p := PresetOf(d);
      exists picks :: Board.PicksInBounds(p.rows, p.columns, picks) && Board.PlaceMines(p.rows, p.columns, p.count, picks).Placed?
  {
    var p := PresetOf(d);
    Board.PlacementPossible(p.rows, p.columns, p.count);
  }

  /** poosweeper `createField`: never the capacity exception; the field carries the preset's arguments. */
  method CreatePooField(d: Difficulty, picks: seq<Cell>) returns (r: Result<PF.Field, PF.Error>)
    requires Board.PicksInBounds(PresetOf(d).rows, PresetOf(d).columns, picks)
    ensures r.Failure? ==> r.error == PF.OutOfPicks
    ensures r.Success? ==> PF.Valid(r.value)
    ensures r.Success? ==> Preset(r.value.rows, r.value.columns, r.value.pooCount) == PresetOf(d)
    ensures r.Success? ==> !PF.IsSolved(r.value)
  {
    var p := PresetOf(d);
    r := PF.New(p.rows, p.columns, p.count, picks);
  }

  /** minesweeper `createField`: never the zero-bound exception; the field carries the preset's arguments. */
  method CreateMineField(d: Difficulty, picks: seq<Cell>) returns (r: Result<MF.Field, MF.Error>)
    requires Board.PicksInBounds(PresetOf(d).rows, PresetOf(d).columns, picks)
    ensures r.Failure? ==> r.error == MF.OutOfPicks
    ensures r.Success? ==> MF.Valid(r.value)
    ensures r.Success? ==> Preset(r.value.rows, r.value.columns, r.value.minesCount) == PresetOf(d)
  {
    var p := PresetOf(d);
    r := MF.New(p.rows, p.columns, p.count, picks);
  }
}
