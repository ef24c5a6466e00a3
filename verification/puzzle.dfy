/**
 * The public facade over the grid. It builds a grid of the selected size,
 * silently ignores preset requests whose position or digit is out of range,
 * and passes solving and reading through to the grid. Its range guard is
 * what establishes the grid's input assumption that every digit lies in
 * `0..maxDigit`.
 */
module Puzzle {
  import Grid
  import Search

  datatype Puzzle = Puzzle(grid: Grid.Grid)

  /**
   * The state of a puzzle while it is being set up: a well-formed grid with
   * every digit in range and no cell locked yet.
   */
  predicate Setup(pz: Puzzle) {
    && Grid.Ready(pz.grid)
    && forall p :: 0 <= p < |pz.grid.cells| ==> !pz.grid.cells[p].locked
  }

  /** An empty puzzle: 4x4 for selector 4, 9x9 for anything else. */
  function NewPuzzle(size: int): (pz: Puzzle)
    ensures Setup(pz)
    ensures size == 4 ==> GetMaxDigit(pz) == 4 && GetPuzzleSize(pz) == 16
    ensures size != 4 ==> GetMaxDigit(pz) == 9 && GetPuzzleSize(pz) == 81
    ensures forall p :: 0 <= p < GetPuzzleSize(pz) ==> GetCellValue(pz, p) == 0
  {
    Puzzle(Grid.NewGrid(size))
  }

  function GetMaxDigit(pz: Puzzle): (m: int)
    requires pz.grid.Valid()
    ensures m == Grid.GetMaxDigit(pz.grid)
  {
    Grid.GetMaxDigit(pz.grid)
  }

  function GetPuzzleSize(pz: Puzzle): (size: int)
    requires pz.grid.Valid()
    ensures size == Grid.GetPuzzleSize(pz.grid)
    ensures size == GetMaxDigit(pz) * GetMaxDigit(pz)
  {
    Grid.GetPuzzleSize(pz.grid)
  }

  function GetCellValue(pz: Puzzle, position: int): (v: int)
    requires 0 <= position < |pz.grid.cells|
    ensures v == Grid.GetCellValue(pz.grid, position)
  {
    Grid.GetCellValue(pz.grid, position)
  }

  /**
   * Set a clue before solving. A position outside `0..size-1` or a digit
   * outside `0..maxDigit` is ignored and the puzzle is returned unchanged;
   * otherwise the cell reads back as `value` and no other cell changes. The
   * set-up state is preserved.
   */
  function SetPresetCell(pz: Puzzle, position: int, value: int): (r: Puzzle)
    requires pz.grid.Valid()
    ensures r.grid.Valid() && r.grid.maxDigit == pz.grid.maxDigit
    ensures position < 0 || position > GetPuzzleSize(pz) - 1 || value < 0 || value > GetMaxDigit(pz) ==> r == pz
    ensures 0 <= position < GetPuzzleSize(pz) && 0 <= value <= GetMaxDigit(pz) ==>
      && GetCellValue(r, position) == value
      && forall p :: 0 <= p < |pz.grid.cells| && p != position ==> r.grid.cells[p] == pz.grid.cells[p]
    ensures Setup(pz) ==> Setup(r)
  {
    if position < 0 || position > Grid.GetPuzzleSize(pz.grid) - 1
       || value < 0 || value > Grid.GetMaxDigit(pz.grid) then
      pz
    else
      Puzzle(Grid.SetCell(pz.grid, position, value))
  }

  /** The puzzle after a sequence of `SetPresetCell` calls, in order. */
  function ApplyPresets(pz: Puzzle, calls: seq<(int, int)>): Puzzle
    requires pz.grid.Valid()
    decreases |calls|
  {
    if |calls| == 0 then pz
    else
      var next := SetPresetCell(pz, calls[0].0, calls[0].1);
      ApplyPresets(next, calls[1..])
  }

  /**
   * Whatever preset requests arrive, the puzzle stays in the set-up state, so
   * every digit stays in `0..maxDigit` as the grid requires.
   */
  lemma {:induction false} PresetsKeepSetup(pz: Puzzle, calls: seq<(int, int)>)
    requires Setup(pz)
    ensures Setup(ApplyPresets(pz, calls))
    decreases |calls|
  {
    if |calls| > 0 {
      PresetsKeepSetup(SetPresetCell(pz, calls[0].0, calls[0].1), calls[1..]);
    }
  }

  /**
   * Solve through the grid. The answer is `true` exactly when the clues admit
   * a solution, and the grid then holds the first one in lexicographic order;
   * on `false` the digits are as they
   * were.
   */
  method Solve(pz: Puzzle) returns (solved: bool, r: Puzzle)
    requires Setup(pz)
    ensures r.grid.Valid() && r.grid.maxDigit == pz.grid.maxDigit
    ensures solved <==> Grid.Solvable(pz.grid)
    ensures solved ==> Grid.SolutionOf(pz.grid, Grid.Values(r.grid.cells))
    ensures solved ==> forall s :: Grid.SolutionOf(pz.grid, s) ==> Search.LexAtMost(r.grid.cells, s)
    ensures !solved ==> forall p :: 0 <= p < |pz.grid.cells| ==> r.grid.cells[p].value == pz.grid.cells[p].value
  {
    var g;
    solved, g := Search.Solve(pz.grid);
    r := Puzzle(g);
  }
}
