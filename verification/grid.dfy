/**
 * The Sudoku grid: a flat array of `maxDigit * maxDigit` cells, each holding a
 * digit (0 for empty) and a flag marking it as a fixed clue. This module holds
 * construction, cell access, clue locking, the clash scans shared by the
 * pre-check and the solver, and the pre-check itself. The search lives in
 * module `Search`.
 */
module Grid {
  import opened Geometry

  /** A cell: its digit (0 when empty) and whether it is a locked clue. */
  datatype Cell = Cell(value: int, locked: bool)

  /** A fresh cell is empty and unlocked. */
  const EmptyCell: Cell := Cell(0, false)

  datatype Grid = Grid(maxDigit: int, cells: seq<Cell>) {
    /** The geometry is one of the two supported sizes and the array fits it. */
    predicate Valid() {
      ValidMaxDigit(maxDigit) && |cells| == maxDigit * maxDigit
    }
  }

  /** The grid the solver is handed: every digit in `0..maxDigit`, and every locked cell a clue. */
  predicate Ready(g: Grid) {
    && g.Valid()
    && (forall p :: 0 <= p < |g.cells| ==> 0 <= g.cells[p].value <= g.maxDigit)
    && (forall p :: 0 <= p < |g.cells| && g.cells[p].locked ==> g.cells[p].value != 0)
  }

  /**
   * A new grid: selector 4 gives a 4x4 grid, any other selector a 9x9 grid,
   * with every cell empty and unlocked.
   */
  function NewGrid(selector: int): (g: Grid)
    ensures g.Valid()
    ensures selector == 4 ==> g.maxDigit == 4 && |g.cells| == 16
    ensures selector != 4 ==> g.maxDigit == 9 && |g.cells| == 81
    ensures forall p :: 0 <= p < |g.cells| ==> g.cells[p] == EmptyCell
    ensures Ready(g)
  {
    var m := MaxDigitFor(selector);
    Grid(m, seq(PuzzleSize(m), _ => EmptyCell))
  }

  function GetCellValue(g: Grid, position: int): int
    requires 0 <= position < |g.cells|
  {
    g.cells[position].value
  }

  function GetPuzzleSize(g: Grid): (size: int)
    requires g.Valid()
    ensures size == |g.cells|
    ensures size == 16 || size == 81
  {
    PuzzleSize(g.maxDigit)
  }

  function GetMaxDigit(g: Grid): (m: int)
    requires g.Valid()
    ensures m == 4 || m == 9
    ensures m * m == GetPuzzleSize(g)
  {
    g.maxDigit
  }

  /**
   * Store a digit. Reading the position back yields `value`; its lock flag
   * and every other cell are untouched. No range check is made on `value`.
   */
  function SetCell(g: Grid, position: int, value: int): (r: Grid)
    requires 0 <= position < |g.cells|
    ensures r.maxDigit == g.maxDigit && |r.cells| == |g.cells|
    ensures GetCellValue(r, position) == value
    ensures r.cells[position].locked == g.cells[position].locked
    ensures forall p :: 0 <= p < |g.cells| && p != position ==> r.cells[p] == g.cells[p]
  {
    g.(cells := g.cells[position := Cell(value, g.cells[position].locked)])
  }

  /**
   * Lock every non-empty cell. Values are unchanged, no cell is unlocked, and
   * a cell ends up locked exactly when it was locked or holds a digit.
   */
  method LockPresetCells(g: Grid) returns (r: Grid)
    ensures r.maxDigit == g.maxDigit && |r.cells| == |g.cells|
    ensures forall p :: 0 <= p < |g.cells| ==> r.cells[p].value == g.cells[p].value
    ensures forall p :: 0 <= p < |g.cells| ==>
      (r.cells[p].locked <==> g.cells[p].locked || g.cells[p].value > 0)
  {
    var cells := g.cells;
    var i := 0;
    while i < |cells|
      invariant 0 <= i <= |cells| == |g.cells|
      invariant forall p :: 0 <= p < |g.cells| ==> cells[p].value == g.cells[p].value
      invariant forall p :: 0 <= p < i ==>
        (cells[p].locked <==> g.cells[p].locked || g.cells[p].value > 0)
      invariant forall p :: i <= p < |g.cells| ==> cells[p] == g.cells[p]
    {
      if cells[i].value > 0 {
        cells := cells[i := Cell(cells[i].value, true)];
      }
      i := i + 1;
    }
    r := g.(cells := cells);
  }

  /** Some peer of position `p` (same row, column or box, other position) holds `v`. */
  predicate Conflicts(cells: seq<Cell>, m: int, p: int, v: int)
    requires ValidMaxDigit(m)
  {
    exists q :: 0 <= q < |cells| && Peers(m, p, q) && cells[q].value == v
  }

  /** No digit appears twice among the filled cells of any row, column or box. */
  predicate NoClash(cells: seq<Cell>, m: int)
    requires ValidMaxDigit(m)
  {
    forall p, q :: 0 <= p < |cells| && 0 <= q < |cells| && Peers(m, p, q) && cells[p].value != 0 ==>
      cells[p].value != cells[q].value
  }

  /**
   * A solution of `g`: every cell holds a digit in `1..maxDigit`, every clue
   * of `g` keeps its digit, and no two peers hold the same digit.
   */
  ghost predicate SolutionOf(g: Grid, s: seq<int>)
    requires g.Valid()
  {
    && |s| == |g.cells|
    && (forall p :: 0 <= p < |s| ==> 1 <= s[p] <= g.maxDigit)
    && (forall p :: 0 <= p < |s| && g.cells[p].value != 0 ==> s[p] == g.cells[p].value)
    && (forall p, q :: 0 <= p < |s| && 0 <= q < |s| && Peers(g.maxDigit, p, q) ==> s[p] != s[q])
  }

  ghost predicate Solvable(g: Grid)
    requires g.Valid()
  {
    exists s :: SolutionOf(g, s)
  }

  /** Writing a digit that clashes with no peer keeps the grid free of clashes. */
  lemma PlaceKeepsNoClash(cells: seq<Cell>, m: int, p: int, d: int)
    requires ValidMaxDigit(m) && 0 <= p < |cells|
    requires NoClash(cells, m) && !Conflicts(cells, m, p, d)
    ensures forall locked :: NoClash(cells[p := Cell(d, locked)], m)
  {
    forall locked, a, b | 0 <= a < |cells| && 0 <= b < |cells| && Peers(m, a, b)
      && cells[p := Cell(d, locked)][a].value != 0
      ensures cells[p := Cell(d, locked)][a].value != cells[p := Cell(d, locked)][b].value
    {
      if b == p {
        PeersSymmetric(m, a, b);
      }
    }
  }

  /** The digits of a sequence of cells. */
  function Values(cells: seq<Cell>): (vs: seq<int>)
    ensures |vs| == |cells|
    ensures forall p :: 0 <= p < |cells| ==> vs[p] == cells[p].value
  {
    seq(|cells|, p requires 0 <= p < |cells| => cells[p].value)
  }

  /**
   * One scan of the solver and of the pre-check: walk the members of the
   * unit `u` of `p`, skipping `p` itself, and report whether one holds `v`.
   */
  method ScanUnit(cells: seq<Cell>, m: int, u: Unit, p: int, v: int) returns (clash: bool)
    requires ValidMaxDigit(m) && |cells| == m * m && 0 <= p < m * m
    ensures clash <==> exists q :: 0 <= q < |cells| && q != p && InUnit(m, u, p, q) && cells[q].value == v
  {
    var j := 0;
    while j < m
      invariant 0 <= j <= m
      invariant forall k :: 0 <= k < j ==> Member(m, u, p, k) == p || cells[Member(m, u, p, k)].value != v
    {
      var q := Member(m, u, p, j);
      if q != p && cells[q].value == v {
        return true;
      }
      j := j + 1;
    }
    forall q | 0 <= q < |cells| && q != p && InUnit(m, u, p, q)
      ensures cells[q].value != v
    {
      var k := MemberComplete(m, u, p, q);
    }
    return false;
  }

  /**
   * The full clash test for digit `v` at position `p`: row, then column, then
   * box, stopping at the first unit with a clash.
   */
  method FindClash(cells: seq<Cell>, m: int, p: int, v: int) returns (clash: bool)
    requires ValidMaxDigit(m) && |cells| == m * m && 0 <= p < m * m
    ensures clash <==> Conflicts(cells, m, p, v)
  {
    clash := ScanUnit(cells, m, Row, p, v);
    if !clash {
      clash := ScanUnit(cells, m, Column, p, v);
      if !clash {
        clash := ScanUnit(cells, m, Box, p, v);
      }
    }
  }

  /**
   * The pre-check: every filled cell is compared with its peers. It succeeds
   * exactly when no row, column or box holds a digit twice. The grid is only
   * read.
   */
  method PreCheck(g: Grid) returns (ok: bool)
    requires g.Valid()
    ensures ok <==> NoClash(g.cells, g.maxDigit)
  {
    var m := g.maxDigit;
    var pos := 0;
    while pos < |g.cells|
      invariant 0 <= pos <= |g.cells|
      invariant forall p :: 0 <= p < pos && g.cells[p].value != 0 ==> !Conflicts(g.cells, m, p, g.cells[p].value)
    {
      var curVal := g.cells[pos].value;
      if curVal != 0 {
        var clash := FindClash(g.cells, m, pos, curVal);
        if clash {
          return false;
        }
      }
      pos := pos + 1;
    }
    return true;
  }
}
