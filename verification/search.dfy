/**
 * The backtracking search of `Grid.solve`. The walk is iterative: a position
 * counter moves forward over the flat grid while digits can be placed and
 * backward, with a `backtracking` flag set, when a cell runs out of
 * candidates. Locked cells are stepped over in the current direction. A cell
 * is retried from one above its current digit, and is reset to 0 before the
 * walk steps back past it.
 *
 * `SearchInv` is the loop invariant. Besides the shape of the partial
 * assignment it records, for every solution `s` of the puzzle, that the
 * search has not yet passed `s` in the lexicographic order of digit
 * sequences; this is what makes a `false` answer mean "unsolvable".
 */
module Search {
  import opened Geometry
  import opened Grid
  import Ranking

  /**
   * The candidate loop for one unlocked position: the least digit above the
   * cell's current value, up to `m`, that clashes with no peer, if any.
   */
  method FindDigit(cells: seq<Cell>, m: int, pos: int) returns (found: bool, d: int)
    requires ValidMaxDigit(m) && |cells| == m * m && 0 <= pos < m * m
    ensures found ==> cells[pos].value < d <= m && !Conflicts(cells, m, pos, d)
    ensures found ==> forall e :: cells[pos].value < e < d ==> Conflicts(cells, m, pos, e)
    ensures !found ==> forall e :: cells[pos].value < e <= m ==> Conflicts(cells, m, pos, e)
  {
    var tryNumber := cells[pos].value + 1;
    while tryNumber <= m
      invariant cells[pos].value < tryNumber
      invariant forall e :: cells[pos].value < e < tryNumber ==> Conflicts(cells, m, pos, e)
      decreases m - tryNumber
    {
      var clash := FindClash(cells, m, pos, tryNumber);
      if !clash {
        return true, tryNumber;
      }
      tryNumber := tryNumber + 1;
    }
    return false, 0;
  }

  /** `cells` and `s` agree on every position below `k`. */
  ghost predicate AgreeBelow(cells: seq<Cell>, s: seq<int>, k: int)
    requires 0 <= k <= |cells| && k <= |s|
  {
    forall i :: 0 <= i < k ==> cells[i].value == s[i]
  }

  /** The digits of `cells` below `k` come strictly before those of `s` in lexicographic order. */
  ghost predicate BelowAt(cells: seq<Cell>, s: seq<int>, k: int)
    requires 0 <= k <= |cells| && k <= |s|
  {
    exists i :: 0 <= i < k && AgreeBelow(cells, s, i) && cells[i].value < s[i]
  }

  /** The digits of `cells` come at or before `s` in lexicographic order. */
  ghost predicate LexAtMost(cells: seq<Cell>, s: seq<int>)
    requires |s| == |cells|
  {
    AgreeBelow(cells, s, |s|) || BelowAt(cells, s, |s|)
  }

  /** The clues of `g0` are exactly its locked cells, and all its digits are in range. */
  predicate Locked(g0: Grid) {
    && Ready(g0)
    && forall p :: 0 <= p < |g0.cells| ==> (g0.cells[p].locked <==> g0.cells[p].value != 0)
  }

  /**
   * The shape of the partial assignment, for the grid `g0` as it was after
   * locking, the current cells, position and direction.
   */
  ghost predicate Shape(g0: Grid, cells: seq<Cell>, pos: int, bt: bool) {
    && Locked(g0)
    && |cells| == |g0.cells|
    && -1 <= pos <= |cells|
    && (pos == -1 ==> bt)
    && (bt ==> pos < |cells|)
    // locked cells keep their lock and their clue
    && (forall p :: 0 <= p < |cells| ==> cells[p].locked == g0.cells[p].locked)
    && (forall p :: 0 <= p < |cells| && cells[p].locked ==> cells[p].value == g0.cells[p].value)
    && (forall p :: 0 <= p < |cells| ==> 0 <= cells[p].value <= g0.maxDigit)
    // cells before pos are filled, unlocked cells after it are empty
    && (forall p :: 0 <= p < pos ==> cells[p].value != 0)
    && (forall p :: pos < p < |cells| && !cells[p].locked ==> cells[p].value == 0)
    && (!bt && 0 <= pos < |cells| && !cells[pos].locked ==> cells[pos].value == 0)
  }

  /**
   * The invariant of the search loop: the shape above, filled cells never
   * clash, and no solution has been skipped.
   */
  ghost predicate SearchInv(g0: Grid, cells: seq<Cell>, pos: int, bt: bool) {
    && Shape(g0, cells, pos, bt)
    && NoClash(cells, g0.maxDigit)
    && (forall s :: SolutionOf(g0, s) ==> OnTrack(cells, s, pos, bt))
  }

  /**
   * The walk has not passed the solution `s`: going forward, the filled
   * prefix is at or below `s`; backtracking, the prefix up to and including
   * the current cell is strictly below `s`.
   */
  ghost predicate OnTrack(cells: seq<Cell>, s: seq<int>, pos: int, bt: bool)
    requires -1 <= pos <= |cells| && |s| == |cells|
    requires bt ==> pos < |cells|
    requires !bt ==> 0 <= pos
  {
    if bt then BelowAt(cells, s, pos + 1)
    else AgreeBelow(cells, s, pos) || BelowAt(cells, s, pos)
  }

  /**
   * When the walk stands on an unlocked `pos` and has not moved strictly
   * below `s` before it, the cells agree with `s` below `pos` and the current
   * digit is below that of `s`.
   */
  lemma OnTrackAtPos(c: seq<Cell>, s: seq<int>, pos: int, bt: bool)
    requires |s| == |c| && 0 <= pos < |c| && OnTrack(c, s, pos, bt)
    requires !bt ==> c[pos].value == 0
    requires 0 < s[pos] && !BelowAt(c, s, pos)
    ensures AgreeBelow(c, s, pos) && c[pos].value < s[pos]
  {
    if bt {
      var i :| 0 <= i < pos + 1 && AgreeBelow(c, s, i) && c[i].value < s[i];
      assert i == pos;
    }
  }

  // ---------------------------------------------------------------------
  // Termination measure

  /**
   * The digit contributed by one cell to the rank of a search state: an
   * unlocked cell counts its value up to `pos` and `m + 1` beyond it; a
   * locked cell counts 0 while the walk stands on it going forward, 1
   * otherwise.
   */
  function Key(cell: Cell, m: int, i: int, pos: int, bt: bool): int {
    if cell.locked then (if i == pos && !bt then 0 else 1)
    else if i <= pos then cell.value
    else m + 1
  }

  ghost function Keys(cells: seq<Cell>, m: int, pos: int, bt: bool): (ks: seq<int>)
    ensures |ks| == |cells|
    ensures forall i :: 0 <= i < |cells| ==> ks[i] == Key(cells[i], m, i, pos, bt)
  {
    seq(|cells|, i requires 0 <= i < |cells| => Key(cells[i], m, i, pos, bt))
  }

  ghost function Rank(cells: seq<Cell>, m: int, pos: int, bt: bool): int {
    Ranking.Enc(Keys(cells, m, pos, bt), m + 2)
  }

  /** The measure the loop decreases, first component. */
  ghost function Bound(g0: Grid): int {
    Ranking.Pow(if g0.maxDigit < 0 then 0 else g0.maxDigit + 2, |g0.cells|)
  }

  lemma RankInRange(g0: Grid, cells: seq<Cell>, pos: int, bt: bool)
    requires SearchInv(g0, cells, pos, bt)
    ensures 0 <= Rank(cells, g0.maxDigit, pos, bt) < Bound(g0)
  {
    var m := g0.maxDigit;
    var ks := Keys(cells, m, pos, bt);
    assert Ranking.Digits(ks, m + 2);
    Ranking.EncBounds(ks, m + 2);
  }

  /**
   * A step from one search state to the next makes progress: the rank grows,
   * or it stays and the position moves towards the start.
   */
  ghost predicate Progress(m: int, c: seq<Cell>, pos: int, bt: bool, c': seq<Cell>, pos': int, bt': bool) {
    || Rank(c, m, pos, bt) < Rank(c', m, pos', bt')
    || (Rank(c, m, pos, bt) == Rank(c', m, pos', bt') && pos' < pos)
  }

  /** The rank grows when the first changed key, at `p`, grows. */
  lemma RankGrows(g0: Grid, c: seq<Cell>, pos: int, bt: bool, c': seq<Cell>, pos': int, bt': bool, p: int)
    requires SearchInv(g0, c, pos, bt) && SearchInv(g0, c', pos', bt')
    requires 0 <= p < |c|
    requires forall i :: 0 <= i < p ==> Key(c[i], g0.maxDigit, i, pos, bt) == Key(c'[i], g0.maxDigit, i, pos', bt')
    requires Key(c[p], g0.maxDigit, p, pos, bt) < Key(c'[p], g0.maxDigit, p, pos', bt')
    ensures Rank(c, g0.maxDigit, pos, bt) < Rank(c', g0.maxDigit, pos', bt')
  {
    var m := g0.maxDigit;
    var ks, ks' := Keys(c, m, pos, bt), Keys(c', m, pos', bt');
    assert Ranking.Digits(ks, m + 2);
    assert Ranking.Digits(ks', m + 2);
    Ranking.EncLexLess(ks, ks', m + 2, p);
  }

  // ---------------------------------------------------------------------
  // Completeness: the digit of a solution is always a free candidate

  /**
   * If the cells agree with a solution `s` below `p`, the solution's digit at
   * `p` clashes with no peer.
   */
  lemma SolutionDigitFree(g0: Grid, c: seq<Cell>, pos: int, bt: bool, s: seq<int>)
    requires SearchInv(g0, c, pos, bt) && 0 <= pos < |c|
    requires SolutionOf(g0, s) && AgreeBelow(c, s, pos)
    ensures !Conflicts(c, g0.maxDigit, pos, s[pos])
  {
    var m := g0.maxDigit;
    forall q | 0 <= q < |c| && Peers(m, pos, q)
      ensures c[q].value != s[pos]
    {
      if c[q].value != 0 {
        assert c[q].value == s[q];
      }
    }
  }

  // ---------------------------------------------------------------------
  // The three kinds of step

  /** Stepping over a locked cell keeps the invariant and makes progress. */
  lemma SkipStep(g0: Grid, c: seq<Cell>, pos: int, bt: bool)
    requires SearchInv(g0, c, pos, bt) && 0 <= pos < |c| && c[pos].locked
    ensures var pos' := if bt then pos - 1 else pos + 1;
      SearchInv(g0, c, pos', bt) && Progress(g0.maxDigit, c, pos, bt, c, pos', bt)
  {
    var m := g0.maxDigit;
    var pos' := if bt then pos - 1 else pos + 1;
    forall s | SolutionOf(g0, s)
      ensures OnTrack(c, s, pos', bt)
    {
      assert c[pos].value == s[pos];
      SkipKeepsOnTrack(c, s, pos, bt);
    }
    assert SearchInv(g0, c, pos', bt);
    if bt {
      assert Keys(c, m, pos, bt) == Keys(c, m, pos', bt);
    } else {
      RankGrows(g0, c, pos, bt, c, pos', bt, pos);
    }
  }

  /** Stepping over a cell that already holds the digit of `s` keeps the walk on track for `s`. */
  lemma SkipKeepsOnTrack(c: seq<Cell>, s: seq<int>, pos: int, bt: bool)
    requires |s| == |c| && 0 <= pos < |c| && c[pos].value == s[pos]
    requires OnTrack(c, s, pos, bt)
    ensures OnTrack(c, s, if bt then pos - 1 else pos + 1, bt)
  {
    if bt {
      var i :| 0 <= i < pos + 1 && AgreeBelow(c, s, i) && c[i].value < s[i];
      assert i < pos;
    } else if !AgreeBelow(c, s, pos) {
      var i :| 0 <= i < pos && AgreeBelow(c, s, i) && c[i].value < s[i];
      assert 0 <= i < pos + 1 && AgreeBelow(c, s, i) && c[i].value < s[i];
    }
  }

  /**
   * Placing a digit `d` that does not overshoot `s` at the first place the
   * cells could still match it keeps the walk on track for `s`.
   */
  lemma PlaceKeepsOnTrack(c: seq<Cell>, s: seq<int>, pos: int, bt: bool, d: int)
    requires |s| == |c| && 0 <= pos < |c| && OnTrack(c, s, pos, bt)
    requires !bt ==> c[pos].value == 0
    requires 0 < s[pos]
    requires AgreeBelow(c, s, pos) && c[pos].value < s[pos] ==> d <= s[pos]
    ensures OnTrack(c[pos := Cell(d, false)], s, pos + 1, false)
  {
    var c' := c[pos := Cell(d, false)];
    if BelowAt(c, s, pos) {
      var i :| 0 <= i < pos && AgreeBelow(c, s, i) && c[i].value < s[i];
      assert AgreeBelow(c', s, i);
    } else {
      OnTrackAtPos(c, s, pos, bt);
      if d < s[pos] {
        assert AgreeBelow(c', s, pos);
      } else {
        assert AgreeBelow(c', s, pos + 1);
      }
    }
  }

  /**
   * Resetting the cell and stepping back, when the digit of `s` at `pos` is
   * not above the current one, leaves the walk strictly below `s`.
   */
  lemma ResetKeepsOnTrack(c: seq<Cell>, s: seq<int>, pos: int, bt: bool)
    requires |s| == |c| && 0 <= pos < |c| && OnTrack(c, s, pos, bt)
    requires !bt ==> c[pos].value == 0
    requires 0 < s[pos]
    requires AgreeBelow(c, s, pos) ==> s[pos] <= c[pos].value
    ensures OnTrack(c[pos := Cell(0, false)], s, pos - 1, true)
  {
    var c' := c[pos := Cell(0, false)];
    if !BelowAt(c, s, pos) {
      OnTrackAtPos(c, s, pos, bt);
    }
    var i :| 0 <= i < pos && AgreeBelow(c, s, i) && c[i].value < s[i];
    assert AgreeBelow(c', s, i);
  }

  /** Writing a digit at an unlocked `pos` and moving forward keeps the shape. */
  lemma PlaceKeepsShape(g0: Grid, c: seq<Cell>, pos: int, bt: bool, d: int)
    requires Shape(g0, c, pos, bt) && 0 <= pos < |c| && !c[pos].locked && 0 < d <= g0.maxDigit
    ensures Shape(g0, c[pos := Cell(d, false)], pos + 1, false)
  {
  }

  /** Clearing an unlocked `pos` and moving back keeps the shape. */
  lemma ResetKeepsShape(g0: Grid, c: seq<Cell>, pos: int, bt: bool)
    requires Shape(g0, c, pos, bt) && 0 <= pos < |c| && !c[pos].locked
    ensures Shape(g0, c[pos := Cell(0, false)], pos - 1, true)
  {
  }

  /** Writing the least free digit `d` at `pos` and moving forward. */
  lemma PlaceStep(g0: Grid, c: seq<Cell>, pos: int, bt: bool, d: int)
    requires SearchInv(g0, c, pos, bt) && 0 <= pos < |c| && !c[pos].locked
    requires c[pos].value < d <= g0.maxDigit && !Conflicts(c, g0.maxDigit, pos, d)
    requires forall e :: c[pos].value < e < d ==> Conflicts(c, g0.maxDigit, pos, e)
    ensures var c' := c[pos := Cell(d, false)];
      && SearchInv(g0, c', pos + 1, false)
      && Rank(c, g0.maxDigit, pos, bt) < Rank(c', g0.maxDigit, pos + 1, false)
  {
    var c' := c[pos := Cell(d, false)];
    PlaceKeepsShape(g0, c, pos, bt, d);
    PlaceKeepsNoClash(c, g0.maxDigit, pos, d);
    forall s | SolutionOf(g0, s)
      ensures OnTrack(c', s, pos + 1, false)
    {
      if AgreeBelow(c, s, pos) {
        SolutionDigitFree(g0, c, pos, bt, s);
      }
      PlaceKeepsOnTrack(c, s, pos, bt, d);
    }
    assert SearchInv(g0, c', pos + 1, false);
    RankGrows(g0, c, pos, bt, c', pos + 1, false, pos);
  }

  /** No free digit is left at `pos`: reset the cell to 0 and step back. */
  lemma ResetStep(g0: Grid, c: seq<Cell>, pos: int, bt: bool)
    requires SearchInv(g0, c, pos, bt) && 0 <= pos < |c| && !c[pos].locked
    requires forall e :: c[pos].value < e <= g0.maxDigit ==> Conflicts(c, g0.maxDigit, pos, e)
    ensures var c' := c[pos := Cell(0, false)];
      && SearchInv(g0, c', pos - 1, true)
      && Rank(c, g0.maxDigit, pos, bt) < Rank(c', g0.maxDigit, pos - 1, true)
  {
    var c' := c[pos := Cell(0, false)];
    ResetKeepsShape(g0, c, pos, bt);
    forall s | SolutionOf(g0, s)
      ensures OnTrack(c', s, pos - 1, true)
    {
      if AgreeBelow(c, s, pos) {
        SolutionDigitFree(g0, c, pos, bt, s);
      }
      ResetKeepsOnTrack(c, s, pos, bt);
    }
    assert SearchInv(g0, c', pos - 1, true);
    RankGrows(g0, c, pos, bt, c', pos - 1, true, pos);
  }

  /** The walk reached the end: the cells are a solution of `g0`. */
  lemma Finished(g0: Grid, c: seq<Cell>, bt: bool)
    requires SearchInv(g0, c, |c|, bt)
    ensures SolutionOf(g0, Values(c))
  {
  }

  /** The walk fell off the start: no solution exists, and the cells are those of `g0`. */
  lemma Exhausted(g0: Grid, c: seq<Cell>)
    requires SearchInv(g0, c, -1, true)
    ensures !Solvable(g0)
    ensures forall p :: 0 <= p < |c| ==> c[p].value == g0.cells[p].value
  {
    forall s
      ensures !SolutionOf(g0, s)
    {
      assert !BelowAt(c, s, 0);
    }
  }

  /** Grids with the same size and digits have the same solutions. */
  lemma SameSolutions(g: Grid, g': Grid)
    requires g.Valid() && g'.maxDigit == g.maxDigit && |g'.cells| == |g.cells|
    requires forall p :: 0 <= p < |g.cells| ==> g'.cells[p].value == g.cells[p].value
    ensures forall s :: SolutionOf(g, s) <==> SolutionOf(g', s)
  {
  }

  /** A grid whose clues clash has no solution. */
  lemma ClashUnsolvable(g: Grid)
    requires g.Valid() && !NoClash(g.cells, g.maxDigit)
    ensures !Solvable(g)
  {
    var p, q :| 0 <= p < |g.cells| && 0 <= q < |g.cells| && Peers(g.maxDigit, p, q)
      && g.cells[p].value != 0 && g.cells[p].value == g.cells[q].value;
    forall s | |s| == |g.cells| && forall i :: 0 <= i < |s| && g.cells[i].value != 0 ==> s[i] == g.cells[i].value
      ensures !SolutionOf(g, s)
    {
      assert s[p] == s[q];
    }
  }

  // ---------------------------------------------------------------------
  // The solver

  /**
   * One pass of the loop body at `pos`: step over a locked cell in the current
   * direction; otherwise write the least free digit above the current one and
   * move forward, or, when none is left, reset the cell to 0 and move back.
   * The invariant is kept and the state makes progress.
   */
  method Step(g0: Grid, cur: Grid, pos: int, bt: bool) returns (next: Grid, pos': int, bt': bool)
    requires cur.maxDigit == g0.maxDigit && SearchInv(g0, cur.cells, pos, bt) && 0 <= pos < |cur.cells|
    ensures next.maxDigit == cur.maxDigit && |next.cells| == |cur.cells|
    ensures SearchInv(g0, next.cells, pos', bt')
    ensures pos' == pos + 1 || pos' == pos - 1
    ensures Progress(g0.maxDigit, cur.cells, pos, bt, next.cells, pos', bt')
    ensures forall p :: 0 <= p < |cur.cells| && p != pos ==> next.cells[p] == cur.cells[p]
    ensures cur.cells[pos].locked ==> next == cur && bt' == bt && pos' == (if bt then pos - 1 else pos + 1)
  {
    if cur.cells[pos].locked {
      SkipStep(g0, cur.cells, pos, bt);
      next, bt' := cur, bt;
      pos' := if bt then pos - 1 else pos + 1;
    } else {
      next, pos', bt' := Visit(g0, cur, pos, bt);
    }
  }

  /**
   * The loop body at an unlocked `pos`: write the least free digit above the
   * current one and move forward, or, when none is left, reset the cell to 0
   * and move back. The invariant is kept and the rank grows.
   */
  method Visit(g0: Grid, cur: Grid, pos: int, bt: bool) returns (next: Grid, pos': int, bt': bool)
    requires cur.maxDigit == g0.maxDigit && SearchInv(g0, cur.cells, pos, bt)
    requires 0 <= pos < |cur.cells| && !cur.cells[pos].locked
    ensures next.maxDigit == cur.maxDigit && |next.cells| == |cur.cells|
    ensures SearchInv(g0, next.cells, pos', bt')
    ensures bt' ==> pos' == pos - 1 && next.cells[pos].value == 0
    ensures !bt' ==> pos' == pos + 1 && next.cells[pos].value > cur.cells[pos].value
    ensures Rank(cur.cells, g0.maxDigit, pos, bt) < Rank(next.cells, g0.maxDigit, pos', bt')
    ensures forall p :: 0 <= p < |cur.cells| && p != pos ==> next.cells[p] == cur.cells[p]
    ensures !bt' ==> var m, v := g0.maxDigit, next.cells[pos].value;
      && !Conflicts(cur.cells, m, pos, v)
      && forall e :: cur.cells[pos].value < e < v ==> Conflicts(cur.cells, m, pos, e)
    ensures bt' ==> forall e :: cur.cells[pos].value < e <= g0.maxDigit ==> Conflicts(cur.cells, g0.maxDigit, pos, e)
  {
    var found, d := FindDigit(cur.cells, g0.maxDigit, pos);
    if found {
      PlaceStep(g0, cur.cells, pos, bt, d);
      next, pos', bt' := SetCell(cur, pos, d), pos + 1, false;
      assert next.cells == cur.cells[pos := Cell(d, false)];
    } else {
      ResetStep(g0, cur.cells, pos, bt);
      next, pos', bt' := SetCell(cur, pos, 0), pos - 1, true;
      assert next.cells == cur.cells[pos := Cell(0, false)];
    }
  }

  /**
   * The search walk over a grid whose clues are locked and do not clash. It
   * answers `true` exactly when the grid has a solution, and then holds the
   * first one in lexicographic order; on `false` every cell is back to its starting digit. Locks are untouched.
   */
  method Walk(locked: Grid) returns (solved: bool, r: Grid)
    requires Locked(locked) && NoClash(locked.cells, locked.maxDigit)
    ensures r.maxDigit == locked.maxDigit && |r.cells| == |locked.cells|
    ensures forall p :: 0 <= p < |r.cells| ==> r.cells[p].locked == locked.cells[p].locked
    ensures solved ==> SolutionOf(locked, Values(r.cells))
    ensures solved ==> forall s :: SolutionOf(locked, s) ==> LexAtMost(r.cells, s)
    ensures !solved ==> !Solvable(locked)
    ensures !solved ==> forall p :: 0 <= p < |r.cells| ==> r.cells[p].value == locked.cells[p].value
  {
    var m := locked.maxDigit;
    var size := GetPuzzleSize(locked);
    var cur := locked;
    var pos := 0;
    var backtracking := false;
    while pos < size
      invariant cur.maxDigit == m && |cur.cells| == size
      invariant SearchInv(locked, cur.cells, pos, backtracking)
      decreases Bound(locked) - Rank(cur.cells, m, pos, backtracking), pos + 1
    {
      if pos < 0 {
        break;
      }
      RankInRange(locked, cur.cells, pos, backtracking);
      cur, pos, backtracking := Step(locked, cur, pos, backtracking);
    }
    r := cur;
    if pos > 0 {
      Finished(locked, cur.cells, backtracking);
      solved := true;
    } else {
      Exhausted(locked, cur.cells);
      solved := false;
    }
  }

  /**
   * Solve the puzzle: lock the clues, run the pre-check, then walk the grid.
   * The answer is `true` exactly when the puzzle has a solution, and then the
   * grid holds the first one in lexicographic order; on `false` every cell holds the digit it started with.
   * Either way the locked cells are exactly the clues.
   */
  method Solve(g: Grid) returns (solved: bool, r: Grid)
    requires Ready(g)
    ensures r.maxDigit == g.maxDigit && |r.cells| == |g.cells|
    ensures forall p :: 0 <= p < |g.cells| ==> (r.cells[p].locked <==> g.cells[p].value != 0)
    ensures !NoClash(g.cells, g.maxDigit) ==> !solved
    ensures solved ==> SolutionOf(g, Values(r.cells))
    ensures solved ==> forall s :: SolutionOf(g, s) ==> LexAtMost(r.cells, s)
    ensures !solved ==> !Solvable(g)
    ensures !solved ==> forall p :: 0 <= p < |g.cells| ==> r.cells[p].value == g.cells[p].value
  {
    var locked := LockPresetCells(g);
    SameSolutions(g, locked);
    var ok := PreCheck(locked);
    if !ok {
      ClashUnsolvable(locked);
      return false, locked;
    }
    solved, r := Walk(locked);
  }

  /** A filled 4x4 grid: row `r` is `1 2 3 4` rotated left by 0, 2, 1 and 3 places. */
  function FourByFourDigit(p: int): (d: int)
    requires 0 <= p < 16
    ensures 1 <= d <= 4
  {
    var shift := [0, 2, 1, 3][p / 4];
    var k := shift + p % 4;
    if k < 4 then k + 1 else k - 3
  }

  lemma FourByFourPeersDiffer(rp: int, cp: int, rq: int, cq: int)
    requires 0 <= rp < 4 && 0 <= cp < 4 && 0 <= rq < 4 && 0 <= cq < 4
    requires rp != rq || cp != cq
    requires rp == rq || cp == cq || (rp / 2 == rq / 2 && cp / 2 == cq / 2)
    ensures FourByFourDigit(4 * rp + cp) != FourByFourDigit(4 * rq + cq)
  {
    DivModUnique(4 * rp + cp, 4, rp, cp);
    DivModUnique(4 * rq + cq, 4, rq, cq);
    if rp == 0 {
      assert rq == 0 || rq == 1 || rq == 2 || rq == 3;
    } else if rp == 1 {
      assert rq == 0 || rq == 1 || rq == 2 || rq == 3;
    } else if rp == 2 {
      assert rq == 0 || rq == 1 || rq == 2 || rq == 3;
    } else {
      assert rq == 0 || rq == 1 || rq == 2 || rq == 3;
    }
  }

  /** Two peers of the 4x4 grid get different digits. */
  lemma FourByFourPeers(p: int, q: int)
    requires 0 <= p < 16 && 0 <= q < 16 && Peers(4, p, q)
    ensures FourByFourDigit(p) != FourByFourDigit(q)
  {
    var rp, cp, rq, cq := p / 4, p % 4, q / 4, q % 4;
    assert p == 4 * rp + cp && q == 4 * rq + cq;
    assert BoxSize(4) == 2;
    FourByFourPeersDiffer(rp, cp, rq, cq);
  }

  /**
   * An empty 4x4 grid has a solution, so `Solve` answers `true` on it and
   * leaves a complete grid behind.
   */
  lemma EmptyFourByFourSolvable()
    ensures Solvable(NewGrid(4))
  {
    var g := NewGrid(4);
    var s := seq(16, p requires 0 <= p < 16 => FourByFourDigit(p));
    forall p, q | 0 <= p < 16 && 0 <= q < 16 && Peers(4, p, q)
      ensures s[p] != s[q]
    {
      FourByFourPeers(p, q);
    }
    assert SolutionOf(g, s);
  }
}
