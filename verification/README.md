# Sudoku backtracking solver — Dafny model

This project models the back end of a console Sudoku solver for 4x4 and 9x9
puzzles. The grid is a flat array of `maxDigit * maxDigit` cells. Each cell
holds a digit (0 for empty) and a lock flag that marks a clue.

The solver works in three stages:

1. It locks every filled cell.
2. It runs a pre-check that rejects clues which repeat a digit in a row, column or box.
3. It runs an iterative backtracking walk. A position counter and a `backtracking` direction flag drive the walk.

The `Puzzle` facade sits in front of the grid. It builds a grid of the selected size. It silently ignores out-of-range preset requests. It passes solving and reading through to the grid.

The model is written in value style. A grid is an immutable datatype, and
every operation that changes the grid returns the new grid. So "the
pre-check does not modify the grid" holds by construction: `PreCheck` returns
only a boolean.

Modules:

- `Geometry` (geometry.dfy) covers the row, column and box member formulas. It also gives an independent coordinate description of the same units (`InUnit`, `Peers`). Lemmas show that the formulas enumerate exactly those units.
- `Grid` (grid.dfy) holds the cells and the grid. It models construction, `setCell`/`getCellValue`, `lockPresetCells`, the clash scans and `preCheck`. It also defines what a solution of a grid is (`SolutionOf`).
- `Search` (search.dfy) is the walk of `solve`. Its loop invariant is `SearchInv`. It has one lemma per kind of step (skip a locked cell, place a digit, reset and step back) and a termination measure.
- `Ranking` (ranking.dfy) holds the positional-encoding arithmetic behind the termination measure.
- `Puzzle` (puzzle.dfy) is the facade.

The main result is `Search.Solve`. It returns `true` exactly when the clues
admit a solution, and then the grid holds one that keeps every clue. On
`false`, every cell holds the digit it started with. Either way, the locked
cells are exactly the clues.

Completeness comes from the loop invariant. The walk never passes any
solution in the lexicographic order of digit sequences. This works because a
cell is always reset to 0 before the walk steps back past it, so retrying a
cell from one above its current digit loses nothing.

The result test `pos > 0` at the end of `solve` is sound. The loop can only
exit with `pos` equal to the grid size (the normal exit) or `-1` (the
`break`). The walk always terminates. Termination is proved with a
lexicographic rank of the search state, so no fuel bound is needed.

Java's `/` and `%` truncate towards zero, while Dafny's are Euclidean. They
agree here because every operand of the index formulas is non-negative.

## Model

| member | source | states |
|---|---|---|
| Geometry.MaxDigitFor | src/sudoku/backend/Grid.java:26 | the size selector 4 gives largest digit 4 and every other selector gives 9 |
| Geometry.BoxSize | src/sudoku/backend/Grid.java:155 | the box side is the exact, positive integer square root of the largest digit |
| Geometry.Member | src/sudoku/backend/Grid.java:104-164 | every row, column and box member index computed for a position in range is itself in range and lies in that position's row, column or box |
| Geometry.RowMemberInUnit | src/sudoku/backend/Grid.java:104-108 | a row member `row * maxDigit + j` is a grid position in the same row as `pos` |
| Geometry.ColumnMemberInUnit | src/sudoku/backend/Grid.java:128-132 | a column member `col + maxDigit * j` is a grid position in the same column as `pos` |
| Geometry.BoxMemberValue | src/sudoku/backend/Grid.java:155-164 | in coordinates, box member `j` of the box of `pos` is at row `s*(r/s) + j/s` and column `s*(c/s) + j%s` |
| Geometry.BoxMemberInUnit | src/sudoku/backend/Grid.java:155-164 | a box member is a grid position in the same band of rows and stack of columns as `pos` |
| Geometry.BoxMemberComplete | src/sudoku/backend/Grid.java:294-298 | every position in the box of `pos` is produced by the box member formula for some `j` in `0..maxDigit-1` |
| Geometry.MemberComplete | src/sudoku/backend/Grid.java:282-300 | the row, column and box formulas enumerate the whole unit: every position sharing the unit with `pos` is some member |
| Geometry.SelfIsMember | src/sudoku/backend/Grid.java:107-111 | each scan visits `pos` itself, which is why the scans skip the index equal to `pos` |
| Geometry.CentreBoxExample | src/sudoku/backend/Grid.java:294-298 | for a 9x9 grid, position 40 is in box 4, whose members are 30, 31, 32, 39, 40, 41, 48, 49 and 50 |
| Grid.NewGrid | src/sudoku/backend/Grid.java:24-33 | a new grid has 16 cells with largest digit 4 for selector 4, otherwise 81 cells with largest digit 9, all empty and unlocked |
| Grid.GetPuzzleSize | src/sudoku/backend/Grid.java:53-55 | the puzzle size is the number of cells, 16 or 81 |
| Grid.GetMaxDigit | src/sudoku/backend/Grid.java:57-59 | the largest digit is 4 or 9 and its square is the puzzle size |
| Grid.SetCell | src/sudoku/backend/Grid.java:40-51 | after `setCell(p, v)`, `getCellValue(p)` (modelled by `Grid.GetCellValue`, a plain read of the cell) returns `v`; the cell's lock is kept and every other cell is unchanged |
| Grid.LockPresetCells | src/sudoku/backend/Grid.java:213-219 | no value changes, no cell is unlocked, and a cell ends up locked exactly when it was locked or holds a digit above 0 |
| Grid.ScanUnit | src/sudoku/backend/Grid.java:106-176 | one scan over a row, column or box, skipping `pos`, reports a clash exactly when another position of that unit holds the tried digit |
| Grid.FindClash | src/sudoku/backend/Grid.java:99-180 | the row, column and box scans together, stopping at the first clash, report a clash exactly when some peer of `pos` holds the digit |
| Grid.PreCheck | src/sudoku/backend/Grid.java:225-280 | the pre-check succeeds exactly when no filled cell shares its digit with another cell of its row, column or box |
| Grid.PlaceKeepsNoClash | src/sudoku/backend/Grid.java:178-185 | writing a digit that clashes with no peer keeps every row, column and box free of repeated digits, whatever the cell's lock |
| Search.FindDigit | src/sudoku/backend/Grid.java:94-186 | the candidate loop returns the least digit above the cell's current value, up to the largest digit, that clashes with no peer; or it reports that every such digit clashes |
| Search.SkipKeepsOnTrack | src/sudoku/backend/Grid.java:85-91 | stepping over a cell that already holds the solution's digit, in either direction, never passes that solution |
| Search.PlaceKeepsOnTrack | src/sudoku/backend/Grid.java:182-194 | writing a digit that does not overshoot the solution's digit and moving forward never passes that solution: the prefix either still matches it or is already below it |
| Search.ResetKeepsOnTrack | src/sudoku/backend/Grid.java:195-199 | when the solution's digit at `pos` is not above the current one, clearing the cell and stepping back leaves the prefix strictly below that solution |
| Search.SkipStep | src/sudoku/backend/Grid.java:84-92 | stepping over a locked cell in the current direction keeps the loop invariant and makes progress |
| Search.PlaceStep | src/sudoku/backend/Grid.java:178-194 | writing the found digit and moving forward keeps the invariant: filled cells never clash, locked cells keep their clues, and no solution is skipped |
| Search.ResetStep | src/sudoku/backend/Grid.java:195-199 | when no candidate is left, resetting the cell to 0 and stepping back keeps the invariant, and no solution extends the abandoned prefix |
| Search.SolutionDigitFree | src/sudoku/backend/Grid.java:96-97 | while the cells agree with a solution below `pos`, that solution's digit at `pos` is a clash-free candidate, so retrying from the current value plus one misses no solution |
| Search.RankGrows | src/sudoku/backend/Grid.java:77-200 | a step that raises the first changed key of the search state raises its rank, which is what makes the walk terminate |
| Search.RankInRange | src/sudoku/backend/Grid.java:77-200 | the rank of every state reachable by the walk lies below a fixed bound determined by the grid size |
| Search.Finished | src/sudoku/backend/Grid.java:202-204 | when the position reaches the grid size, the cells form a solution that keeps every clue |
| Search.Exhausted | src/sudoku/backend/Grid.java:79-82 | when the position drops below 0, the puzzle has no solution and every cell is back to its starting digit |
| Search.ClashUnsolvable | src/sudoku/backend/Grid.java:70-73 | clues that repeat a digit in a row, column or box admit no solution, so quitting after a failed pre-check is correct |
| Search.Step | src/sudoku/backend/Grid.java:84-199 | one pass of the loop body moves the position by exactly one and writes no cell other than `pos`; a locked cell is stepped over in the current direction with nothing written; the loop invariant is kept and progress is made (the rank grows, or it stays while the position moves back) |
| Search.Visit | src/sudoku/backend/Grid.java:94-199 | at an unlocked cell, either the least digit above the current one that clashes with no peer is written and the walk moves forward, or every such digit clashes, the cell is reset to 0 and the walk moves back; no other cell changes; the invariant is kept and the rank grows |
| Search.Walk | src/sudoku/backend/Grid.java:75-207 | on a locked grid with clash-free clues, the walk answers `pos > 0` exactly when a solution exists, leaves in the grid the solution that comes first in lexicographic order when it does, and leaves every digit unchanged when it does not |
| Search.Solve | src/sudoku/backend/Grid.java:61-208 | `solve` answers true exactly when the clues admit a solution, and then the grid holds the first solution in lexicographic order: every cell holds a digit in `1..maxDigit` with no repeat in any row, column or box and every clue kept; a failed pre-check gives false; on false every value is unchanged; afterwards exactly the clues are locked |
| Search.EmptyFourByFourSolvable | src/sudoku/backend/Grid.java:61-64 | an empty 4x4 grid has a solution, so solving it answers true |
| Puzzle.NewPuzzle | src/sudoku/backend/Puzzle.java:10-16 | a new puzzle is 4x4 with 16 positions for selector 4 and 9x9 with 81 positions otherwise, with all cells empty |
| Puzzle.GetMaxDigit | src/sudoku/backend/Puzzle.java:49-51 | returns exactly the grid's largest digit |
| Puzzle.GetPuzzleSize | src/sudoku/backend/Puzzle.java:53-55 | returns exactly the grid's size, the square of the largest digit |
| Puzzle.GetCellValue | src/sudoku/backend/Puzzle.java:40-47 | returns exactly the grid's value at the position |
| Puzzle.SetPresetCell | src/sudoku/backend/Puzzle.java:18-30 | a position outside `0..size-1` or a value outside `0..maxDigit` leaves the puzzle unchanged; otherwise the cell reads back as the value and no other cell changes; the set-up state is preserved |
| Puzzle.PresetsKeepSetup | src/sudoku/backend/Puzzle.java:24-29 | after any sequence of preset requests, every digit stays in `0..maxDigit` and no cell is locked, which is what the grid's solver assumes |
| Puzzle.Solve | src/sudoku/backend/Puzzle.java:32-38 | passes through to the grid: true exactly when the clues admit a solution, and the grid then holds the first one in lexicographic order; on false the digits are unchanged |

## Left out

- The console front end (`src/sudoku/frontend/Frontend.java`) is left out. It reads input lines, parses integers and renders ASCII tables, and holds no solver logic.
- `Cell.java` is not part of this model. A cell is modelled as the record `Cell(value, locked)`, using only what `Grid` observes: `setValue`, `getValue`, `lock` and `isLocked`. A fresh cell is taken to be empty and unlocked.
- `(int) Math.sqrt(MAX_DIGIT)` is a floating-point call. It is replaced by `Geometry.BoxSize`, which gives 2 for 4 and 3 for 9, the exact results for the two sizes.
- The commented-out fixed-size box formulas in `Grid` are left out.
- Mutation is not modelled as mutation. The grid array and cell objects become immutable values, and each changing operation returns the new grid. Object identity and aliasing are not modelled.
- Search.Solve: requires every digit to be in `0..maxDigit` and every locked cell to hold a digit. The first is the input assumption the grid documents and the facade's guard establishes. The second holds for any grid that has not been solved before.
- Puzzle.Solve: requires the set-up state (no cell locked), so it models a single solve per puzzle, as the front end uses it. Repeated solves are not modelled. In the source, a second solve after `setPresetCell(p, 0)` on a cell locked by the first solve would step over that empty, still-locked cell.
- Grid.SetCell, Grid.GetCellValue and Puzzle.GetCellValue require the position to be in range. In the source, an out-of-range index throws an unchecked exception that nothing catches.
- Running time is not modelled. The walk is proved to terminate, but there is no bound on the number of steps and no timeout.
- Java `int` overflow is not modelled. No value in these computations goes beyond 81.

The rank used for termination is not in the source. It is a proof device (`Search.Key`, `Search.Rank`, `Ranking.Enc`).
