# Sudoku core: solver, validator and generator

This project models the three utility modules behind the Sudoku game:

- the backtracking **solver** and solution **counter** (`sudokuSolver.js`),
- the **validator** that checks placements, lists conflicting cells and
  compares a board against its solution (`sudokuValidator.js`),
- the puzzle **generator** (`sudokuGenerator.js`). It seeds the three diagonal
  boxes with shuffled digits, completes the board with the solver, then clears
  cells in shuffled order. A clearing is kept only while the puzzle keeps
  exactly one solution.

A board is a 9x9 `array2<int>` in which 0 means an empty cell. Each JavaScript
function is a Dafny `method` that reads or writes that array in place, with its
loops kept as `while` and `for` loops. Each method is proved against a
specification over an immutable `Grid` (nine rows of nine `int`s):

- `Board.Holds(a, g)` says the array `a` holds the grid `g`.
- The solver's and generator's methods, including the solver's read-only
  helpers `FindEmptyCell` and `IsValidMove`, take the grid they start from as a
  ghost parameter. The validator's methods speak of `Snapshot(board)`, the
  array's current contents as a grid.

The solver's search is specified by `Solver.Solutions(g)`. It lists, in the order
the depth-first search meets them, the completions reached from `g`: fill the
first empty cell in row-major order with each digit 1..9 allowed there, then
recurse. Several things are proved about this list:

- the solver returns true exactly when the list is non-empty, and then leaves
  the first completion on the board;
- the counter returns at least `min(N, limit)` and at most `N`, where
  `N = |Solutions(g)|`;
- on a conflict-free board the list holds every valid completion, each exactly
  once. So `N` is the number of solutions of the puzzle.

The generator's random draws are inputs. The draw that
``Math.floor(Math.random() * m)`` would make is an arbitrary integer `d`, used
as `d % m`. Every result of the program is therefore a function of its draws.
The main generator result is `Generator.GeneratedPuzzleUnique`: whenever the
solver completes the seeded board, the puzzle shown to the player has the
generated solution as its one and only solution. When it clears fewer cells
than its target, every given left is needed: clearing any one of them would
give the puzzle a second solution.

Files: `board.dfy` (module `Board`: grids, peers and validity), `solver.dfy`
(`Solver`), `validator.dfy` (`Validator`), `generator.dfy` (`Generator`).

## Model

| member | source | states |
|---|---|---|
| Board.SetCell | src/utils/sudokuSolver.js:15 | writing a cell leaves the board holding the grid updated at that cell and nowhere else |
| Board.UpdateUndone | src/utils/sudokuSolver.js:23 | writing back a cell's previous value restores the grid exactly (the backtracking reset) |
| Board.SolvedUnitsArePermutations | src/utils/sudokuSolver.js:13-19 | in a solved board, every row, every column and every 3x3 box has no repeated digit and contains each of 1..9 |
| Solver.FindEmptyCell | src/utils/sudokuSolver.js:31-40 | returns the first cell holding 0 in row-major order, or None |
| Solver.FirstEmptyFirst | src/utils/sudokuSolver.js:31-40 | the search reports no empty cell exactly when the board is full; a reported cell holds 0 and every cell before it is filled |
| Solver.FirstEmptyFromFirst | src/utils/sudokuSolver.js:32-39 | scanning from (r, c) finds the first 0 at or after (r, c); if it finds none, every cell from (r, c) on is filled |
| Solver.IsValidMove | src/utils/sudokuSolver.js:43-70 | true exactly when the digit occurs nowhere in the cell's row, column or 3x3 box (this includes the cell itself) |
| Solver.ZerosShrink | src/utils/sudokuSolver.js:15-18 | filling an empty cell lowers the number of empty cells, so the recursion terminates |
| Solver.SolveSudoku | src/utils/sudokuSolver.js:2-28 | returns true exactly when the search has a completion, and then the board holds the first one; on false the board is exactly as on entry |
| Solver.SolveDigits | src/utils/sudokuSolver.js:13-27 | trying digits 1..9 in turn at the empty cell succeeds with the first completion found, or fails with the board restored |
| Solver.TryDigit | src/utils/sudokuSolver.js:14-24 | a digit succeeds exactly when it is allowed and the board with it placed has a completion; otherwise the cell is reset to 0 |
| Solver.SolutionsOfFull | src/utils/sudokuSolver.js:5-7 | a full board is its own and only completion |
| Solver.SolutionsSound | src/utils/sudokuSolver.js:2-28 | every completion the search reaches is full and keeps every given; it is a valid board and conflict-free when the start is |
| Solver.SolutionsFromSound | src/utils/sudokuSolver.js:13-24 | completions found from digit d on put a digit d..9 in the cell, are full and keep the givens |
| Solver.PlacementKeepsConflictFree | src/utils/sudokuSolver.js:14-15 | placing a digit that passes the check keeps a conflict-free board conflict-free |
| Solver.CompletionDigitAllowed | src/utils/sudokuSolver.js:14 | the digit any valid completion holds at an empty cell passes the check there |
| Solver.SolutionsComplete | src/utils/sudokuSolver.js:2-28 | the search reaches every valid completion of the board |
| Solver.SolutionsFromComplete | src/utils/sudokuSolver.js:13-25 | a valid completion whose digit at the cell is d or more is reached from digit d on |
| Solver.SolutionsDistinct | src/utils/sudokuSolver.js:73-92 | the search meets no completion twice |
| Solver.SolutionsFromDistinct | src/utils/sudokuSolver.js:83-89 | the completions met from different digits differ, so no completion is counted twice |
| Solver.SolutionsAreCompletions | src/utils/sudokuSolver.js:73-92 | on a conflict-free board the completions reached are exactly the valid solutions agreeing with it, each once |
| Solver.FirstSolutionValid | src/utils/sudokuSolver.js:2-28 | on a conflict-free board a true result leaves a valid solved board that keeps every given |
| Solver.CountSolutions | src/utils/sudokuSolver.js:73-92 | returns between min(N, limit) and N, where N is the number of completions; returns 1 on a full board; leaves the board as it found it |
| Solver.CountDigits | src/utils/sudokuSolver.js:83-89 | the digit loop stops once the count reaches the limit; the count lies between min(N, limit) and N for the completions at this cell |
| Solver.CountDigit | src/utils/sudokuSolver.js:84-88 | a disallowed digit adds 0; an allowed one adds between min(M, limit) and M, where M counts the completions with it placed; the cell is reset to 0 |
| Validator.IsValidPlacement | src/utils/sudokuValidator.js:2-31 | true exactly when the digit occurs in no other cell of the row, the column or the box; the cell's own value is ignored |
| Validator.MoveAllowedIsPlacementAllowed | src/utils/sudokuValidator.js:2-31 | the solver's check holds exactly when the validator's check holds and the cell itself does not hold the digit |
| Validator.AgreesWithSolverOnEmptyCell | src/utils/sudokuValidator.js:2-31 | on an empty cell and a digit 1..9 the validator's and the solver's checks give the same answer |
| Validator.ConflictFreeIsPlacementAllowed | src/utils/sudokuValidator.js:2-31 | a board is conflict-free exactly when every filled cell passes the placement check for its own digit |
| Validator.RowHitsMembers | src/utils/sudokuValidator.js:41-45 | the row scan lists exactly the other cells of the row holding the digit, each once |
| Validator.ColHitsMembers | src/utils/sudokuValidator.js:48-52 | the column scan lists exactly the other cells of the column holding the digit, each once |
| Validator.BoxRowHitsMembers | src/utils/sudokuValidator.js:58-64 | one row of the box scan lists exactly the cells of that box row, outside the target's row and column, that hold the digit |
| Validator.BoxHitsMembers | src/utils/sudokuValidator.js:57-65 | the box scan lists exactly the box cells outside the target's row and column that hold the digit, each once |
| Validator.GetConflictingCells | src/utils/sudokuValidator.js:34-68 | returns the row hits, then the column hits, then the box hits of the cell's digit; nothing for an empty cell |
| Validator.ConflictsAreClashingPeers | src/utils/sudokuValidator.js:34-68 | a position is listed exactly when the cell is filled and the position is a peer holding the same digit |
| Validator.ConflictsDistinct | src/utils/sudokuValidator.js:41-65 | no position is listed twice |
| Validator.NoConflictsIffPlacementAllowed | src/utils/sudokuValidator.js:34-68 | a filled cell has no conflicting cells exactly when its own digit passes the placement check |
| Validator.GetAllErrorCells | src/utils/sudokuValidator.js:71-88 | with no solution the set is empty; otherwise it holds exactly the filled cells whose digit differs from the solution's |
| Validator.NoErrorsIffAgrees | src/utils/sudokuValidator.js:78-85 | there are no error cells exactly when every filled cell matches the solution |
| Validator.IsSolved | src/utils/sudokuValidator.js:91-100 | true exactly when every cell of the board equals the solution's |
| Validator.SolvedHasNoErrors | src/utils/sudokuValidator.js:91-100 | a board equal to its solution has no error cells |
| Validator.HasConflicts | src/utils/sudokuValidator.js:103-105 | always false: it asks for error cells without a solution |
| Validator.HasConflictsMissesClash | src/utils/sudokuValidator.js:103-105 | a board with one digit twice in its top row is not conflict-free, although HasConflicts answers false |
| Validator.NoConflictsIffNoClash | src/utils/sudokuValidator.js:34-38 | a cell has no conflicting cells exactly when it clashes with no peer |
| Validator.ClashBreaksConflictFree | src/utils/sudokuValidator.js:103-105 | one clashing cell makes the board not conflict-free |
| Validator.RowHasConflicts | src/utils/sudokuValidator.js:103-105 | true exactly when some filled cell of the row clashes with a peer |
| Validator.BoardHasConflicts | src/utils/sudokuValidator.js:103-105 | true exactly when the board is not conflict-free |
| Generator.ShuffleArray | src/utils/sudokuGenerator.js:37-42 | the array ends as the shuffle of its old contents: for i from the end down to 1, swap with a drawn j in 0..i |
| Generator.SwapPermutes | src/utils/sudokuGenerator.js:40 | a swap keeps the multiset of elements |
| Generator.SwapDistinct | src/utils/sudokuGenerator.js:40 | a swap adds no duplicates |
| Generator.ShuffleStepsPermutes | src/utils/sudokuGenerator.js:38-41 | every prefix of the swap loop keeps the multiset of elements |
| Generator.ShuffleStepsDistinct | src/utils/sudokuGenerator.js:38-41 | every prefix of the swap loop keeps a duplicate-free array duplicate-free |
| Generator.ShuffledPermutes | src/utils/sudokuGenerator.js:37-42 | the shuffle is a permutation: same length, same multiset, no new duplicates |
| Generator.ShuffledDigits | src/utils/sudokuGenerator.js:25-26 | the shuffled digits hold each of 1..9 exactly once |
| Generator.FillBox | src/utils/sudokuGenerator.js:24-34 | writes the 9 cells of the box row by row from the shuffled digits and changes no other cell |
| Generator.FillDiagonalBoxes | src/utils/sudokuGenerator.js:17-21 | fills boxes (0,0), (3,3) and (6,6), each from its own draws, and changes no other cell |
| Generator.SeedConflictFree | src/utils/sudokuGenerator.js:5-8 | the seeded board holds digits 0..9, has the three diagonal boxes full and has no conflict |
| Generator.GenerateCompleteSolution | src/utils/sudokuGenerator.js:4-14 | returns a fresh board holding the solver's first completion of the seed, or the seed if there is none |
| Generator.CompleteSolutionValid | src/utils/sudokuGenerator.js:4-14 | when the search from the seed succeeds, the solution is a valid solved board that keeps the diagonal boxes |
| Generator.TargetRemovals | src/utils/sudokuGenerator.js:46-52 | the target is 20..25 for easy, 40..45 for hard and 30..35 for any other difficulty |
| Generator.CellsBeforeMembers | src/utils/sudokuGenerator.js:56-61 | the listed positions are exactly the cells before (r, c) in row-major order, each once |
| Generator.ShuffledCells | src/utils/sudokuGenerator.js:63 | the shuffled positions list every cell exactly once |
| Generator.VisitOrder | src/utils/sudokuGenerator.js:56-63 | the removal order is a duplicate-free list of exactly the 81 cells |
| Generator.ListCells | src/utils/sudokuGenerator.js:56-61 | builds the 81 positions in row-major order |
| Generator.CopyBoard | src/utils/sudokuGenerator.js:53 | returns a fresh board with the same cells |
| Generator.ZerosClear | src/utils/sudokuGenerator.js:70 | clearing a filled cell adds exactly one empty cell; clearing an empty one adds none |
| Generator.TryRemoval | src/utils/sudokuGenerator.js:69-81 | the clearing is kept exactly when the cleared puzzle has one completion (the count to 2 is 1); otherwise the digit is put back |
| Generator.ClearCells | src/utils/sudokuGenerator.js:65-82 | the removal loop leaves the puzzle the removal specification gives for the visit order and target |
| Generator.RemoveFromAgrees | src/utils/sudokuGenerator.js:69-80 | the loop only clears cells: every digit left agrees with the board it started from |
| Generator.RemoveFromUnique | src/utils/sudokuGenerator.js:66-82 | a puzzle with exactly one completion keeps exactly one through every turn |
| Generator.RemoveFromBound | src/utils/sudokuGenerator.js:65-78 | the loop adds at most target - removed empty cells |
| Generator.RemovedUnique | src/utils/sudokuGenerator.js:66-82 | from a solved board, the puzzle has that board as its only completion |
| Generator.RemovedAgrees | src/utils/sudokuGenerator.js:69-80 | every digit the puzzle shows is the board's digit at that cell |
| Generator.RemovedBound | src/utils/sudokuGenerator.js:65-78 | from a full board, the puzzle has at most target empty cells |
| Generator.FewerGivensKeepSolutions | src/utils/sudokuGenerator.js:73-76 | clearing more givens of a grid whose givens come from a solved board never loses a solution, so two solutions stay two or more |
| Generator.KeptTurn | src/utils/sudokuGenerator.js:69-77 | after a kept clearing, the cells still to visit are filled and every visited given left is still needed for uniqueness |
| Generator.RestoredTurn | src/utils/sudokuGenerator.js:73-80 | a restored cell is needed: the cleared puzzle keeps the board as a solution and has more than one |
| Generator.RemoveFromMinimal | src/utils/sudokuGenerator.js:65-82 | if the loop ends below its target, every cell of the visit order it leaves filled is needed for uniqueness |
| Generator.KeptMinimal | src/utils/sudokuGenerator.js:66-82 | the same, for the rest of the loop after a kept clearing |
| Generator.RemovedMinimal | src/utils/sudokuGenerator.js:45-85 | from a solved board and an order visiting each cell once, a puzzle with fewer empty cells than the target has only needed givens: clearing any one gives two solutions or more |
| Generator.RemoveCells | src/utils/sudokuGenerator.js:45-85 | returns a fresh puzzle: the board cleared in the shuffled order up to the target; the input board is not modified |
| Generator.GeneratePuzzle | src/utils/sudokuGenerator.js:88-99 | returns the complete solution and the puzzle removed from it, as two distinct fresh boards |
| Generator.GeneratedPuzzleUnique | src/utils/sudokuGenerator.js:88-99 | when the seed can be completed, the solution is valid and the puzzle has it as its only completion, shows only its digits, and has at most the target number of empty cells; with fewer, every given left is needed for uniqueness |

## Left out

- `Math.random` is replaced by caller-supplied draws, one per call in program order. Uniformity of the shuffle and which completion is reached are not modelled.
- Generator.TargetRemovals: a difficulty naming an inherited object property, such as `"constructor"` or `"toString"`, is not modelled. In the source `cellsToRemove[difficulty]` is then a function and not a number, so `removed >= targetRemovals` is never true and the loop never stops early. The model treats every string other than `"easy"` and `"hard"` like `"medium"`.
- The default arguments (`difficulty = 'medium'`, `limit = 2`) are not modelled: callers pass them explicitly.
- Generator.CompleteSolutionValid, Generator.GeneratedPuzzleUnique: the model does not prove that the search from three shuffled diagonal boxes always succeeds. Validity of the generated solution, and so uniqueness of the puzzle, is proved under the hypothesis that it succeeds. `GenerateCompleteSolution` ignores the solver's answer, as the source does.
- The `"row-col"` string keys of `getAllErrorCells` are modelled as a set of `(row, col)` pairs. An absent `solution` is `None`.
- Boards are 9x9 arrays of integers. Ragged or shorter JavaScript arrays, non-integer cells and shared row objects (aliasing between rows) are not modelled.
- The digit loops of the solver and the counter are split into helper methods (`SolveDigits`/`TryDigit`, `CountDigits`/`CountDigit`). The removal loop is split the same way (`ClearCells`/`TryRemoval`), as is the corrected conflict scan. The order of the writes and tests is unchanged.
- Recursion depth and running time of the search are not modelled beyond the termination measure (the number of empty cells).
- React components, the UI state of the application and the build configuration are outside the core.

## Findings

| source | as written | input that shows it | evidently intended | confidence | as-written member | corrected member |
|---|---|---|---|---|---|---|
| src/utils/sudokuValidator.js:103-105 | `hasConflicts` calls `getAllErrorCells` without a solution, so it gets the empty set and always returns false | a board with the same digit in cells (0,0) and (0,1) | report whether any filled cell clashes with a peer in its row, column or box | high (not executed) | Validator.HasConflicts, Validator.HasConflictsMissesClash | Validator.BoardHasConflicts |
