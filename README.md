# Sudoku engine, modelled and proved in Dafny

This project models the engine of a Sudoku web app (`main.py`) together with
the three grid rules the game page applies. The engine is the `Sudoku` class.
It keeps a 9x9 board with 0 for an empty cell, and it can:

- find the first empty cell (`find_empty`);
- check whether a digit may be placed in a cell (`is_valid`);
- solve the board in place by backtracking (`solve`);
- generate a puzzle (`generate_puzzle`). It solves the empty board, keeps a copy as
  the solution, then clears randomly picked cells of a second copy. How many
  cells it clears depends on the difficulty.

The three grid rules are the error flag on a cell, the "Check Solution" verdict,
and the rule about which cells a player may edit.

Files:

- `grids.dfy` (module `Grids`): the board as a value and the game's rules over it.
  A board is a sequence of 81 integers read row by row, so cell (r, c) is entry
  `9 * r + c`. The file defines rows, columns, boxes, peers, conflict-free cells,
  a completion of a board, and a solved board.
- `completions.dfy` (module `Completions`): the steps of the proof that the
  backtracking search is sound and complete.
- `removal.dfy` (module `Removal`): the difficulty table, and the removal loop as
  a function of the sequence of random picks.
- `sudoku.dfy` (module `Engine`): the `Sudoku` class. Its board is an 81-cell
  array updated in place. The solution and the puzzle are fresh arrays (deep copies).
- `rules.dfy` (module `Play`): the error flag, "Check Solution" and the game's
  number entry.
- `digits.dfy` (module `Digits`): a solved board, such as generation produces,
  holds every digit 1..9 in each row, column and box.

Points where the code behaves differently from what a reader might expect; the
model follows the code:

- `is_valid` does not skip the cell (row, col) itself. Its scans include that
  cell, so a digit already there counts as present. The error flag gets the
  intended meaning only because it clears the cell first.
- `solve` does not check the digits it is given. A full board with two equal
  digits in a row is reported solved and left as it is.
- When `solve` fails, the board is exactly as it was, not partly filled. Every
  trial digit is reset to 0 before the next digit is tried or the call returns.
- The difficulty table gives how many cells to clear: Easy 40, Medium 52,
  Hard 58, Expert 62, and 52 for any other name. It is not the number of digits left.

## Model

| member | source | states |
|---|---|---|
| Grids.BoxStart | main.py:53 | the first row (or column) of a box is a multiple of 3 between 0 and 6, at most 2 below the given index, so every box cell is on the board |
| Grids.EmptyGrid | main.py:34 | the board `[[0] * 9 for _ in range(9)]` of a new `Sudoku` and of `generate_puzzle` holds 0 in every cell |
| Grids.Occurs | main.py:49-57 | what the scans of `is_valid` look for: `num` in row `row`, in column `col` or in the box from (BoxStart(row), BoxStart(col)); a digit already in cell (row, col) is found |
| Grids.LexTotal | main.py:40-43 | boards compared cell by cell in the order `find_empty` scans are equal or one comes first |
| Grids.Set | main.py:68 | writing a cell changes that cell and no other |
| Grids.OccursInUnit | main.py:46-58 | the row, column and box scans of `is_valid` find `num` exactly when some cell sharing a row, column or box with (row, col) holds it; the cell itself is included |
| Grids.FillingLowersEmptyCount | main.py:66-69 | placing a digit in an empty cell leaves exactly one empty cell fewer, which is why the recursion of `solve` ends |
| Grids.ClearingRaisesEmptyCount | main.py:87-88 | clearing a non-empty cell of the puzzle adds exactly one empty cell |
| Completions.CompletionIsFull | main.py:62-64 | a completion has no empty cell |
| Completions.FullCompletesItself | main.py:62-64 | a full board is its own completion |
| Completions.OccupiedDigitExcluded | main.py:67 | a digit that `is_valid` finds in a unit of the empty cell is in that cell in no completion |
| Completions.PlacingKeepsCompletions | main.py:68-69 | a completion still completes the board with its own digit placed in an empty cell |
| Completions.NothingTriedYet | main.py:66 | before any digit is tried, every completion holds 1 or more in the empty cell |
| Completions.RejectedDigitTried | main.py:66-67 | a digit `is_valid` rejects can be skipped: no completion holds it |
| Completions.FailedDigitTried | main.py:68-71 | a digit whose recursive search failed can be skipped: no completion holds it |
| Completions.EmptyCellGetsDigit | main.py:66 | every completion puts a digit 1..9 in each empty cell |
| Completions.AllDigitsTried | main.py:66-72 | once all of 1..9 are ruled out at an empty cell, the board has no completion, so returning False is right |
| Completions.PlacementExtends | main.py:67-70 | if `is_valid` accepted `d` at an empty cell, a completion of the board with `d` placed there completes the board before the placement |
| Completions.FullHasOneCompletion | main.py:62-64 | a full board has no completion but itself |
| Completions.FirstSuccessIsLeast | main.py:62-70 | when the first digit to succeed at the first empty cell leads to the least completion below it, the result is the least completion in row-major order of the whole board |
| Completions.LeastCompletionIsUnique | main.py:60-72 | a board has at most one least completion, so the search's answer depends only on the board |
| Completions.CompletionOfConsistentIsSolved | main.py:60-72 | on a board whose digits conflict with nothing, every completion is a solved board |
| Completions.CompletionOfEmptyIsSolved | main.py:76-77 | every completion of the empty board is a solved board |
| Removal.RemovalTarget | main.py:80-81 | cells to clear: Easy 40, Medium 52, Hard 58, Expert 62, and 52 for any other name; always 40..62 |
| Removal.HarderLevelsClearMore | main.py:80 | each harder level clears strictly more cells, and every target is below 81 |
| Removal.RemovalStep | main.py:86-90 | each pass of the loop uses up exactly one attempt |
| Removal.StepCountsRemoval | main.py:86-90 | a pass that picks a non-empty cell clears it and lowers the count still to clear by exactly one; a pass that picks an empty cell changes neither |
| Removal.RunRemoval | main.py:84-90 | the loop stops with no cells left to clear or after 1000 attempts; the count never goes below 0; every cleared cell accounts for one from the target; each puzzle cell is 0 or unchanged |
| Removal.RemovalFromFullBoard | main.py:80-90 | starting from a full solution, the puzzle has at most the target number of empty cells, and exactly that many unless all 1000 attempts were used |
| Engine.NewBoard | main.py:78 | a deep copy is a fresh 81-cell array with the same cells |
| Engine.RemoveCells | main.py:84-90 | the removal loop run in place on the puzzle array leaves exactly the board `RunRemoval` computes |
| Engine.Sudoku.constructor | main.py:32-36 | a new `Sudoku` has an all-zero board, no solution and no puzzle |
| Engine.Sudoku.FindEmpty | main.py:38-44 | None exactly when the board is full; otherwise an empty cell on the board, with every cell before it in row-major order filled |
| Engine.Sudoku.IsValid | main.py:46-58 | true exactly when `num` is in none of the row, the column and the 3x3 box of (row, col), the cell itself included |
| Engine.Sudoku.Solve | main.py:60-72 | on True the board is full and completes its start: nonzero cells are kept, filled cells hold 1..9 and conflict with no peer; it is the least completion in row-major order; on False the board is unchanged and no completion exists; a full board returns True unchanged |
| Engine.Sudoku.GeneratePuzzle | main.py:74-91 | the solution is a fresh copy of the solved board and a generated solution (`IsGeneratedSolution`: the least completion of the empty board in row-major order, or the empty board exactly when none exists); the puzzle is a fresh copy thinned by the removal loop; each puzzle cell is 0 or the solution's digit; a full solution loses at most the target number of cells |
| Engine.SolveOutcomeIsGeneratedSolution | main.py:76-77 | whether `solve` on the empty board succeeds or fails, the board it leaves is a generated solution |
| Engine.SolutionIsAlwaysTheSame | main.py:76-78 | two generated solutions are the same board: every game gets the same solution |
| Engine.Sudoku.SolveEmptyBoard | main.py:76-77 | the board is replaced by a fresh empty board and solved in place, leaving a generated solution; solution and puzzle are not touched |
| Play.IsFixed | main.py:142 | with no puzzle given no cell is fixed; a fixed cell holds a non-zero digit in the puzzle |
| Play.IsErrorCell | main.py:153-159 | a cell is flagged exactly when it is not fixed, not empty, and its digit is in another cell of its row, column or box; the shown board is not changed |
| Play.CheckSolution | main.py:258-264 | "fill all cells" exactly when a cell is empty; "solved" exactly when the board is full and equal to the solution; "not right" otherwise |
| Play.SolvedVerdictIsCompletion | main.py:259-261 | a board judged solved against a generated solution and puzzle is a solved Sudoku that keeps every digit of the puzzle |
| Play.OtherCompletionsAreNotRight | main.py:259-263 | a valid completion of the puzzle that differs from the stored solution is judged "not right" |
| Play.SetGameNumber | main.py:285-288 | with a cell selected and the puzzle empty there, only that cell changes and takes the number; otherwise nothing changes; fixed cells are never changed |
| Digits.SolvedUnitsHoldEveryDigit | main.py:60-72 | every row, column and box of a solved board holds each digit 1..9 |
| Digits.GeneratedSolutionHoldsEveryDigit | main.py:76-78 | the solution generated from the empty board has each digit 1..9 in every row, column and box |

## Left out

- The Streamlit page, sidebar widgets, session state and reruns (main.py:213-300) are not modelled. The model keeps only the grid rules they apply.
- Themes, CSS, the HTML of `render_grid` and `render_number_pad`, and the JavaScript timer (main.py:7-26, 95-210) are not modelled. They are presentation and browser I/O. The highlight and same-number classes of `render_grid` are left out with them.
- `time.time()` start times are left out. They are wall-clock I/O.
- `random.randint` becomes the parameter `picks`. The k-th pair of calls is `picks[k]`, so at least 1000 picks on the board must be supplied.
- The "Reset Puzzle", "Solve Puzzle" and "Solve My Puzzle" buttons (main.py:252-257, 268-273) are not modelled separately. They copy a board or call `solve`, which is modelled.
- "Clear Board" (main.py:274-276) is not modelled separately. It installs the all-zero board (`EmptyGrid`) and clears the selected cell.
- `set_solver_number` (main.py:293-296) is not modelled separately. It writes the number into the selected cell (a `Set`) with no fixed-cell check, unlike `set_game_number`.
- Nothing proves that the empty board can be solved, or that a puzzle has a single solution. The code checks neither. The facts about the solution are stated on the condition that `solve` succeeded.
- The model has no scorer, undo stack or leaderboard, because the code has none.
- Engine.Sudoku.Solve: the promise that each filled digit passed `is_valid` when it was placed is stated through the final board. Each filled cell holds 1..9 and conflicts with no peer there. There is no trace of the intermediate boards.
- The board is one sequence (or array) of 81 cells, not a list of nine row lists. Row aliasing between boards does not matter in the code: each board is either a deep copy or handed over by a `Sudoku` object (main.py:245, 271) that is then discarded.
