/** The three grid rules the game page applies to the boards it keeps: which cells
    are shown as errors, when a submitted board counts as solved, and which cells
    a player may change. The page keeps the puzzle, the solution and the player's
    board as lists of rows; a board only read here is a `Grid` value, the player's
    board, changed in place, is an array. */
module Play {
  import opened Grids
  import opened Completions
  import Engine

  /** `fixed_cells[i][j] != 0 if fixed_cells else False`: with no puzzle given (the
      solver page) no cell is fixed. */
  predicate IsFixed(fixedCells: Option<Grid>, i: int, j: int): (fixed: bool)
    requires InRange(i, j)
    ensures fixedCells.None? ==> !fixed
    ensures fixed ==> At(fixedCells.value, i, j) != 0
  {
    fixedCells.Some? && At(fixedCells.value, i, j) != 0
  }

  /** The error check of `render_grid` for cell (i, j): a cell that is not fixed and
      not empty is checked with `is_valid` on a copy of the board where that cell is
      cleared. It is flagged exactly when its digit appears in another cell of its
      row, column or box. The board shown is not changed. */
  method IsErrorCell(gridData: Grid, fixedCells: Option<Grid>, i: int, j: int) returns (error: bool)
    requires InRange(i, j)
    ensures error <==> !IsFixed(fixedCells, i, j) && At(gridData, i, j) != 0 && !ConflictFree(gridData, i, j)
  {
    var cellVal := At(gridData, i, j);
    var isFixed := IsFixed(fixedCells, i, j);
    error := false;
    if !isFixed && cellVal != 0 {
      var tempGrid := Engine.NewBoard(gridData);
      tempGrid[9 * i + j] := 0;
      ghost var temp := tempGrid[..];
      assert temp == Set(gridData, i, j, 0);
      var s := new Engine.Sudoku();
      s.board := tempGrid;
      var valid := s.IsValid(i, j, cellVal);
      if !valid {
        error := true;
      }
      OccursInUnit(temp, i, j, cellVal);
      if valid {
        forall r, c | InRange(r, c) && Peers(i, j, r, c)
          ensures At(gridData, r, c) != cellVal
        {
          assert At(temp, r, c) == At(gridData, r, c);
        }
      } else {
        ghost var r, c :| InRange(r, c) && SameUnit(i, j, r, c) && At(temp, r, c) == cellVal;
        assert Peers(i, j, r, c) && At(gridData, r, c) == cellVal;
      }
    }
  }

  /** What "Check Solution" tells the player. */
  datatype Verdict =
    | FillAllCells  // "Please fill all cells before checking."
    | Solved        // "Congratulations! You solved it!"
    | NotRight      // "Something is not right. Keep trying!"

  /** "Check Solution": a board with an empty cell is not judged; a full board is
      solved exactly when it equals the stored solution, cell for cell. */
  function CheckSolution(userGrid: Grid, solution: Grid): (v: Verdict)
    ensures v == FillAllCells <==> !Full(userGrid)
    ensures v == Solved <==> Full(userGrid) && userGrid == solution
    ensures v == NotRight <==> Full(userGrid) && userGrid != solution
  {
    if !Full(userGrid) then FillAllCells
    else if userGrid == solution then Solved
    else NotRight
  }

  /** The puzzle handed out by generation: each cell is empty or holds the
      solution's digit. */
  ghost predicate ThinnedFrom(puzzle: Grid, solution: Grid) {
    forall r, c :: InRange(r, c) ==> At(puzzle, r, c) == 0 || At(puzzle, r, c) == At(solution, r, c)
  }

  /** A board judged solved, against a solution and puzzle made by generation, is a
      solved Sudoku that keeps every digit of the puzzle. */
  lemma {:induction false} SolvedVerdictIsCompletion(puzzle: Grid, solution: Grid, userGrid: Grid)
    requires Completes(EmptyGrid(), solution) && ThinnedFrom(puzzle, solution)
    requires CheckSolution(userGrid, solution) == Solved
    ensures IsSolved(userGrid) && Completes(puzzle, userGrid)
  {
    CompletionOfEmptyIsSolved(solution);
    forall r, c | InRange(r, c)
      ensures if At(puzzle, r, c) != 0 then At(userGrid, r, c) == At(puzzle, r, c)
              else 1 <= At(userGrid, r, c) <= 9 && ConflictFree(userGrid, r, c)
    {
    }
  }

  /** The check compares with the stored solution, not with the rules: a different
      valid completion of the puzzle is judged "not right". */
  lemma OtherCompletionsAreNotRight(puzzle: Grid, solution: Grid, userGrid: Grid)
    requires Completes(puzzle, userGrid) && userGrid != solution
    ensures CheckSolution(userGrid, solution) == NotRight
  {
    CompletionIsFull(puzzle, userGrid);
  }

  /** Every fixed cell of the player's board shows the puzzle's digit. */
  ghost predicate KeepsFixed(puzzle: Grid, userGrid: Grid) {
    forall r, c :: InRange(r, c) && At(puzzle, r, c) != 0 ==> At(userGrid, r, c) == At(puzzle, r, c)
  }

  /** `set_game_number(num)`: with a cell selected, the player's board takes `num`
      there, but only when the puzzle has 0 in that cell; nothing else changes.
      So a player's board that shows every fixed digit keeps showing them. */
  method SetGameNumber(userGrid: array<int>, puzzle: Grid, selectedCell: Option<Cell>, num: int)
    requires userGrid.Length == 81
    requires selectedCell.Some? ==> InRange(selectedCell.value.row, selectedCell.value.col)
    modifies userGrid
    ensures selectedCell.None? ==> userGrid[..] == old(userGrid[..])
    ensures selectedCell.Some? ==>
              var r, c := selectedCell.value.row, selectedCell.value.col;
              userGrid[..] == if At(puzzle, r, c) == 0 then Set(old(userGrid[..]), r, c, num) else old(userGrid[..])
    ensures forall r, c :: InRange(r, c) && At(puzzle, r, c) != 0 ==> At(userGrid[..], r, c) == At(old(userGrid[..]), r, c)
    ensures KeepsFixed(puzzle, old(userGrid[..])) ==> KeepsFixed(puzzle, userGrid[..])
  {
    if selectedCell.Some? {
      var r, c := selectedCell.value.row, selectedCell.value.col;
      if At(puzzle, r, c) == 0 {
        userGrid[9 * r + c] := num;
      }
    }
  }
}
