/** The `Sudoku` class: a board updated in place, the backtracking solver over it,
    and puzzle generation (solve the empty board, snapshot the solution, clear
    randomly picked cells of a copy). */
module Engine {
  import opened Grids
  import opened Completions
  import opened Removal

  /** `deepcopy` of a board: a fresh array with the same cells. */
  method NewBoard(g: Grid) returns (a: array<int>)
    ensures fresh(a) && a.Length == 81 && a[..] == g
  {
    a := new int[81](k requires 0 <= k < 81 => g[k]);
  }

  /** The removal loop of `generate_puzzle` on the puzzle copy `p`: while cells are
      still to clear and fewer than 1000 picks were used, take the next pick and
      clear that cell if it is not already empty. Its effect is `RunRemoval`. */
  method RemoveCells(p: array<int>, target: int, picks: seq<Cell>)
    requires p.Length == 81 && MaxAttempts <= |picks| && PicksOnBoard(picks)
    modifies p
    ensures p[..] == RunRemoval(RemovalState(old(p[..]), target, 0), picks).grid
  {
    ghost var start := RemovalState(p[..], target, 0);
    var squaresToRemove := target;
    var attempts := 0;
    while squaresToRemove > 0 && attempts < MaxAttempts
      invariant 0 <= attempts <= MaxAttempts
      invariant RunRemoval(RemovalState(p[..], squaresToRemove, attempts), picks) == RunRemoval(start, picks)
      decreases MaxAttempts - attempts
    {
      ghost var before := RemovalState(p[..], squaresToRemove, attempts);
      var row, col := picks[attempts].row, picks[attempts].col;
      if p[9 * row + col] != 0 {
        p[9 * row + col] := 0;
        squaresToRemove := squaresToRemove - 1;
      }
      attempts := attempts + 1;
      assert RemovalState(p[..], squaresToRemove, attempts) == RemovalStep(before, picks);
    }
  }

  /** What the solution of `generate_puzzle` is: the least completion of the empty
      board in row-major order, or, when the search fails, the empty board, which
      then has no completion at all. */
  ghost predicate IsGeneratedSolution(s: Grid) {
    && (s == EmptyGrid() ==> forall g: Grid :: !Completes(EmptyGrid(), g))
    && (s != EmptyGrid() ==> Completes(EmptyGrid(), s))
    && forall g: Grid :: Completes(EmptyGrid(), g) ==> !LexLess(g, s)
  }

  /** The outcome of `solve` on the empty board, success or failure, is such a solution. */
  lemma SolveOutcomeIsGeneratedSolution(solved: bool, s: Grid)
    requires solved ==> Completes(EmptyGrid(), s) && Full(s)
    requires solved ==> forall g: Grid :: Completes(EmptyGrid(), g) ==> !LexLess(g, s)
    requires !solved ==> s == EmptyGrid() && forall g: Grid :: !Completes(EmptyGrid(), g)
    ensures IsGeneratedSolution(s)
  {
    if solved {
      FullIsNotEmpty(s);
    }
  }

  /** Two generated solutions are the same board: the solution does not change from
      one game to the next. */
  lemma {:induction false} SolutionIsAlwaysTheSame(s1: Grid, s2: Grid)
    requires IsGeneratedSolution(s1) && IsGeneratedSolution(s2)
    ensures s1 == s2
  {
    if s1 != EmptyGrid() && s2 != EmptyGrid() {
      LeastCompletionIsUnique(EmptyGrid(), s1, s2);
    }
  }

  class Sudoku {
    var board: array<int>
    var solution: array?<int>
    var puzzle: array?<int>

    /** The board has 81 cells, and the solution and the puzzle, once made, are
        boards of their own (each is a deep copy). */
    ghost predicate Valid()
      reads this
    {
      && board.Length == 81
      && (solution != null ==> solution.Length == 81 && solution != board)
      && (puzzle != null ==> puzzle.Length == 81 && puzzle != board && puzzle != solution)
    }

    /** `Sudoku()`: an empty board, no solution and no puzzle yet. */
    constructor ()
      ensures Valid() && fresh(board)
      ensures board[..] == EmptyGrid()
      ensures solution == null && puzzle == null
    {
      board := new int[81](k => 0);
      solution := null;
      puzzle := null;
    }

    /** `find_empty`: the first cell holding 0 in row-major order, or None when the
        board has no empty cell. */
    method FindEmpty() returns (e: Option<Cell>)
      requires Valid()
      ensures e.None? <==> Full(board[..])
      ensures e.Some? ==> InRange(e.value.row, e.value.col) && At(board[..], e.value.row, e.value.col) == 0
      ensures e.Some? ==> forall r, c ::
                InRange(r, c) && (r < e.value.row || (r == e.value.row && c < e.value.col)) ==> At(board[..], r, c) != 0
    {
      ghost var g := board[..];
      for i := 0 to 9
        invariant forall r, c :: 0 <= r < i && 0 <= c < 9 ==> At(g, r, c) != 0
      {
        for j := 0 to 9
          invariant forall c :: 0 <= c < j ==> At(g, i, c) != 0
        {
          if board[9 * i + j] == 0 {
            assert At(g, i, j) == 0;
            return Some(Cell(i, j));
          }
        }
      }
      return None;
    }

    /** `is_valid(row, col, num)`: true exactly when `num` is in none of row `row`,
        column `col` and the 3x3 box of (row, col). The cell itself is scanned too. */
    method IsValid(row: int, col: int, num: int) returns (ok: bool)
      requires Valid() && InRange(row, col)
      ensures ok <==> !Occurs(board[..], row, col, num)
    {
      ghost var g := board[..];
      for x := 0 to 9
        invariant forall x' :: 0 <= x' < x ==> At(g, row, x') != num && At(g, x', col) != num
      {
        if board[9 * row + x] == num || board[9 * x + col] == num {
          assert At(g, row, x) == num || At(g, x, col) == num;
          return false;
        }
      }
      var startRow, startCol := 3 * (row / 3), 3 * (col / 3);
      for i := 0 to 3
        invariant forall i', j :: 0 <= i' < i && 0 <= j < 3 ==> BoxAt(g, row, col, i', j) != num
      {
        for j := 0 to 3
          invariant forall j' :: 0 <= j' < j ==> BoxAt(g, row, col, i, j') != num
        {
          if board[9 * (i + startRow) + (j + startCol)] == num {
            assert BoxAt(g, row, col, i, j) == num;
            return false;
          }
        }
      }
      return true;
    }

    /** `solve`: backtracking search. It fills the first empty cell with each digit
        1..9 in turn that `is_valid` allows, recurses, and resets the cell to 0 when
        the recursion fails.
        On success the board completes the board it started from: the non-zero cells
        are untouched, and every filled cell holds a digit 1..9 found in none of its
        row, column and box. Trying the first empty cell first and digits in
        ascending order, it returns the least completion in row-major order. On
        failure the board is exactly as it was, and no completion of it exists. A
        board without empty cells is reported solved as is. */
    method Solve() returns (solved: bool)
      requires Valid()
      modifies board
      ensures solved ==> Completes(old(board[..]), board[..]) && Full(board[..])
      ensures solved ==> forall g: Grid :: Completes(old(board[..]), g) ==> !LexLess(g, board[..])
      ensures !solved ==> board[..] == old(board[..])
      ensures !solved ==> forall g: Grid :: !Completes(old(board[..]), g)
      ensures Full(old(board[..])) ==> solved && board[..] == old(board[..])
      decreases EmptyCount(board[..])
    {
      ghost var b := board[..];
      var find := FindEmpty();
      if find.None? {
        FullCompletesItself(b);
        forall g: Grid | Completes(b, g)
          ensures !LexLess(g, b)
        {
          FullHasOneCompletion(b, g);
          LexLessIrreflexive(b);
        }
        return true;
      }
      var row, col := find.value.row, find.value.col;
      NothingTriedYet(b, row, col);
      for i := 1 to 10
        invariant board[..] == b
        invariant TriedBelow(b, row, col, i)
      {
        var ok := IsValid(row, col, i);
        if ok {
          board[9 * row + col] := i;
          assert board[..] == Set(b, row, col, i);
          FillingLowersEmptyCount(b, row, col, i);
          solved := Solve();
          if solved {
            PlacementExtends(b, row, col, i, board[..]);
            FirstSuccessIsLeast(b, row, col, i, board[..]);
            return true;
          }
          board[9 * row + col] := 0;
          assert board[..] == b;
          FailedDigitTried(b, row, col, i);
        } else {
          RejectedDigitTried(b, row, col, i);
        }
      }
      AllDigitsTried(b, row, col);
      return false;
    }

    /** The first step of `generate_puzzle`: a fresh empty board, solved in place. The
        board is left holding the generated solution; whether `solve` succeeded is
        not used. */
    method SolveEmptyBoard()
      requires Valid()
      modifies this
      ensures Valid() && fresh(board)
      ensures solution == old(solution) && puzzle == old(puzzle)
      ensures IsGeneratedSolution(board[..])
    {
      board := NewBoard(EmptyGrid());
      var filled := Solve();
      SolveOutcomeIsGeneratedSolution(filled, board[..]);
    }

    /** `generate_puzzle(difficulty)`, the k-th `random.randint` pair being `picks[k]`.
        The board is solved from empty and snapshotted as the solution; the puzzle is
        a copy of it thinned by the removal loop. The solution is the empty board
        only if the solver failed; otherwise it completes the empty board, and is its
        least completion in row-major order, so every call yields the same solution. */
    method GeneratePuzzle(difficulty: string, picks: seq<Cell>) returns (p: array<int>, s: array<int>)
      requires Valid()
      requires MaxAttempts <= |picks| && PicksOnBoard(picks)
      modifies this
      ensures Valid() && fresh(board) && fresh(p) && fresh(s)
      ensures solution == s && puzzle == p
      ensures s[..] == board[..]
      ensures IsGeneratedSolution(s[..])
      ensures p[..] == RunRemoval(RemovalState(s[..], RemovalTarget(difficulty), 0), picks).grid
      ensures forall r, c :: InRange(r, c) ==> At(p[..], r, c) == 0 || At(p[..], r, c) == At(s[..], r, c)
      ensures Full(s[..]) ==> EmptyCount(p[..]) <= RemovalTarget(difficulty)
    {
      SolveEmptyBoard();
      s := NewBoard(board[..]);
      solution := s;

      var squaresToRemove := RemovalTarget(difficulty);
      p := NewBoard(s[..]);
      puzzle := p;
      RemoveCells(p, squaresToRemove, picks);
      if Full(s[..]) {
        RemovalFromFullBoard(s[..], RemovalTarget(difficulty), picks);
      }
    }
  }
}
