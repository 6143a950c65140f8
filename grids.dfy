/** The 9x9 Sudoku board as a value, and the rules of the game stated over it.

    The program keeps a board as a list of nine rows of nine integers, 0 meaning
    an empty cell. Here the same board is one sequence of 81 integers read row by
    row, so cell (r, c) is entry 9 * r + c.
 */
module Grids {

  datatype Option<T> = None | Some(value: T)

  /** A cell coordinate, as the (row, col) pairs of the program. */
  datatype Cell = Cell(row: int, col: int)

  type Grid = g: seq<int> | |g| == 81 witness seq(81, k => 0)

  predicate InRange(r: int, c: int) {
    0 <= r < 9 && 0 <= c < 9
  }

  /** board[r][c] */
  function At(g: Grid, r: int, c: int): int
    requires InRange(r, c)
  {
    g[9 * r + c]
  }

  /** board[r][c] = v, on a value: only cell (r, c) changes. */
  function Set(g: Grid, r: int, c: int, v: int): (h: Grid)
    requires InRange(r, c)
    ensures At(h, r, c) == v
    ensures forall r', c' :: InRange(r', c') && (r' != r || c' != c) ==> At(h, r', c') == At(g, r', c')
  {
    g[9 * r + c := v]
  }

  /** The all-zero board that `Sudoku()` starts from. */
  function EmptyGrid(): (g: Grid)
    ensures forall r, c :: InRange(r, c) ==> At(g, r, c) == 0
  {
    seq(81, k => 0)
  }

  /** No cell holds 0. */
  predicate Full(g: Grid) {
    forall r, c :: 0 <= r < 9 && 0 <= c < 9 ==> At(g, r, c) != 0
  }

  /** A full board is not the empty board. */
  lemma FullIsNotEmpty(g: Grid)
    requires Full(g)
    ensures g != EmptyGrid()
  {
    assert At(g, 0, 0) != At(EmptyGrid(), 0, 0);
  }

  /** The number of cells holding 0. */
  function EmptyCount(g: Grid): nat {
    multiset(g)[0]
  }

  /** First row (or column) of the 3x3 box holding row (or column) i: `3 * (i // 3)`.
      It is the multiple of 3 in (i - 3, i], so a box never leaves the board. */
  function BoxStart(i: int): (s: int)
    requires 0 <= i < 9
    ensures 0 <= s <= 6 && s % 3 == 0
    ensures s <= i < s + 3
  {
    3 * (i / 3)
  }

  /** `board[i + start_row][j + start_col]`: cell (i, j) of the 3x3 box holding (row, col). */
  function BoxAt(g: Grid, row: int, col: int, i: int, j: int): int
    requires InRange(row, col) && 0 <= i < 3 && 0 <= j < 3
  {
    At(g, BoxStart(row) + i, BoxStart(col) + j)
  }

  /** Two cells share a row, a column or a 3x3 box (a cell shares all three with itself). */
  predicate SameUnit(r1: int, c1: int, r2: int, c2: int)
    requires InRange(r1, c1) && InRange(r2, c2)
  {
    r1 == r2 || c1 == c2 || (BoxStart(r1) == BoxStart(r2) && BoxStart(c1) == BoxStart(c2))
  }

  /** Two distinct cells that share a row, a column or a box. */
  predicate Peers(r1: int, c1: int, r2: int, c2: int)
    requires InRange(r1, c1) && InRange(r2, c2)
  {
    (r1 != r2 || c1 != c2) && SameUnit(r1, c1, r2, c2)
  }

  /** What `is_valid(row, col, num)` looks for, in the order the program scans:
      `num` in row `row` or in column `col`, or in the box whose top-left cell is
      (BoxStart(row), BoxStart(col)). Cell (row, col) itself is part of all three. */
  predicate Occurs(g: Grid, row: int, col: int, num: int): (found: bool)
    requires InRange(row, col)
    ensures At(g, row, col) == num ==> found
  {
    (exists x :: 0 <= x < 9 && (At(g, row, x) == num || At(g, x, col) == num))
    || (exists i, j :: 0 <= i < 3 && 0 <= j < 3 && BoxAt(g, row, col, i, j) == num)
  }

  /** The value of cell (r, c) appears in none of its peers. */
  ghost predicate ConflictFree(g: Grid, r: int, c: int)
    requires InRange(r, c)
  {
    forall r', c' :: InRange(r', c') && Peers(r, c, r', c') ==> At(g, r', c') != At(g, r, c)
  }

  /** `g` is what a successful backtracking search may leave on board `b`: every
      non-zero cell of `b` is kept, and every empty cell of `b` holds a digit 1..9
      that appears in none of its peers. */
  ghost predicate Completes(b: Grid, g: Grid) {
    forall r, c :: InRange(r, c) ==>
      if At(b, r, c) != 0 then At(g, r, c) == At(b, r, c)
      else 1 <= At(g, r, c) <= 9 && ConflictFree(g, r, c)
  }

  /** Every cell holds a digit 1..9 that none of its peers holds: a solved board. */
  ghost predicate IsSolved(g: Grid) {
    forall r, c :: InRange(r, c) ==> 1 <= At(g, r, c) <= 9 && ConflictFree(g, r, c)
  }

  /** `g` comes before `h` when they agree up to some cell, read row by row, and `g`
      has the smaller value there: the order in which the search meets full boards. */
  ghost predicate LexLess(g: Grid, h: Grid) {
    exists k :: 0 <= k < 81 && g[k] < h[k] && forall j :: 0 <= j < k ==> g[j] == h[j]
  }

  /** No board comes before itself. */
  lemma LexLessIrreflexive(g: Grid)
    ensures !LexLess(g, g)
  {
  }

  /** Two boards that agree below cell k are equal or one comes before the other. */
  lemma {:induction false} LexTotalFrom(g: Grid, h: Grid, k: int)
    requires 0 <= k <= 81
    requires forall j :: 0 <= j < k ==> g[j] == h[j]
    ensures g == h || LexLess(g, h) || LexLess(h, g)
    decreases 81 - k
  {
    if k == 81 {
      assert g == h;
    } else if g[k] == h[k] {
      LexTotalFrom(g, h, k + 1);
    }
  }

  /** The order is total: of two different boards, one comes first. */
  lemma LexTotal(g: Grid, h: Grid)
    ensures g == h || LexLess(g, h) || LexLess(h, g)
  {
    LexTotalFrom(g, h, 0);
  }

  lemma BoxOfBoxCell(i: int, k: int)
    requires 0 <= i < 9 && 0 <= k < 3
    ensures BoxStart(BoxStart(i) + k) == BoxStart(i)
  {
  }

  /** `is_valid` fails exactly when `num` is somewhere in the row, the column or the
      box of (row, col): the three scans of the program together cover the cells
      sharing a unit with (row, col), and nothing else. */
  lemma {:induction false} OccursInUnit(g: Grid, row: int, col: int, num: int)
    requires InRange(row, col)
    ensures Occurs(g, row, col, num) <==>
            exists r, c :: InRange(r, c) && SameUnit(row, col, r, c) && At(g, r, c) == num
  {
    if Occurs(g, row, col, num) {
      if exists x :: 0 <= x < 9 && (At(g, row, x) == num || At(g, x, col) == num) {
        var x :| 0 <= x < 9 && (At(g, row, x) == num || At(g, x, col) == num);
        if At(g, row, x) == num {
          assert SameUnit(row, col, row, x);
        } else {
          assert SameUnit(row, col, x, col);
        }
      } else {
        var i, j :| 0 <= i < 3 && 0 <= j < 3 && BoxAt(g, row, col, i, j) == num;
        BoxOfBoxCell(row, i);
        BoxOfBoxCell(col, j);
        assert SameUnit(row, col, BoxStart(row) + i, BoxStart(col) + j);
      }
    }
    if exists r, c :: InRange(r, c) && SameUnit(row, col, r, c) && At(g, r, c) == num {
      var r, c :| InRange(r, c) && SameUnit(row, col, r, c) && At(g, r, c) == num;
      if r == row {
        assert At(g, row, c) == num;
      } else if c == col {
        assert At(g, r, col) == num;
      } else {
        var i, j := r - BoxStart(row), c - BoxStart(col);
        assert BoxStart(r) == BoxStart(row) && BoxStart(c) == BoxStart(col);
        assert BoxAt(g, row, col, i, j) == num;
      }
    }
  }

  /** Filling an empty cell leaves one empty cell fewer: the measure on which the
      recursion of `solve` terminates. */
  lemma FillingLowersEmptyCount(g: Grid, r: int, c: int, v: int)
    requires InRange(r, c) && At(g, r, c) == 0 && v != 0
    ensures EmptyCount(Set(g, r, c, v)) == EmptyCount(g) - 1
  {
    assert multiset(g[9 * r + c := v]) == multiset(g) - multiset{0} + multiset{v};
  }

  /** Clearing a non-empty cell leaves one empty cell more. */
  lemma ClearingRaisesEmptyCount(g: Grid, r: int, c: int)
    requires InRange(r, c) && At(g, r, c) != 0
    ensures EmptyCount(Set(g, r, c, 0)) == EmptyCount(g) + 1
  {
    assert multiset(g[9 * r + c := 0]) == multiset(g) - multiset{At(g, r, c)} + multiset{0};
  }
}
