/** Facts about `Completes`, the relation between a board handed to the backtracking
    search and a board it may leave behind on success. They are the steps of the
    proof that the search is sound (every board it reports solved completes its
    input) and complete (it reports failure only when no completion exists). */
module Completions {
  import opened Grids

  /** A completion has no empty cell. */
  lemma CompletionIsFull(b: Grid, g: Grid)
    requires Completes(b, g)
    ensures Full(g)
  {
    forall r, c | 0 <= r < 9 && 0 <= c < 9
      ensures At(g, r, c) != 0
    {
      assert InRange(r, c);
    }
  }

  /** A board with no empty cell is its own completion: nothing is left to fill. */
  lemma FullCompletesItself(b: Grid)
    requires Full(b)
    ensures Completes(b, b)
  {
  }

  /** If `d` is already in the row, column or box of the empty cell (row, col), no
      completion puts `d` there: the cell holding `d` keeps it, and is a peer. */
  lemma {:induction false} OccupiedDigitExcluded(b: Grid, row: int, col: int, d: int)
    requires InRange(row, col) && At(b, row, col) == 0 && d != 0
    requires Occurs(b, row, col, d)
    ensures forall g: Grid :: Completes(b, g) ==> At(g, row, col) != d
  {
    OccursInUnit(b, row, col, d);
    var r, c :| InRange(r, c) && SameUnit(row, col, r, c) && At(b, r, c) == d;
    assert Peers(row, col, r, c);
    forall g: Grid | Completes(b, g)
      ensures At(g, row, col) != d
    {
      assert At(g, r, c) == d;
      assert ConflictFree(g, row, col);
    }
  }

  /** A completion of `b` also completes `b` with one empty cell already set to
      the value the completion has there. */
  lemma {:induction false} PlacingKeepsCompletions(b: Grid, row: int, col: int)
    requires InRange(row, col) && At(b, row, col) == 0
    ensures forall g: Grid :: Completes(b, g) ==> Completes(Set(b, row, col, At(g, row, col)), g)
  {
    forall g: Grid | Completes(b, g)
      ensures Completes(Set(b, row, col, At(g, row, col)), g)
    {
      var b' := Set(b, row, col, At(g, row, col));
      forall r, c | InRange(r, c)
        ensures if At(b', r, c) != 0 then At(g, r, c) == At(b', r, c)
                else 1 <= At(g, r, c) <= 9 && ConflictFree(g, r, c)
      {
      }
    }
  }

  /** No completion of `b` holds a digit below `i` at cell (row, col): the digits
      the search has already tried there lead nowhere. */
  ghost predicate TriedBelow(b: Grid, row: int, col: int, i: int)
    requires InRange(row, col)
  {
    forall g: Grid :: Completes(b, g) ==> At(g, row, col) >= i
  }

  /** Before any digit is tried, nothing is excluded: completions hold 1..9. */
  lemma NothingTriedYet(b: Grid, row: int, col: int)
    requires InRange(row, col) && At(b, row, col) == 0
    ensures TriedBelow(b, row, col, 1)
  {
  }

  /** A digit that `is_valid` rejects is excluded, so the search may move on. */
  lemma {:induction false} RejectedDigitTried(b: Grid, row: int, col: int, i: int)
    requires InRange(row, col) && At(b, row, col) == 0 && 1 <= i
    requires TriedBelow(b, row, col, i) && Occurs(b, row, col, i)
    ensures TriedBelow(b, row, col, i + 1)
  {
    OccupiedDigitExcluded(b, row, col, i);
  }

  /** A digit whose placement the recursive search could not complete is excluded. */
  lemma {:induction false} FailedDigitTried(b: Grid, row: int, col: int, i: int)
    requires InRange(row, col) && At(b, row, col) == 0
    requires TriedBelow(b, row, col, i)
    requires forall g: Grid :: !Completes(Set(b, row, col, i), g)
    ensures TriedBelow(b, row, col, i + 1)
  {
    PlacingKeepsCompletions(b, row, col);
  }

  /** A completion puts a digit 1..9 in every empty cell. */
  lemma EmptyCellGetsDigit(b: Grid, g: Grid, row: int, col: int)
    requires InRange(row, col) && At(b, row, col) == 0
    ensures Completes(b, g) ==> 1 <= At(g, row, col) <= 9
  {
  }

  /** With all nine digits tried at an empty cell, the board has no completion. */
  lemma {:induction false} AllDigitsTried(b: Grid, row: int, col: int)
    requires InRange(row, col) && At(b, row, col) == 0
    requires TriedBelow(b, row, col, 10)
    ensures forall g: Grid :: !Completes(b, g)
  {
    forall g: Grid
      ensures !Completes(b, g)
    {
      EmptyCellGetsDigit(b, g, row, col);
    }
  }

  /** Soundness of one placement: if `d` is not in the row, column or box of the
      empty cell (row, col), any completion of the board with `d` placed there is a
      completion of the board before the placement. */
  lemma {:induction false} PlacementExtends(b: Grid, row: int, col: int, d: int, g: Grid)
    requires InRange(row, col) && At(b, row, col) == 0 && 1 <= d <= 9
    requires !Occurs(b, row, col, d)
    requires Completes(Set(b, row, col, d), g)
    ensures Completes(b, g)
  {
    var b' := Set(b, row, col, d);
    OccursInUnit(b, row, col, d);
    assert At(g, row, col) == d by {
      assert InRange(row, col);
    }
    forall r, c | InRange(r, c)
      ensures if At(b, r, c) != 0 then At(g, r, c) == At(b, r, c)
              else 1 <= At(g, r, c) <= 9 && ConflictFree(g, r, c)
    {
      if r == row && c == col {
        forall r', c' | InRange(r', c') && Peers(row, col, r', c')
          ensures At(g, r', c') != d
        {
          assert SameUnit(row, col, r', c');
          if At(b', r', c') != 0 {
            assert At(g, r', c') == At(b, r', c');
          } else {
            assert Peers(r', c', row, col);
            assert ConflictFree(g, r', c');
          }
        }
      } else {
        assert At(b', r, c) == At(b, r, c);
      }
    }
  }

  /** A full board has no completion but itself. */
  lemma FullHasOneCompletion(b: Grid, g: Grid)
    requires Full(b) && Completes(b, g)
    ensures g == b
  {
    forall k | 0 <= k < 81
      ensures g[k] == b[k]
    {
      assert g[k] == At(g, k / 9, k % 9) && b[k] == At(b, k / 9, k % 9);
    }
  }

  /** The search tries digits in ascending order at the first empty cell (row, col).
      If digit `i` is the first to succeed and the search below it returned the least
      completion of the board with `i` placed, that board is the least completion of
      `b`: completions with a larger digit at (row, col) come later, and those with
      `i` there are completions of the board with `i` placed. */
  lemma {:induction false} FirstSuccessIsLeast(b: Grid, row: int, col: int, i: int, h: Grid)
    requires InRange(row, col) && At(b, row, col) == 0 && 1 <= i <= 9
    requires forall r, c :: InRange(r, c) && (r < row || (r == row && c < col)) ==> At(b, r, c) != 0
    requires TriedBelow(b, row, col, i)
    requires Completes(Set(b, row, col, i), h)
    requires forall g: Grid :: Completes(Set(b, row, col, i), g) ==> !LexLess(g, h)
    ensures forall g: Grid :: Completes(b, g) ==> !LexLess(g, h)
  {
    PlacingKeepsCompletions(b, row, col);
    var e := 9 * row + col;
    assert h[e] == i;
    forall g: Grid | Completes(b, g) && At(g, row, col) != i
      ensures !LexLess(g, h)
    {
      forall k | 0 <= k < e
        ensures g[k] == h[k]
      {
        assert g[k] == At(g, k / 9, k % 9) && h[k] == At(h, k / 9, k % 9);
        assert At(Set(b, row, col, i), k / 9, k % 9) == At(b, k / 9, k % 9);
      }
      assert g[e] > h[e] by {
        assert g[e] == At(g, row, col);
      }
      forall k | 0 <= k < 81 && g[k] < h[k]
        ensures e < k && g[e] != h[e]
      {
      }
    }
  }

  /** A completion that no completion comes before is unique: the search's answer
      does not depend on anything but the board. */
  lemma LeastCompletionIsUnique(b: Grid, h1: Grid, h2: Grid)
    requires Completes(b, h1) && forall g: Grid :: Completes(b, g) ==> !LexLess(g, h1)
    requires Completes(b, h2) && forall g: Grid :: Completes(b, g) ==> !LexLess(g, h2)
    ensures h1 == h2
  {
    LexTotal(h1, h2);
  }

  /** On a board whose filled cells already conflict with nothing, a completion is
      a solved board. */
  lemma {:induction false} CompletionOfConsistentIsSolved(b: Grid, g: Grid)
    requires forall r, c :: InRange(r, c) && At(b, r, c) != 0 ==> 1 <= At(b, r, c) <= 9 && ConflictFree(b, r, c)
    requires Completes(b, g)
    ensures IsSolved(g)
  {
    forall r, c | InRange(r, c)
      ensures 1 <= At(g, r, c) <= 9 && ConflictFree(g, r, c)
    {
      if At(b, r, c) != 0 {
        forall r', c' | InRange(r', c') && Peers(r, c, r', c')
          ensures At(g, r', c') != At(g, r, c)
        {
          if At(b, r', c') != 0 {
            assert ConflictFree(b, r, c);
          } else {
            assert Peers(r', c', r, c);
            assert ConflictFree(g, r', c');
          }
        }
      }
    }
  }

  /** Every completion of the empty board is a solved board. */
  lemma CompletionOfEmptyIsSolved(g: Grid)
    requires Completes(EmptyGrid(), g)
    ensures IsSolved(g)
  {
    CompletionOfConsistentIsSolved(EmptyGrid(), g);
  }
}
