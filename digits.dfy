/** A solved board, such as the solution generation produces, has every digit 1..9
    exactly once in each row, each column and each 3x3 box. Nine cells holding
    pairwise different digits from 1..9 must hold all nine of them. */
module Digits {
  import opened Grids
  import opened Completions

  ghost predicate Distinct(s: seq<int>) {
    forall i, j :: 0 <= i < j < |s| ==> s[i] != s[j]
  }

  /** A sequence without repeats has as many distinct values as entries. */
  lemma {:induction false} DistinctValuesCount(s: seq<int>)
    requires Distinct(s)
    ensures |set x | x in s| == |s|
  {
    if s != [] {
      assert Distinct(s[1..]) by {
        forall i, j | 0 <= i < j < |s[1..]|
          ensures s[1..][i] != s[1..][j]
        {
          assert s[1..][i] == s[i + 1] && s[1..][j] == s[j + 1];
        }
      }
      DistinctValuesCount(s[1..]);
      assert (set x | x in s) == {s[0]} + (set x | x in s[1..]);
      assert s[0] !in (set x | x in s[1..]) by {
        forall k | 0 <= k < |s[1..]|
          ensures s[1..][k] != s[0]
        {
          assert s[1..][k] == s[k + 1];
        }
      }
    }
  }

  /** Pigeonhole: nine different digits from 1..9 are all of them. */
  lemma NineDistinctDigitsAreAll(s: seq<int>)
    requires |s| == 9 && Distinct(s)
    requires forall k :: 0 <= k < 9 ==> 1 <= s[k] <= 9
    ensures forall d :: 1 <= d <= 9 ==> d in s
  {
    var present := set x | x in s;
    var digits := {1, 2, 3, 4, 5, 6, 7, 8, 9};
    DistinctValuesCount(s);
    assert present <= digits;
    assert |digits| == 9;
    assert |digits - present| == 0;
    assert digits <= present;
  }

  /** The cells of row r, column c or box (br, bc), read in order. */
  function RowOf(g: Grid, r: int): (s: seq<int>)
    requires 0 <= r < 9
    ensures |s| == 9 && forall c :: 0 <= c < 9 ==> s[c] == At(g, r, c)
  {
    seq(9, c requires 0 <= c < 9 => At(g, r, c))
  }

  function ColumnOf(g: Grid, c: int): (s: seq<int>)
    requires 0 <= c < 9
    ensures |s| == 9 && forall r :: 0 <= r < 9 ==> s[r] == At(g, r, c)
  {
    seq(9, r requires 0 <= r < 9 => At(g, r, c))
  }

  function BoxOf(g: Grid, br: int, bc: int): (s: seq<int>)
    requires 0 <= br < 3 && 0 <= bc < 3
    ensures |s| == 9 && forall k :: 0 <= k < 9 ==> s[k] == BoxAt(g, 3 * br, 3 * bc, k / 3, k % 3)
  {
    seq(9, k requires 0 <= k < 9 => BoxAt(g, 3 * br, 3 * bc, k / 3, k % 3))
  }

  lemma RowHoldsEveryDigit(g: Grid, r: int)
    requires IsSolved(g) && 0 <= r < 9
    ensures forall d :: 1 <= d <= 9 ==> d in RowOf(g, r)
  {
    var s := RowOf(g, r);
    forall i, j | 0 <= i < j < 9
      ensures s[i] != s[j]
    {
      assert Peers(r, i, r, j) && ConflictFree(g, r, i);
    }
    NineDistinctDigitsAreAll(s);
  }

  lemma ColumnHoldsEveryDigit(g: Grid, c: int)
    requires IsSolved(g) && 0 <= c < 9
    ensures forall d :: 1 <= d <= 9 ==> d in ColumnOf(g, c)
  {
    var s := ColumnOf(g, c);
    forall i, j | 0 <= i < j < 9
      ensures s[i] != s[j]
    {
      assert Peers(i, c, j, c) && ConflictFree(g, i, c);
    }
    NineDistinctDigitsAreAll(s);
  }

  /** Row 3 * br + a, for a in 0..2, lies in the box band starting at row 3 * br. */
  lemma BoxBand(br: int, a: int)
    requires 0 <= br < 3 && 0 <= a < 3
    ensures BoxStart(3 * br + a) == 3 * br
  {
  }

  /** Entry k of a box is cell (k / 3, k % 3) inside it: different entries are
      different cells. */
  lemma EntriesAreDifferentCells(i: int, j: int)
    requires 0 <= i < j < 9
    ensures 0 <= i / 3 < 3 && 0 <= i % 3 < 3 && 0 <= j / 3 < 3 && 0 <= j % 3 < 3
    ensures i / 3 != j / 3 || i % 3 != j % 3
  {
    assert i == 3 * (i / 3) + i % 3 && j == 3 * (j / 3) + j % 3;
  }

  /** Two different cells of box (br, bc) hold different digits on a solved board. */
  lemma BoxCellsDiffer(g: Grid, br: int, bc: int, a1: int, b1: int, a2: int, b2: int)
    requires IsSolved(g) && 0 <= br < 3 && 0 <= bc < 3
    requires 0 <= a1 < 3 && 0 <= b1 < 3 && 0 <= a2 < 3 && 0 <= b2 < 3
    requires a1 != a2 || b1 != b2
    ensures BoxAt(g, 3 * br, 3 * bc, a1, b1) != BoxAt(g, 3 * br, 3 * bc, a2, b2)
  {
    var r1, c1 := 3 * br + a1, 3 * bc + b1;
    var r2, c2 := 3 * br + a2, 3 * bc + b2;
    BoxBand(br, 0);
    BoxBand(bc, 0);
    BoxBand(br, a1);
    BoxBand(br, a2);
    BoxBand(bc, b1);
    BoxBand(bc, b2);
    assert InRange(r1, c1) && InRange(r2, c2);
    assert Peers(r1, c1, r2, c2);
    assert ConflictFree(g, r1, c1);
  }

  lemma BoxHoldsEveryDigit(g: Grid, br: int, bc: int)
    requires IsSolved(g) && 0 <= br < 3 && 0 <= bc < 3
    ensures forall d :: 1 <= d <= 9 ==> d in BoxOf(g, br, bc)
  {
    var s := BoxOf(g, br, bc);
    forall i, j | 0 <= i < j < 9
      ensures s[i] != s[j]
    {
      EntriesAreDifferentCells(i, j);
      BoxCellsDiffer(g, br, bc, i / 3, i % 3, j / 3, j % 3);
    }
    forall k | 0 <= k < 9
      ensures 1 <= s[k] <= 9
    {
      assert BoxStart(3 * br) == 3 * br && BoxStart(3 * bc) == 3 * bc;
      assert InRange(3 * br + k / 3, 3 * bc + k % 3);
    }
    NineDistinctDigitsAreAll(s);
  }

  /** Every row, column and box of a solved board holds every digit 1..9 (and,
      its cells being pairwise different, each of them once). */
  lemma SolvedUnitsHoldEveryDigit(g: Grid)
    requires IsSolved(g)
    ensures forall r, d :: 0 <= r < 9 && 1 <= d <= 9 ==> d in RowOf(g, r)
    ensures forall c, d :: 0 <= c < 9 && 1 <= d <= 9 ==> d in ColumnOf(g, c)
    ensures forall br, bc, d :: 0 <= br < 3 && 0 <= bc < 3 && 1 <= d <= 9 ==> d in BoxOf(g, br, bc)
  {
    forall r | 0 <= r < 9 ensures forall d :: 1 <= d <= 9 ==> d in RowOf(g, r) {
      RowHoldsEveryDigit(g, r);
    }
    forall c | 0 <= c < 9 ensures forall d :: 1 <= d <= 9 ==> d in ColumnOf(g, c) {
      ColumnHoldsEveryDigit(g, c);
    }
    forall br, bc | 0 <= br < 3 && 0 <= bc < 3 ensures forall d :: 1 <= d <= 9 ==> d in BoxOf(g, br, bc) {
      BoxHoldsEveryDigit(g, br, bc);
    }
  }

  /** So the solution made from the empty board has every digit once per unit. */
  lemma GeneratedSolutionHoldsEveryDigit(g: Grid)
    requires Completes(EmptyGrid(), g)
    ensures forall r, d :: 0 <= r < 9 && 1 <= d <= 9 ==> d in RowOf(g, r)
    ensures forall c, d :: 0 <= c < 9 && 1 <= d <= 9 ==> d in ColumnOf(g, c)
    ensures forall br, bc, d :: 0 <= br < 3 && 0 <= bc < 3 && 1 <= d <= 9 ==> d in BoxOf(g, br, bc)
  {
    CompletionOfEmptyIsSolved(g);
    SolvedUnitsHoldEveryDigit(g);
  }
}
