/** The cell-removal phase of puzzle generation: the difficulty table, and the
    loop that zeroes randomly picked cells of a copy of the solution, as a function
    of the sequence of picks the random generator produces. */
module Removal {
  import opened Grids

  /** The loop gives up after this many picks. */
  const MaxAttempts := 1000

  /** `difficulty_map.get(difficulty, 52)`: how many cells to clear. */
  function RemovalTarget(difficulty: string): (n: int)
    ensures 40 <= n <= 62
    ensures difficulty == "Easy" ==> n == 40
    ensures difficulty == "Medium" ==> n == 52
    ensures difficulty == "Hard" ==> n == 58
    ensures difficulty == "Expert" ==> n == 62
    ensures difficulty !in ["Easy", "Medium", "Hard", "Expert"] ==> n == 52
  {
    if difficulty == "Easy" then 40
    else if difficulty == "Medium" then 52
    else if difficulty == "Hard" then 58
    else if difficulty == "Expert" then 62
    else 52
  }

  /** The harder the level, the more cells are cleared; no target exceeds the board. */
  lemma HarderLevelsClearMore()
    ensures RemovalTarget("Easy") < RemovalTarget("Medium") < RemovalTarget("Hard") < RemovalTarget("Expert") < 81
  {
  }

  /** The variables of the removal loop: the puzzle being thinned, the number of
      cells still to clear (`squares_to_remove`) and the picks used (`attempts`). */
  datatype RemovalState = RemovalState(grid: Grid, toRemove: int, attempts: int)

  /** Picks as `random.randint(0, 8)` yields them: every coordinate on the board. */
  predicate PicksOnBoard(picks: seq<Cell>) {
    forall k :: 0 <= k < |picks| ==> InRange(picks[k].row, picks[k].col)
  }

  /** One pass of the loop body: pick a cell; if it is not empty, clear it and
      count it as removed. The attempt is used either way. */
  function RemovalStep(st: RemovalState, picks: seq<Cell>): (r: RemovalState)
    requires 0 <= st.attempts < |picks| && PicksOnBoard(picks)
    ensures r.attempts == st.attempts + 1
  {
    var pick := picks[st.attempts];
    if At(st.grid, pick.row, pick.col) != 0 then
      RemovalState(Set(st.grid, pick.row, pick.col, 0), st.toRemove - 1, st.attempts + 1)
    else
      RemovalState(st.grid, st.toRemove, st.attempts + 1)
  }

  /** A step that clears a cell lowers the number still to clear by one; a step
      that picks an empty cell changes neither. */
  lemma StepCountsRemoval(st: RemovalState, picks: seq<Cell>)
    requires 0 <= st.attempts < |picks| && PicksOnBoard(picks)
    ensures var pick, r := picks[st.attempts], RemovalStep(st, picks);
            At(st.grid, pick.row, pick.col) != 0 ==>
              r.grid == Set(st.grid, pick.row, pick.col, 0) && r.toRemove == st.toRemove - 1
    ensures var pick, r := picks[st.attempts], RemovalStep(st, picks);
            At(st.grid, pick.row, pick.col) == 0 ==> r.grid == st.grid && r.toRemove == st.toRemove
    ensures var r := RemovalStep(st, picks);
            EmptyCount(r.grid) == EmptyCount(st.grid) + (st.toRemove - r.toRemove) &&
            st.toRemove - 1 <= r.toRemove <= st.toRemove
  {
    var pick := picks[st.attempts];
    if At(st.grid, pick.row, pick.col) != 0 {
      ClearingRaisesEmptyCount(st.grid, pick.row, pick.col);
    }
  }

  /** The removal loop run to its end from state `st`, the k-th pick being `picks[k]`.
      It stops once the target is met or all attempts are used; it only ever clears
      cells; and every cleared cell lowers the number still to clear by exactly one. */
  function RunRemoval(st: RemovalState, picks: seq<Cell>): (r: RemovalState)
    requires 0 <= st.attempts <= MaxAttempts <= |picks| && PicksOnBoard(picks)
    ensures st.attempts <= r.attempts <= MaxAttempts
    ensures r.toRemove <= 0 || r.attempts == MaxAttempts
    ensures st.toRemove >= 0 ==> 0 <= r.toRemove <= st.toRemove
    ensures st.toRemove >= 0 ==> EmptyCount(r.grid) == EmptyCount(st.grid) + (st.toRemove - r.toRemove)
    ensures forall row, col :: InRange(row, col) ==>
              At(r.grid, row, col) == 0 || At(r.grid, row, col) == At(st.grid, row, col)
    decreases MaxAttempts - st.attempts
  {
    if st.toRemove <= 0 || st.attempts >= MaxAttempts then st
    else
      StepCountsRemoval(st, picks);
      RunRemoval(RemovalStep(st, picks), picks)
  }

  /** Removal from a full board clears at most the target number of cells, and
      exactly that many unless all attempts were used up. */
  lemma RemovalFromFullBoard(g: Grid, target: int, picks: seq<Cell>)
    requires Full(g) && target >= 0
    requires MaxAttempts <= |picks| && PicksOnBoard(picks)
    ensures var r := RunRemoval(RemovalState(g, target, 0), picks);
            EmptyCount(r.grid) <= target &&
            (r.attempts < MaxAttempts ==> EmptyCount(r.grid) == target)
  {
    forall k | 0 <= k < 81
      ensures g[k] != 0
    {
      assert g[k] == At(g, k / 9, k % 9);
    }
    assert 0 !in multiset(g);
  }
}
