/**
  The click handler of the board view: a click on grid cell `(x, y)` toggles
  that cell when it lies inside the grid and hands the board to the owner.
  The source's guard admits one index past each edge; that guard is modelled
  separately, as written, next to the strict one the rest of the model uses.
 */
module BoardView {
  import opened Life

  /** Toggles cell `(x, y)` of `board` in place when `0 <= x < cols` and `0 <= y < rows`;
      any other coordinate leaves every cell as it was. */
  method HandleClick(board: array2<bool>, rows: nat, cols: nat, x: int, y: int)
    requires board.Length0 == rows && board.Length1 == cols
    modifies board
    ensures Grid(board) == Toggled(old(Grid(board)), rows, cols, x, y)
  {
    ghost var before := Grid(board);
    if 0 <= x < cols && 0 <= y < rows {
      board[y, x] := !board[y, x];
    }
    GridIs(board, Toggled(before, rows, cols, x, y));
  }

  // ---------------------------------------------------------------------------
  // The guard as written: 0 <= x <= cols && 0 <= y <= rows
  // ---------------------------------------------------------------------------

  /** What a click does to a board under the guard as written, with the
      language's semantics for the indices past the end: reading a missing row
      throws a TypeError, and writing one past the end of a row appends to it
      (the negation of the missing entry is `true`). */
  datatype ClickOutcome = Passed(board: Board) | TypeError

  function HandleClickAsWritten(b: Board, rows: nat, cols: nat, x: int, y: int): ClickOutcome
    requires IsGrid(b, rows, cols)
  {
    if x >= 0 && x <= cols && y >= 0 && y <= rows then
      if y == rows then TypeError
      else if x == cols then Passed(b[y := b[y] + [true]])
      else Passed(b[y := b[y][x := !b[y][x]]])
    else Passed(b)
  }

  /** The guard as written behaves like the strict toggle exactly away from the
      column just right of the grid and the row just below it; on those it
      either throws or leaves a row with `cols + 1` cells. */
  lemma AsWrittenDiffersOnlyPastTheEdge(b: Board, rows: nat, cols: nat, x: int, y: int)
    requires IsGrid(b, rows, cols)
    ensures HandleClickAsWritten(b, rows, cols, x, y) == Passed(Toggled(b, rows, cols, x, y)) <==>
            !((x == cols && 0 <= y <= rows) || (y == rows && 0 <= x <= cols))
    ensures y == rows && 0 <= x <= cols ==> HandleClickAsWritten(b, rows, cols, x, y) == TypeError
    ensures x == cols && 0 <= y < rows ==>
              HandleClickAsWritten(b, rows, cols, x, y) == Passed(b[y := b[y] + [true]]) &&
              |HandleClickAsWritten(b, rows, cols, x, y).board[y]| == cols + 1 &&
              !IsGrid(HandleClickAsWritten(b, rows, cols, x, y).board, rows, cols)
  {
  }

  /** A concrete click the guard lets through: one column right of a 1 by 1 grid. */
  lemma AsWrittenGrowsARow()
    ensures HandleClickAsWritten([[false]], 1, 1, 1, 0) == Passed([[false, true]])
    ensures Toggled([[false]], 1, 1, 1, 0) == [[false]]
  {
    var row: seq<bool> := [false] + [true];
    assert row == [false, true];
    var b: Board := [[false]];
    assert b[0 := row] == [row];
  }
}
