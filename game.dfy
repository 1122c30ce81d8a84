/**
  The game component: the loops that build an empty board, count a cell's
  neighbours, build the next generation and list the live cells, and the
  component's state (the board and its live-cell list) with the operations
  that replace it. The grid size, fixed for a session, is passed as `rows`
  and `cols`.
 */
module Game {
  import opened Life
  import BoardView

  /** A fresh `rows` by `cols` buffer with every cell dead. */
  method MakeEmptyBoard(rows: nat, cols: nat) returns (board: array2<bool>)
    ensures fresh(board) && board.Length0 == rows && board.Length1 == cols
    ensures Grid(board) == EmptyBoard(rows, cols)
  {
    board := new bool[rows, cols];
    for y := 0 to rows
      invariant forall yy, xx :: 0 <= yy < y && 0 <= xx < cols ==> !board[yy, xx]
    {
      for x := 0 to cols
        invariant forall yy, xx :: 0 <= yy < y && 0 <= xx < cols ==> !board[yy, xx]
        invariant forall xx :: 0 <= xx < x ==> !board[y, xx]
      {
        board[y, x] := false;
      }
    }
    GridIs(board, EmptyBoard(rows, cols));
  }

  /** Counts the live neighbours of `(x, y)` over the eight offsets, skipping
      positions outside the grid, which are neither counted nor read. */
  method CalculateNeighbors(board: array2<bool>, rows: nat, cols: nat, x: int, y: int) returns (neighbors: nat)
    requires board.Length0 == rows && board.Length1 == cols
    ensures neighbors == NeighborCount(Grid(board), rows, cols, x, y)
    ensures neighbors == |LiveNeighbours(Grid(board), rows, cols, x, y)|
    ensures neighbors <= 8
  {
    ghost var g := Grid(board);
    neighbors := 0;
    var dirs := Dirs;
    for i := 0 to |dirs|
      invariant neighbors == HitsAmong(g, rows, cols, x, y, i)
    {
      var dir := dirs[i];
      var y1 := y + dir.0;
      var x1 := x + dir.1;
      if x1 >= 0 && x1 < cols && y1 >= 0 && y1 < rows && board[y1, x1] {
        neighbors := neighbors + 1;
      }
    }
    NeighborCountIsLiveNeighbours(g, rows, cols, x, y);
  }

  /** Lists the live cells, scanning row by row and each row left to right. */
  method MakeCells(board: array2<bool>, rows: nat, cols: nat) returns (cells: seq<Coord>)
    requires board.Length0 == rows && board.Length1 == cols
    ensures cells == LiveCells(Grid(board))
    ensures forall c :: c in cells <==> InBounds(c.x, c.y, rows, cols) && board[c.y, c.x]
    ensures StrictlyRowMajor(cells)
  {
    ghost var g := Grid(board);
    cells := [];
    for y := 0 to rows
      invariant cells == CellsOf(g, y)
    {
      for x := 0 to cols
        invariant cells == CellsOf(g, y) + RowCells(g[y], y, x)
      {
        if board[y, x] {
          cells := cells + [Coord(x, y)];
        }
      }
    }
    LiveCellsMembership(g, rows, cols);
    LiveCellsOrdered(g, rows, cols);
  }

  /** Builds the next generation in a fresh buffer, reading only `board`. */
  method NextBoard(board: array2<bool>, rows: nat, cols: nat) returns (newBoard: array2<bool>)
    requires board.Length0 == rows && board.Length1 == cols
    ensures fresh(newBoard) && newBoard.Length0 == rows && newBoard.Length1 == cols
    ensures Grid(newBoard) == Step(Grid(board), rows, cols)
  {
    ghost var g := Grid(board);
    newBoard := MakeEmptyBoard(rows, cols);
    for y := 0 to rows
      invariant forall yy, xx :: 0 <= yy < rows && 0 <= xx < cols ==>
                  newBoard[yy, xx] == (yy < y && NextAt(g, rows, cols, xx, yy))
    {
      for x := 0 to cols
        invariant forall yy, xx :: 0 <= yy < rows && 0 <= xx < cols ==>
                    newBoard[yy, xx] == ((yy < y || (yy == y && xx < x)) && NextAt(g, rows, cols, xx, yy))
      {
        var neighbors := CalculateNeighbors(board, rows, cols, x, y);
        if board[y, x] {
          newBoard[y, x] := neighbors == 2 || neighbors == 3;
        } else {
          if !board[y, x] && neighbors == 3 {
            newBoard[y, x] := true;
          }
        }
      }
    }
    GridIs(newBoard, Step(g, rows, cols));
  }

  /** The state of the game component: the board and the list of its live cells. */
  class GameState {
    const rows: nat
    const cols: nat
    var board: array2<bool>
    var cells: seq<Coord>

    /** The board has the session's size and `cells` is its live-cell list. */
    ghost predicate Valid()
      reads this, board
    {
      board.Length0 == rows && board.Length1 == cols && cells == LiveCells(Grid(board))
    }

    /** The initial state: an all-dead board and no live cells. */
    constructor (rows: nat, cols: nat)
      ensures this.rows == rows && this.cols == cols
      ensures Valid() && fresh(board)
      ensures Grid(board) == EmptyBoard(rows, cols) && cells == []
    {
      var empty := MakeEmptyBoard(rows, cols);
      this.rows := rows;
      this.cols := cols;
      board := empty;
      cells := [];
      new;
      LiveCellsOfEmpty(rows, cols);
    }

    /** Installs `newBoard` and recomputes the live-cell list from it. */
    method Update(newBoard: array2<bool>)
      requires newBoard.Length0 == rows && newBoard.Length1 == cols
      modifies this
      ensures board == newBoard && Valid()
    {
      board := newBoard;
      cells := MakeCells(newBoard, rows, cols);
    }

    /** One generation: the next board replaces the current one, which is left as it was. */
    method RunIteration()
      requires Valid()
      modifies this
      ensures Valid() && fresh(board)
      ensures Grid(board) == Step(old(Grid(board)), rows, cols)
      ensures Grid(old(board)) == old(Grid(board))
    {
      var newBoard := NextBoard(board, rows, cols);
      Update(newBoard);
    }

    /** Clear: an all-dead board replaces the current one, and the live-cell list becomes empty. */
    method HandleClear()
      modifies this
      ensures Valid() && fresh(board)
      ensures Grid(board) == EmptyBoard(rows, cols) && cells == []
    {
      var empty := MakeEmptyBoard(rows, cols);
      Update(empty);
      LiveCellsOfEmpty(rows, cols);
    }

    /** A click on grid cell `(x, y)`: the board view toggles the cell (if it is
        inside the grid) and hands the board back, toggled or not, to Update. */
    method Click(x: int, y: int)
      requires Valid()
      modifies this, board
      ensures Valid() && board == old(board)
      ensures Grid(board) == Toggled(old(Grid(board)), rows, cols, x, y)
    {
      BoardView.HandleClick(board, rows, cols, x, y);
      Update(board);
    }
  }
}
