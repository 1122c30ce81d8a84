# Game of Life grid engine, in Dafny

This project models the grid engine of a browser Game of Life and proves what
it computes. The engine lives in the game component (`src/game/Game.tsx`).
The model also covers the cell toggle that the board view's click handler
performs (`src/game/Board.tsx`).

A board is `board[y][x]`: `rows` rows of `cols` booleans, with `true` for alive.
The engine has five parts:

- building an all-dead board;
- counting a cell's live neighbours over the eight Moore offsets, treating
  positions outside the grid as dead (the edges do not wrap);
- building the next generation with the B3/S23 rule (birth on 3, survival on 2 or 3);
- listing the live cells row by row;
- clearing the board.

The component keeps the board and its live-cell list as state. Every change
replaces the board and recomputes the list.

The project has three modules:

- `Life` (`life.dfy`) states everything on values. A `Board` is a
  `seq<seq<bool>>`. The module defines the offsets `Dirs` in the source's order,
  the count `NeighborCount` and the set `LiveNeighbours`, the rule `Rule`, the
  generation `Step`, the list `LiveCells` and the toggle `Toggled`. It also
  proves the lemmas about them. `Grid(a)` gives the board held by a
  two-dimensional buffer `array2<bool>`.
- `BoardView` (`board.dfy`) holds the click handler's toggle. It writes in place
  on the buffer. The module also models the source's bounds guard as written
  (see Findings).
- `Game` (`game.dfy`) has the component's loops as methods over `array2<bool>`.
  Each method is proved against the functions of `Life`. The class `GameState`
  holds the component's state: the board buffer and the live-cell list. Its
  invariant `Valid()` says that the list is always `LiveCells` of the board.

The grid size is fixed for a session. Here it is a pair of naturals, `rows` and
`cols`, passed to each operation. In the source, the component's functions read
it by closure. A size of zero is allowed and gives an empty board.

## Model

| member | source | states |
|---|---|---|
| `Game.MakeEmptyBoard` | src/game/Game.tsx:32-41 | returns a fresh `rows` by `cols` buffer in which every cell is `false` |
| `Life.EmptyBoard` | src/game/Game.tsx:32-41 | the empty board has exactly `rows` rows of `cols` cells, all dead |
| `Life.DirsAreMooreNeighbourhood` | src/game/Game.tsx:79 | the eight offsets are distinct and non-zero. An offset is among them iff both components lie in [-1,1] and it is not (0,0) |
| `Life.NeighborCount` | src/game/Game.tsx:77-90 | the neighbour count is at most 8 (and, being a `nat`, at least 0) |
| `Life.NeighborCountIsLiveNeighbours` | src/game/Game.tsx:80-88 | the loop's count over the offsets equals the size of the set of live cells inside the grid that are horizontally, vertically or diagonally adjacent to `(x, y)`. Positions outside the grid never count |
| `Game.CalculateNeighbors` | src/game/Game.tsx:77-90 | the loop returns `NeighborCount` of the board. This equals the number of in-bounds live Moore neighbours and is at most 8. The loop reads the buffer only at in-bounds positions |
| `Life.StepCell` | src/game/Game.tsx:59-66 | after a step, a live cell is alive iff it had 2 or 3 live neighbours, and a dead cell is alive iff it had exactly 3 |
| `Game.NextBoard` | src/game/Game.tsx:55-68 | builds a fresh buffer of the same size holding `Step` of the old board. It writes nothing else: the old buffer is not in its frame |
| `Life.StepOfEmpty` | src/game/Game.tsx:55-68 | the step of an all-dead board is the all-dead board of the same size |
| `Life.BlinkerOscillates` | src/game/Game.tsx:55-68 | on a 3 by 3 grid, a column of three live cells becomes a row of three, and back again after a second step |
| `Life.BlinkerCells` | src/game/Game.tsx:43-53 | the live-cell lists of the two blinker phases are [(1,0),(1,1),(1,2)] and [(0,1),(1,1),(2,1)] |
| `Game.MakeCells` | src/game/Game.tsx:43-53 | the scan returns `LiveCells` of the board. `(x, y)` is in it iff it lies in the grid and is alive. The list is strictly ordered by `y`, then `x` |
| `Life.LiveCellsMembership` | src/game/Game.tsx:45-49 | a coordinate is in the live-cell list iff it is inside `[0,cols) x [0,rows)` and alive there |
| `Life.LiveCellsOrdered` | src/game/Game.tsx:45-49 | the live-cell list is strictly increasing in row-major order, so it has no duplicates |
| `Life.LiveCellsOfEmpty` | src/game/Game.tsx:92-95 | the live-cell list of an all-dead board is empty |
| `Game.GameState.constructor` | src/game/Game.tsx:21-22 | the initial state is an all-dead board of the session's size with an empty live-cell list, as the invariant requires |
| `Game.GameState.Update` | src/game/Game.tsx:92-95 | installs the given board and recomputes the live-cell list from it, which restores the invariant |
| `Game.GameState.RunIteration` | src/game/Game.tsx:55-69 | the new board is `Step` of the old one, in a fresh buffer. The old buffer is left unchanged. The live-cell list is that of the new board |
| `Game.GameState.HandleClear` | src/game/Game.tsx:107-110 | the board becomes the all-dead board of the session's size and the live-cell list becomes empty |
| `Life.Toggled` | src/game/Board.tsx:40-41 | the dimensions are kept. For an in-bounds `(x, y)` that cell is negated and every other cell is unchanged. For an out-of-bounds coordinate (negative included) the board is unchanged |
| `Life.ToggleInvolution` | src/game/Board.tsx:40-41 | toggling the same coordinate twice gives back the original board |
| `BoardView.HandleClick` | src/game/Board.tsx:31-45 | the buffer afterwards holds `Toggled` of the buffer before, under the strict guard `0 <= x < cols && 0 <= y < rows` |
| `Game.GameState.Click` | src/game/Board.tsx:40-44 | a click toggles the cell through the board view. The same buffer is then always handed to `Update`, toggled or not, so the live-cell list follows the board |
| `BoardView.AsWrittenDiffersOnlyPastTheEdge` | src/game/Board.tsx:40 | under the guard as written, a click agrees with the strict toggle iff it is neither at `x == cols` with `0 <= y <= rows` nor at `y == rows` with `0 <= x <= cols`. A click at `y == rows` with `0 <= x <= cols` throws. A click at `x == cols` with `0 <= y < rows` appends a live cell to row `y`, which then has `cols + 1` cells, and leaves every other row as it was |
| `BoardView.AsWrittenGrowsARow` | src/game/Board.tsx:40-41 | a concrete case: on a 1 by 1 grid, a click at `(1, 0)` passes the guard and turns `[[false]]` into `[[false, true]]`. The strict toggle leaves it as `[[false]]` |

## Left out

- The run/stop scheduling is not modelled: `useEffect` on the running flag and
  the iteration counter, `setTimeout`/`clearTimeout`, the interval input and
  `timeoutHandler` (src/game/Game.tsx:17-30, 71-74, 97-105). Their behaviour
  comes from React's render and effect semantics and from browser timers, not
  from sequential code. `RunIteration` models one generation only.
- `handleRandom` (src/game/Game.tsx:112-120) is not modelled. Its only content
  beyond `makeEmptyBoard` and `update` is the floating-point random source
  `Math.random() >= 0.5`.
- The pixel-to-cell mapping of the click handler is not modelled: element
  offsets, page scroll and the floored float division (src/game/Board.tsx:21-38).
  The toggle takes integer grid coordinates directly.
- The grid size is not derived from the environment (src/game/Game.tsx:6-8, 14-15).
  The float division `HEIGHT / CELL_SIZE` is not modelled. The sizes are given
  as naturals.
- JSX and rendering are not modelled (`Cell.tsx`, the control buttons, the board `div`).
- The shallow copy `[...board]` (src/game/Board.tsx:32) is not modelled. In the
  source it makes a new outer array, but that array shares its rows with the old
  board, so the write on line 41 also changes the old board's row. The model
  writes the cell in place in the one buffer, which gives the same cell
  contents. It does not model the distinct outer array.
- `Game.GameState.RunIteration`: the source builds the next board in a new array
  and never mutates the old one. The model states this as "the old buffer's
  contents are unchanged". Aliasing of rows across generations cannot arise
  with `array2` and is not modelled.
- In the source, a step and a clear build a new board, but a toggle writes into
  rows shared with the old board (see the shallow copy above). The model
  follows the code.

## Findings

| source | as written | input that shows it | evidently intended | confidence | as-written member | corrected member |
|---|---|---|---|---|---|---|
| src/game/Board.tsx:40 | the guard `x >= 0 && x <= cols && y >= 0 && y <= rows` admits column `cols` and row `rows`, one past each edge | on a 1 by 1 grid, a click mapped to `(1, 0)` appends a live cell to row 0 (`[[false]]` becomes `[[false, true]]`). A click at `(0, 1)` reads the missing row 1 and throws a TypeError | strict bounds `0 <= x < cols && 0 <= y < rows`, with every other click ignored | medium, not executed: a click maps to column `cols` only when the offset reaches the board's full width, for example on its right border | `BoardView.AsWrittenDiffersOnlyPastTheEdge` (about `BoardView.HandleClickAsWritten`) | `BoardView.HandleClick` (proved equal to `Life.Toggled`, which keeps the grid's size; `Life.ToggleInvolution`) |
