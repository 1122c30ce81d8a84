/**
  Conway's Game of Life on a bounded, non-wrapping grid, stated on values:
  boards, the Moore neighbourhood, the neighbour count, the B3/S23 rule,
  one generation, the row-major list of live cells and the single-cell toggle.
  The imperative code in modules BoardView and Game is proved against these.
 */
module Life {

  /** A board indexed `b[y][x]`: a sequence of rows, each a sequence of cells. */
  type Board = seq<seq<bool>>

  /** A cell position: column `x`, row `y`. */
  datatype Coord = Coord(x: int, y: int)

  /** `b` has exactly `rows` rows of exactly `cols` cells each. */
  predicate IsGrid(b: Board, rows: nat, cols: nat) {
    |b| == rows && forall y :: 0 <= y < |b| ==> |b[y]| == cols
  }

  predicate InBounds(x: int, y: int, rows: nat, cols: nat) {
    0 <= x < cols && 0 <= y < rows
  }

  /** Cell `(x, y)` lies inside the grid and is alive; every position outside the grid is dead. */
  predicate LiveAt(b: Board, rows: nat, cols: nat, x: int, y: int)
    requires IsGrid(b, rows, cols)
  {
    InBounds(x, y, rows, cols) && b[y][x]
  }

  /** The board of `rows` rows and `cols` columns with every cell dead. */
  function EmptyBoard(rows: nat, cols: nat): (b: Board)
    ensures IsGrid(b, rows, cols)
    ensures forall y, x :: 0 <= y < rows && 0 <= x < cols ==> !b[y][x]
  {
    seq(rows, _ => seq(cols, _ => false))
  }

  // ---------------------------------------------------------------------------
  // The neighbourhood and the neighbour count
  // ---------------------------------------------------------------------------

  /** The offsets `(dy, dx)` the neighbour count visits, in the order it visits them. */
  const Dirs: seq<(int, int)> := [(-1, -1), (-1, 0), (-1, 1), (0, 1), (1, 1), (1, 0), (1, -1), (0, -1)]

  /** Two different positions of `Dirs` hold different offsets. */
  lemma DirsDiffer(i: nat, j: nat)
    requires i < j < |Dirs|
    ensures Dirs[i] != Dirs[j]
  {
  }

  /** Every offset in `Dirs` is a Moore offset, and every Moore offset is in `Dirs`. */
  lemma DirsCoverMooreNeighbourhood()
    ensures forall d: (int, int) :: d in Dirs <==> -1 <= d.0 <= 1 && -1 <= d.1 <= 1 && d != (0, 0)
  {
  }

  /** The offsets are eight distinct non-zero offsets, and they are exactly the Moore neighbourhood. */
  lemma DirsAreMooreNeighbourhood()
    ensures |Dirs| == 8
    ensures forall i, j :: 0 <= i < j < |Dirs| ==> Dirs[i] != Dirs[j]
    ensures forall i :: 0 <= i < |Dirs| ==> Dirs[i] != (0, 0)
    ensures forall d: (int, int) :: d in Dirs <==> -1 <= d.0 <= 1 && -1 <= d.1 <= 1 && d != (0, 0)
  {
    forall i, j | 0 <= i < j < |Dirs| ensures Dirs[i] != Dirs[j] {
      DirsDiffer(i, j);
    }
    DirsCoverMooreNeighbourhood();
  }

  /** The cell that offset number `i` leads to from `(x, y)`. */
  function Target(x: int, y: int, i: nat): Coord
    requires i < |Dirs|
  {
    Coord(x + Dirs[i].1, y + Dirs[i].0)
  }

  /** How many of the first `k` offsets lead from `(x, y)` to a live cell inside the grid. */
  function HitsAmong(b: Board, rows: nat, cols: nat, x: int, y: int, k: nat): (n: nat)
    requires IsGrid(b, rows, cols) && k <= |Dirs|
    ensures n <= k
  {
    if k == 0 then 0
    else
      var t := Target(x, y, k - 1);
      HitsAmong(b, rows, cols, x, y, k - 1) + if LiveAt(b, rows, cols, t.x, t.y) then 1 else 0
  }

  /** The number of live neighbours of `(x, y)`; neighbours outside the grid count as dead. */
  function NeighborCount(b: Board, rows: nat, cols: nat, x: int, y: int): (n: nat)
    requires IsGrid(b, rows, cols)
    ensures n <= 8
  {
    HitsAmong(b, rows, cols, x, y, |Dirs|)
  }

  /** The live cells of the grid adjacent to `(x, y)` horizontally, vertically or diagonally. */
  function LiveNeighbours(b: Board, rows: nat, cols: nat, x: int, y: int): set<Coord>
    requires IsGrid(b, rows, cols)
  {
    set nx, ny | x - 1 <= nx <= x + 1 && y - 1 <= ny <= y + 1 && (nx != x || ny != y)
                 && LiveAt(b, rows, cols, nx, ny) :: Coord(nx, ny)
  }

  /** The live cells reached by the first `k` offsets. */
  ghost function HitTargets(b: Board, rows: nat, cols: nat, x: int, y: int, k: nat): set<Coord>
    requires IsGrid(b, rows, cols) && k <= |Dirs|
  {
    if k == 0 then {}
    else
      var t := Target(x, y, k - 1);
      HitTargets(b, rows, cols, x, y, k - 1) + if LiveAt(b, rows, cols, t.x, t.y) then {t} else {}
  }

  lemma {:induction false} HitTargetsMembers(b: Board, rows: nat, cols: nat, x: int, y: int, k: nat)
    requires IsGrid(b, rows, cols) && k <= |Dirs|
    ensures forall c :: c in HitTargets(b, rows, cols, x, y, k) <==>
              LiveAt(b, rows, cols, c.x, c.y) && (c.y - y, c.x - x) in Dirs[..k]
  {
    if k > 0 {
      HitTargetsMembers(b, rows, cols, x, y, k - 1);
      assert Dirs[..k] == Dirs[..k - 1] + [Dirs[k - 1]];
    }
  }

  /** The cell offset number `i` leads to is not reached by any of the first `j <= i` offsets. */
  lemma {:induction false} TargetNotReachedEarlier(b: Board, rows: nat, cols: nat, x: int, y: int, j: nat, i: nat)
    requires IsGrid(b, rows, cols) && j <= i < |Dirs|
    ensures Target(x, y, i) !in HitTargets(b, rows, cols, x, y, j)
  {
    if j > 0 {
      TargetNotReachedEarlier(b, rows, cols, x, y, j - 1, i);
      DirsDiffer(j - 1, i);
    }
  }

  lemma {:induction false} HitTargetsSize(b: Board, rows: nat, cols: nat, x: int, y: int, k: nat)
    requires IsGrid(b, rows, cols) && k <= |Dirs|
    ensures |HitTargets(b, rows, cols, x, y, k)| == HitsAmong(b, rows, cols, x, y, k)
  {
    if k > 0 {
      HitTargetsSize(b, rows, cols, x, y, k - 1);
      TargetNotReachedEarlier(b, rows, cols, x, y, k - 1, k - 1);
    }
  }

  lemma LiveNeighboursAreHits(b: Board, rows: nat, cols: nat, x: int, y: int)
    requires IsGrid(b, rows, cols)
    ensures LiveNeighbours(b, rows, cols, x, y) <= HitTargets(b, rows, cols, x, y, |Dirs|)
  {
    HitTargetsMembers(b, rows, cols, x, y, |Dirs|);
    DirsCoverMooreNeighbourhood();
    assert Dirs[..|Dirs|] == Dirs;
  }

  lemma HitsAreLiveNeighbours(b: Board, rows: nat, cols: nat, x: int, y: int)
    requires IsGrid(b, rows, cols)
    ensures HitTargets(b, rows, cols, x, y, |Dirs|) <= LiveNeighbours(b, rows, cols, x, y)
  {
    HitTargetsMembers(b, rows, cols, x, y, |Dirs|);
    DirsCoverMooreNeighbourhood();
    assert Dirs[..|Dirs|] == Dirs;
    forall c | c in HitTargets(b, rows, cols, x, y, |Dirs|)
      ensures c in LiveNeighbours(b, rows, cols, x, y)
    {
      var nx, ny := c.x, c.y;
      assert (ny - y, nx - x) in Dirs;
      assert x - 1 <= nx <= x + 1 && y - 1 <= ny <= y + 1 && (nx != x || ny != y);
      assert c == Coord(nx, ny);
    }
  }

  /** The neighbour count is the number of live cells in the grid's Moore neighbourhood of `(x, y)`. */
  lemma NeighborCountIsLiveNeighbours(b: Board, rows: nat, cols: nat, x: int, y: int)
    requires IsGrid(b, rows, cols)
    ensures NeighborCount(b, rows, cols, x, y) == |LiveNeighbours(b, rows, cols, x, y)|
  {
    HitTargetsSize(b, rows, cols, x, y, |Dirs|);
    LiveNeighboursAreHits(b, rows, cols, x, y);
    HitsAreLiveNeighbours(b, rows, cols, x, y);
    assert HitTargets(b, rows, cols, x, y, |Dirs|) == LiveNeighbours(b, rows, cols, x, y);
  }

  // ---------------------------------------------------------------------------
  // One generation
  // ---------------------------------------------------------------------------

  /** B3/S23: a cell is alive next generation when it has three live neighbours,
      or when it is alive and has two. */
  predicate Rule(alive: bool, n: nat) {
    n == 3 || (alive && n == 2)
  }

  /** Whether cell `(x, y)` is alive in the next generation of `b`. */
  predicate NextAt(b: Board, rows: nat, cols: nat, x: int, y: int)
    requires IsGrid(b, rows, cols) && InBounds(x, y, rows, cols)
  {
    Rule(b[y][x], NeighborCount(b, rows, cols, x, y))
  }

  /** The next generation: every cell of the grid decided by the rule from the old board alone. */
  function Step(b: Board, rows: nat, cols: nat): (r: Board)
    requires IsGrid(b, rows, cols)
    ensures IsGrid(r, rows, cols)
  {
    seq(rows, y requires 0 <= y < rows => seq(cols, x requires 0 <= x < cols => NextAt(b, rows, cols, x, y)))
  }

  /** One cell of a generation, decided by the rule. */
  lemma StepAt(b: Board, rows: nat, cols: nat, x: int, y: int)
    requires IsGrid(b, rows, cols) && InBounds(x, y, rows, cols)
    ensures Step(b, rows, cols)[y][x] == Rule(b[y][x], NeighborCount(b, rows, cols, x, y))
  {
  }

  /** Survival, death and birth, read off the rule: a live cell lives on iff it
      has 2 or 3 live neighbours; a dead cell comes alive iff it has exactly 3. */
  lemma StepCell(b: Board, rows: nat, cols: nat, x: int, y: int)
    requires IsGrid(b, rows, cols) && InBounds(x, y, rows, cols)
    ensures b[y][x] ==> (Step(b, rows, cols)[y][x] <==> NeighborCount(b, rows, cols, x, y) in {2, 3})
    ensures !b[y][x] ==> (Step(b, rows, cols)[y][x] <==> NeighborCount(b, rows, cols, x, y) == 3)
  {
    StepAt(b, rows, cols, x, y);
  }

  lemma {:induction false} NoHitsOnEmpty(rows: nat, cols: nat, x: int, y: int, k: nat)
    requires k <= |Dirs|
    ensures HitsAmong(EmptyBoard(rows, cols), rows, cols, x, y, k) == 0
  {
    if k > 0 {
      NoHitsOnEmpty(rows, cols, x, y, k - 1);
    }
  }

  /** No spontaneous generation: the step of an all-dead board is all-dead. */
  lemma StepOfEmpty(rows: nat, cols: nat)
    ensures Step(EmptyBoard(rows, cols), rows, cols) == EmptyBoard(rows, cols)
  {
    var e := EmptyBoard(rows, cols);
    forall y, x | 0 <= y < rows && 0 <= x < cols
      ensures Step(e, rows, cols)[y][x] == e[y][x]
    {
      NoHitsOnEmpty(rows, cols, x, y, |Dirs|);
    }
    forall y | 0 <= y < rows ensures Step(e, rows, cols)[y] == e[y] {
    }
  }

  /** A column of three live cells in the middle of a 3 by 3 grid. */
  const BlinkerColumn: Board := [[false, true, false], [false, true, false], [false, true, false]]

  /** A row of three live cells in the middle of a 3 by 3 grid. */
  const BlinkerRow: Board := [[false, false, false], [true, true, true], [false, false, false]]

  lemma BlinkerColumnCounts()
    ensures IsGrid(BlinkerColumn, 3, 3)
    ensures NeighborCount(BlinkerColumn, 3, 3, 0, 0) == 2 && NeighborCount(BlinkerColumn, 3, 3, 1, 0) == 1
    ensures NeighborCount(BlinkerColumn, 3, 3, 2, 0) == 2 && NeighborCount(BlinkerColumn, 3, 3, 0, 1) == 3
    ensures NeighborCount(BlinkerColumn, 3, 3, 1, 1) == 2 && NeighborCount(BlinkerColumn, 3, 3, 2, 1) == 3
    ensures NeighborCount(BlinkerColumn, 3, 3, 0, 2) == 2 && NeighborCount(BlinkerColumn, 3, 3, 1, 2) == 1
    ensures NeighborCount(BlinkerColumn, 3, 3, 2, 2) == 2
  {
  }

  lemma BlinkerRowCounts()
    ensures IsGrid(BlinkerRow, 3, 3)
    ensures NeighborCount(BlinkerRow, 3, 3, 0, 0) == 2 && NeighborCount(BlinkerRow, 3, 3, 1, 0) == 3
    ensures NeighborCount(BlinkerRow, 3, 3, 2, 0) == 2 && NeighborCount(BlinkerRow, 3, 3, 0, 1) == 1
    ensures NeighborCount(BlinkerRow, 3, 3, 1, 1) == 2 && NeighborCount(BlinkerRow, 3, 3, 2, 1) == 1
    ensures NeighborCount(BlinkerRow, 3, 3, 0, 2) == 2 && NeighborCount(BlinkerRow, 3, 3, 1, 2) == 3
    ensures NeighborCount(BlinkerRow, 3, 3, 2, 2) == 2
  {
  }

  lemma IsBlinkerRow(s: Board)
    requires IsGrid(s, 3, 3)
    requires s[0][0] == false && s[0][1] == false && s[0][2] == false && s[1][0] == true && s[1][1] == true && s[1][2] == true && s[2][0] == false && s[2][1] == false && s[2][2] == false
    ensures s == BlinkerRow
  {
    assert s[0] == BlinkerRow[0] && s[1] == BlinkerRow[1] && s[2] == BlinkerRow[2];
  }

  lemma IsBlinkerColumn(s: Board)
    requires IsGrid(s, 3, 3)
    requires s[0][0] == false && s[0][1] == true && s[0][2] == false && s[1][0] == false && s[1][1] == true && s[1][2] == false && s[2][0] == false && s[2][1] == true && s[2][2] == false
    ensures s == BlinkerColumn
  {
    assert s[0] == BlinkerColumn[0] && s[1] == BlinkerColumn[1] && s[2] == BlinkerColumn[2];
  }

  lemma BlinkerColumnStep()
    ensures IsGrid(BlinkerColumn, 3, 3)
    ensures Step(BlinkerColumn, 3, 3) == BlinkerRow
  {
    BlinkerColumnCounts();
    StepAt(BlinkerColumn, 3, 3, 0, 0); StepAt(BlinkerColumn, 3, 3, 1, 0); StepAt(BlinkerColumn, 3, 3, 2, 0);
    StepAt(BlinkerColumn, 3, 3, 0, 1); StepAt(BlinkerColumn, 3, 3, 1, 1); StepAt(BlinkerColumn, 3, 3, 2, 1);
    StepAt(BlinkerColumn, 3, 3, 0, 2); StepAt(BlinkerColumn, 3, 3, 1, 2); StepAt(BlinkerColumn, 3, 3, 2, 2);
    IsBlinkerRow(Step(BlinkerColumn, 3, 3));
  }

  lemma BlinkerRowStep()
    ensures IsGrid(BlinkerRow, 3, 3)
    ensures Step(BlinkerRow, 3, 3) == BlinkerColumn
  {
    BlinkerRowCounts();
    StepAt(BlinkerRow, 3, 3, 0, 0); StepAt(BlinkerRow, 3, 3, 1, 0); StepAt(BlinkerRow, 3, 3, 2, 0);
    StepAt(BlinkerRow, 3, 3, 0, 1); StepAt(BlinkerRow, 3, 3, 1, 1); StepAt(BlinkerRow, 3, 3, 2, 1);
    StepAt(BlinkerRow, 3, 3, 0, 2); StepAt(BlinkerRow, 3, 3, 1, 2); StepAt(BlinkerRow, 3, 3, 2, 2);
    IsBlinkerColumn(Step(BlinkerRow, 3, 3));
  }

  /** The live-cell lists of the two blinker phases. */
  lemma BlinkerCells()
    ensures LiveCells(BlinkerColumn) == [Coord(1, 0), Coord(1, 1), Coord(1, 2)]
    ensures LiveCells(BlinkerRow) == [Coord(0, 1), Coord(1, 1), Coord(2, 1)]
  {
    var middle, full, none := [false, true, false], [true, true, true], [false, false, false];
    forall y | 0 <= y < 3 ensures RowCells(middle, y, 3) == [Coord(1, y)] {
      assert RowCells(middle, y, 1) == [];
      assert RowCells(middle, y, 2) == [Coord(1, y)];
    }
    forall y | 0 <= y < 3 ensures RowCells(none, y, 3) == [] {
      assert RowCells(none, y, 1) == [];
      assert RowCells(none, y, 2) == [];
    }
    assert RowCells(full, 1, 1) == [Coord(0, 1)];
    assert RowCells(full, 1, 2) == [Coord(0, 1), Coord(1, 1)];
    assert RowCells(full, 1, 3) == [Coord(0, 1), Coord(1, 1), Coord(2, 1)];
    assert BlinkerColumn == [middle, middle, middle] && BlinkerRow == [none, full, none];
    assert CellsOf(BlinkerColumn, 1) == [Coord(1, 0)];
    assert CellsOf(BlinkerColumn, 2) == [Coord(1, 0), Coord(1, 1)];
    assert CellsOf(BlinkerRow, 1) == [];
    assert CellsOf(BlinkerRow, 2) == [Coord(0, 1), Coord(1, 1), Coord(2, 1)];
  }

  /** The blinker oscillates with period two, even with the edges of the grid right next to it. */
  lemma BlinkerOscillates()
    ensures IsGrid(BlinkerColumn, 3, 3) && IsGrid(BlinkerRow, 3, 3)
    ensures Step(BlinkerColumn, 3, 3) == BlinkerRow
    ensures Step(Step(BlinkerColumn, 3, 3), 3, 3) == BlinkerColumn
  {
    BlinkerColumnStep();
    BlinkerRowStep();
  }

  // ---------------------------------------------------------------------------
  // The live-cell list
  // ---------------------------------------------------------------------------

  /** The live cells among the first `n` cells of `row`, which is row `y`, left to right. */
  function RowCells(row: seq<bool>, y: int, n: nat): seq<Coord>
    requires n <= |row|
  {
    if n == 0 then []
    else RowCells(row, y, n - 1) + if row[n - 1] then [Coord(n - 1, y)] else []
  }

  /** The live cells of the first `m` rows, row by row. */
  function CellsOf(b: Board, m: nat): seq<Coord>
    requires m <= |b|
  {
    if m == 0 then [] else CellsOf(b, m - 1) + RowCells(b[m - 1], m - 1, |b[m - 1]|)
  }

  /** The coordinates of the live cells of the board, scanned row by row. */
  function LiveCells(b: Board): seq<Coord> {
    CellsOf(b, |b|)
  }

  /** Row-major order: by increasing `y`, then by increasing `x`. */
  predicate Before(c: Coord, d: Coord) {
    c.y < d.y || (c.y == d.y && c.x < d.x)
  }

  predicate StrictlyRowMajor(cs: seq<Coord>) {
    forall i, j :: 0 <= i < j < |cs| ==> Before(cs[i], cs[j])
  }

  lemma {:induction false} RowCellsFacts(row: seq<bool>, y: int, n: nat)
    requires n <= |row|
    ensures forall c :: c in RowCells(row, y, n) <==> c.y == y && 0 <= c.x < n && row[c.x]
    ensures StrictlyRowMajor(RowCells(row, y, n))
  {
    if n > 0 {
      RowCellsFacts(row, y, n - 1);
    }
  }

  lemma {:induction false} CellsOfFacts(b: Board, rows: nat, cols: nat, m: nat)
    requires IsGrid(b, rows, cols) && m <= rows
    ensures forall c :: c in CellsOf(b, m) <==> 0 <= c.y < m && LiveAt(b, rows, cols, c.x, c.y)
    ensures StrictlyRowMajor(CellsOf(b, m))
  {
    if m > 0 {
      CellsOfFacts(b, rows, cols, m - 1);
      RowCellsFacts(b[m - 1], m - 1, cols);
      var p, q := CellsOf(b, m - 1), RowCells(b[m - 1], m - 1, cols);
      forall i, j | 0 <= i < j < |p + q| ensures Before((p + q)[i], (p + q)[j]) {
        if j >= |p| && i < |p| {
          assert p[i] in p && q[j - |p|] in q;
        }
      }
    }
  }

  /** `(x, y)` is in the live-cell list iff it lies inside the grid and is alive. */
  lemma LiveCellsMembership(b: Board, rows: nat, cols: nat)
    requires IsGrid(b, rows, cols)
    ensures forall c :: c in LiveCells(b) <==> InBounds(c.x, c.y, rows, cols) && b[c.y][c.x]
  {
    CellsOfFacts(b, rows, cols, rows);
  }

  /** The live-cell list is ordered by increasing `y`, then increasing `x`, and so has no duplicates. */
  lemma LiveCellsOrdered(b: Board, rows: nat, cols: nat)
    requires IsGrid(b, rows, cols)
    ensures StrictlyRowMajor(LiveCells(b))
    ensures forall i, j :: 0 <= i < |LiveCells(b)| && 0 <= j < |LiveCells(b)| && i != j ==>
              LiveCells(b)[i] != LiveCells(b)[j]
  {
    CellsOfFacts(b, rows, cols, rows);
    var cs := LiveCells(b);
    forall i, j | 0 <= i < |cs| && 0 <= j < |cs| && i != j ensures cs[i] != cs[j] {
      if i < j { assert Before(cs[i], cs[j]); } else { assert Before(cs[j], cs[i]); }
    }
  }

  lemma {:induction false} RowCellsOfDeadRow(row: seq<bool>, y: int, n: nat)
    requires n <= |row| && forall i :: 0 <= i < |row| ==> !row[i]
    ensures RowCells(row, y, n) == []
  {
    if n > 0 {
      RowCellsOfDeadRow(row, y, n - 1);
    }
  }

  lemma {:induction false} CellsOfEmpty(rows: nat, cols: nat, m: nat)
    requires m <= rows
    ensures CellsOf(EmptyBoard(rows, cols), m) == []
  {
    if m > 0 {
      CellsOfEmpty(rows, cols, m - 1);
      RowCellsOfDeadRow(EmptyBoard(rows, cols)[m - 1], m - 1, cols);
    }
  }

  /** An all-dead board has no live cells to list. */
  lemma LiveCellsOfEmpty(rows: nat, cols: nat)
    ensures LiveCells(EmptyBoard(rows, cols)) == []
  {
    CellsOfEmpty(rows, cols, rows);
  }

  // ---------------------------------------------------------------------------
  // Toggling one cell
  // ---------------------------------------------------------------------------

  /** The board with cell `(x, y)` negated when it lies inside the grid, and unchanged otherwise. */
  function Toggled(b: Board, rows: nat, cols: nat, x: int, y: int): (r: Board)
    requires IsGrid(b, rows, cols)
    ensures IsGrid(r, rows, cols)
    ensures InBounds(x, y, rows, cols) ==> r[y][x] == !b[y][x]
    ensures forall yy, xx :: InBounds(xx, yy, rows, cols) && (xx != x || yy != y) ==> r[yy][xx] == b[yy][xx]
    ensures !InBounds(x, y, rows, cols) ==> r == b
  {
    if InBounds(x, y, rows, cols) then b[y := b[y][x := !b[y][x]]] else b
  }

  /** Toggling the same coordinate twice gives back the original board. */
  lemma ToggleInvolution(b: Board, rows: nat, cols: nat, x: int, y: int)
    requires IsGrid(b, rows, cols)
    ensures Toggled(Toggled(b, rows, cols, x, y), rows, cols, x, y) == b
  {
    var t := Toggled(Toggled(b, rows, cols, x, y), rows, cols, x, y);
    forall yy | 0 <= yy < rows ensures t[yy] == b[yy] {
    }
  }

  // ---------------------------------------------------------------------------
  // Board buffers
  // ---------------------------------------------------------------------------

  /** The board held by a two-dimensional buffer: `a[y, x]` is cell `(x, y)`. */
  ghost function Grid(a: array2<bool>): (b: Board)
    reads a
    ensures IsGrid(b, a.Length0, a.Length1)
    ensures forall y, x :: 0 <= y < a.Length0 && 0 <= x < a.Length1 ==> b[y][x] == a[y, x]
  {
    seq(a.Length0, y requires 0 <= y < a.Length0 reads a =>
      seq(a.Length1, x requires 0 <= x < a.Length1 reads a => a[y, x]))
  }

  /** A buffer holds board `b` when they agree on every cell. */
  lemma GridIs(a: array2<bool>, b: Board)
    requires IsGrid(b, a.Length0, a.Length1)
    requires forall y, x :: 0 <= y < a.Length0 && 0 <= x < a.Length1 ==> a[y, x] == b[y][x]
    ensures Grid(a) == b
  {
    forall y | 0 <= y < a.Length0 ensures Grid(a)[y] == b[y] {
    }
  }
}
