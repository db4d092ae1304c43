/**
 * The grid as a value and the simulator's operations on it: inserting and
 * removing a car, the horizontal look-ahead, and the tick, a raster scan
 * that visits every cell once and updates the board in place as it goes.
 * The class Engine.Grid is proved to behave exactly as these functions say.
 */
module Traffic {
  import opened Cells

  /** The cells of a grid, row by row. */
  type Board = seq<seq<Cell>>

  /** `b` has `r` rows of `c` cells each. */
  ghost predicate Shaped(b: Board, r: nat, c: nat) {
    |b| == r && forall i :: 0 <= i < r ==> |b[i]| == c
  }

  /** The kind and direction of every cell of `b`, forgetting the cars. */
  function Layout(b: Board): (l: seq<seq<LaneKind>>)
    ensures |l| == |b| && forall i :: 0 <= i < |b| ==> |l[i]| == |b[i]|
    ensures forall i, j {:trigger l[i][j]} :: 0 <= i < |b| && 0 <= j < |b[i]| ==> l[i][j] == b[i][j].Lane()
  {
    seq(|b|, i requires 0 <= i < |b| => seq(|b[i]|, j requires 0 <= j < |b[i]| => b[i][j].Lane()))
  }

  /** Replacing one cell by a cell of the same kind and direction keeps the layout. */
  lemma LayoutPut(b: Board, y: nat, x: nat, v: Cell)
    requires y < |b| && x < |b[y]| && v.Lane() == b[y][x].Lane()
    ensures Layout(Put(b, y, x, v)) == Layout(b)
  {
    var l, l' := Layout(b), Layout(Put(b, y, x, v));
    forall i | 0 <= i < |b| ensures l'[i] == l[i] {
      assert |l'[i]| == |l[i]|;
    }
  }

  /** Every state on the board is 0 or 1. */
  ghost predicate BinaryStates(b: Board) {
    forall i, j :: 0 <= i < |b| && 0 <= j < |b[i]| ==> b[i][j].state == 0 || b[i][j].state == 1
  }

  /** `b` with the cell at row `y`, column `x` replaced by `v`. */
  function Put(b: Board, y: nat, x: nat, v: Cell): (b': Board)
    requires y < |b| && x < |b[y]|
    ensures |b'| == |b| && forall i :: 0 <= i < |b| ==> |b'[i]| == |b[i]|
    ensures b'[y][x] == v
    ensures forall i, j {:trigger b'[i][j]} :: 0 <= i < |b| && 0 <= j < |b[i]| && (i, j) != (y, x) ==> b'[i][j] == b[i][j]
  {
    b[y := b[y][x := v]]
  }

  /**
   * insert_car: a car is placed only on a road cell whose state is 0. With no
   * colour given, the cursor advances modulo 8 and picks the palette colour.
   * Returns the new board and the new cursor.
   */
  function InsertAt(b: Board, n: int, y: nat, x: nat, color: Option<Color>): (r: (Board, int))
    requires y < |b| && x < |b[y]|
    ensures |r.0| == |b| && forall i :: 0 <= i < |b| ==> |r.0[i]| == |b[i]|
    ensures forall i, j {:trigger r.0[i][j]} :: 0 <= i < |b| && 0 <= j < |b[i]| && (i, j) != (y, x) ==> r.0[i][j] == b[i][j]
    ensures !(b[y][x].IsRoad() && b[y][x].state == 0) ==> r == (b, n)
    ensures b[y][x].IsRoad() && b[y][x].state == 0 ==>
      r.0[y][x].Lane() == b[y][x].Lane() && r.0[y][x].state == 1 &&
      (color.Some? ==> r.0[y][x].color == color.value && r.1 == n) &&
      (color.None? ==> r.1 == (n + 1) % 8 && r.0[y][x].color == Palette[r.1])
    ensures r.1 == n || 0 <= r.1 < 8
  {
    var cell := b[y][x];
    if cell.IsRoad() && cell.state == 0 then
      var n' := if color.None? then (n + 1) % 8 else n;
      var paint := if color.Some? then color.value else Palette[n'];
      (Put(b, y, x, cell.Occupied(paint)), n')
    else
      (b, n)
  }

  /** remove_car: a road cell is emptied and painted white; an obstacle is left alone. */
  function RemoveAt(b: Board, y: nat, x: nat): (b': Board)
    requires y < |b| && x < |b[y]|
    ensures |b'| == |b| && forall i :: 0 <= i < |b| ==> |b'[i]| == |b[i]|
    ensures forall i, j {:trigger b'[i][j]} :: 0 <= i < |b| && 0 <= j < |b[i]| && (i, j) != (y, x) ==> b'[i][j] == b[i][j]
    ensures !b[y][x].IsRoad() ==> b' == b
    ensures b[y][x].IsRoad() ==>
      b'[y][x].Lane() == b[y][x].Lane() && b'[y][x].state == 0 && b'[y][x].color == White
  {
    if b[y][x].IsRoad() then Put(b, y, x, b[y][x].Vacated()) else b
  }

  /** Removing a car twice leaves the same board as removing it once. */
  lemma RemoveAtIdempotent(b: Board, y: nat, x: nat)
    requires y < |b| && x < |b[y]|
    ensures RemoveAt(RemoveAt(b, y, x), y, x) == RemoveAt(b, y, x)
  {
    var once := RemoveAt(b, y, x);
    if b[y][x].IsRoad() {
      VacatedIdempotent(b[y][x]);
      var row: seq<Cell> := once[y];
      assert row[x := row[x].Vacated()] == row;
    }
  }

  /** The column `k` steps ahead of column `x` in direction `o` lies on a row of `c` cells. */
  predicate Ahead(c: nat, x: int, o: Orientation, k: nat) {
    0 <= x + o * k < c
  }

  /**
   * h_moves: how many cells a horizontal car at (y, x) heading `o` advances,
   * looking at most two cells ahead. An occupied cell stops the count, a
   * vertical road cell caps it, and an off-grid cell makes it 1 so that the
   * tick lets the car leave the grid.
   */
  function HorizontalMoves(b: Board, c: nat, y: nat, x: int, o: Orientation): (m: nat)
    requires y < |b| && |b[y]| == c
    ensures m <= 2
    ensures m == 0 <==> Ahead(c, x, o, 1) && b[y][x + o].state == 1
    ensures !Ahead(c, x, o, 1) ==> m == 1
    ensures Ahead(c, x, o, 1) && b[y][x + o].VRoad? ==> m <= 1
    ensures (Ahead(c, x, o, 1) && b[y][x + o].state != 1 &&
             (!Ahead(c, x, o, 2) || b[y][x + 2 * o].state == 1)) ==> m == 1
    ensures m == 2 <==>
      Ahead(c, x, o, 1) && b[y][x + o].state != 1 && !b[y][x + o].VRoad? &&
      Ahead(c, x, o, 2) && b[y][x + 2 * o].state != 1
  {
    if !Ahead(c, x, o, 1) then 1
    else if b[y][x + o].state == 1 then 0
    else if b[y][x + o].VRoad? then 1
    else if !Ahead(c, x, o, 2) then 1
    else if b[y][x + 2 * o].state == 1 then 1
    else 2
  }

  /**
   * A car never moves onto or across a filled cell: whenever its look-ahead
   * lands in the row, all cells from the first ahead to the landing cell have
   * state other than 1, and with 0/1 states they are all empty.
   */
  lemma HorizontalMovesPathFree(b: Board, c: nat, y: nat, x: int, o: Orientation)
    requires y < |b| && |b[y]| == c
    requires BinaryStates(b)
    ensures var m := HorizontalMoves(b, c, y, x, o);
      forall k :: 1 <= k <= m && Ahead(c, x, o, k) ==> b[y][x + o * k].state == 0
  {
    var m := HorizontalMoves(b, c, y, x, o);
    forall k | 1 <= k <= m && Ahead(c, x, o, k)
      ensures b[y][x + o * k].state == 0
    {
      assert k == 1 || k == 2;
      assert b[y][x + o * k].state != 1;
    }
  }

  /** The scan state of a tick: the board, the cells marked as moved into, and the colour cursor. */
  datatype Scan = Scan(board: Board, moved: set<(int, int)>, n: int)

  /** The cell a car at (y, x) aims for: a vertical car one step, a horizontal car by its look-ahead. */
  function Target(b: Board, c: nat, y: nat, x: nat): (t: (int, int))
    requires y < |b| && |b[y]| == c && x < c && b[y][x].IsRoad()
    ensures b[y][x].VRoad? ==> t == (y + b[y][x].orientation, x)
    ensures b[y][x].HRoad? ==> t.0 == y && t.1 - x in {0, b[y][x].orientation, 2 * b[y][x].orientation}
  {
    var o := b[y][x].orientation;
    if b[y][x].HRoad? then (y, x + o * HorizontalMoves(b, c, y, x, o)) else (y + o, x)
  }

  /** A lane entrance: an edge cell whose direction points into the grid of `r` by `c` cells. */
  predicate IsEntrance(cell: Cell, r: nat, c: nat, y: nat, x: nat)
    requires cell.IsRoad()
  {
    if cell.VRoad? then
      (y == 0 && cell.orientation == 1) || (y == r - 1 && cell.orientation == -1)
    else
      (x == 0 && cell.orientation == 1) || (x == c - 1 && cell.orientation == -1)
  }

  /**
   * A car at (y, x) that has not moved this tick steps to its target when
   * that cell is in the grid with state 0: its colour is inserted there, the
   * origin is emptied and the target is marked as moved. A target off the
   * grid removes the car; any other target leaves it where it is.
   */
  function Advance(s: Scan, r: nat, c: nat, y: nat, x: nat): (t: Scan)
    requires Shaped(s.board, r, c) && y < r && x < c && s.board[y][x].IsRoad()
    ensures Shaped(t.board, r, c) && t.n == s.n
  {
    var (ty, tx) := Target(s.board, c, y, x);
    if 0 <= ty < r && 0 <= tx < c then
      if s.board[ty][tx].state == 0 then
        var ins := InsertAt(s.board, s.n, ty, tx, Some(s.board[y][x].color));
        Scan(RemoveAt(ins.0, y, x), s.moved + {(ty, tx)}, ins.1)
      else s
    else Scan(RemoveAt(s.board, y, x), s.moved, s.n)
  }

  /** An empty road cell at (y, x) receives a car of the next palette colour when the oracle fires and it is an entrance. */
  function Spawn(s: Scan, r: nat, c: nat, y: nat, x: nat, spawn: (int, int) -> bool): (t: Scan)
    requires Shaped(s.board, r, c) && y < r && x < c && s.board[y][x].IsRoad()
    ensures Shaped(t.board, r, c) && t.moved == s.moved
    ensures 0 <= s.n < 8 ==> 0 <= t.n < 8
  {
    if spawn(y, x) && IsEntrance(s.board[y][x], r, c, y, x) then
      var ins := InsertAt(s.board, s.n, y, x, None);
      Scan(ins.0, s.moved, ins.1)
    else s
  }

  /**
   * One visit of the raster scan, at (y, x): a car not yet moved this tick
   * advances, an empty road cell may spawn a car, anything else is left.
   */
  function StepAt(s: Scan, r: nat, c: nat, y: nat, x: nat, spawn: (int, int) -> bool): (t: Scan)
    requires Shaped(s.board, r, c) && y < r && x < c
    ensures Shaped(t.board, r, c)
    ensures 0 <= s.n < 8 ==> 0 <= t.n < 8
  {
    var cur := s.board[y][x];
    if !cur.IsRoad() then s
    else if cur.state == 1 && (y, x) !in s.moved then Advance(s, r, c, y, x)
    else if cur.state == 0 then Spawn(s, r, c, y, x, spawn)
    else s
  }

  /** The scan state after visiting cells (y, 0) .. (y, x - 1) in order, starting from `s`. */
  function RowPrefix(s: Scan, r: nat, c: nat, y: nat, x: nat, spawn: (int, int) -> bool): (t: Scan)
    requires Shaped(s.board, r, c) && y < r && x <= c
    ensures Shaped(t.board, r, c)
    ensures 0 <= s.n < 8 ==> 0 <= t.n < 8
    decreases x
  {
    if x == 0 then s else StepAt(RowPrefix(s, r, c, y, x - 1, spawn), r, c, y, x - 1, spawn)
  }

  /** The scan state after visiting rows 0 .. y - 1 in order, starting from `s`. */
  function RowsPrefix(s: Scan, r: nat, c: nat, y: nat, spawn: (int, int) -> bool): (t: Scan)
    requires Shaped(s.board, r, c) && y <= r
    ensures Shaped(t.board, r, c)
    ensures 0 <= s.n < 8 ==> 0 <= t.n < 8
    decreases y
  {
    if y == 0 then s else RowPrefix(RowsPrefix(s, r, c, y - 1, spawn), r, c, y - 1, c, spawn)
  }

  /** next_state: a full raster scan from a fresh, all-unmarked scan state. */
  function Tick(b: Board, n: int, r: nat, c: nat, spawn: (int, int) -> bool): (t: Scan)
    requires Shaped(b, r, c)
    ensures Shaped(t.board, r, c)
    ensures 0 <= n < 8 ==> 0 <= t.n < 8
  {
    RowsPrefix(Scan(b, {}, n), r, c, r, spawn)
  }
}
