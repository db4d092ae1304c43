/**
 * What one visit of the tick's raster scan does to the board, case by case,
 * and what a whole tick keeps: the lane layout and 0/1 states.
 */
module TickFacts {
  import opened Cells
  import opened Traffic

  /** A car on a road cell, not yet marked as moved this tick. */
  ghost predicate MovableCar(s: Scan, r: nat, c: nat, y: nat, x: nat)
    requires Shaped(s.board, r, c) && y < r && x < c
  {
    s.board[y][x].IsRoad() && s.board[y][x].state == 1 && (y, x) !in s.moved
  }

  /**
   * A car whose target is in the grid with state 0 leaves its cell empty and
   * white and the target is marked. On a road target the car arrives with
   * its colour; on an obstacle target whose state is 0 the insertion does
   * nothing and the car is lost. No other cell changes.
   */
  lemma StepAtMovesCar(s: Scan, r: nat, c: nat, y: nat, x: nat, spawn: (int, int) -> bool, ty: int, tx: int)
    requires Shaped(s.board, r, c) && y < r && x < c
    requires MovableCar(s, r, c, y, x) && Target(s.board, c, y, x) == (ty, tx)
    requires 0 <= ty < r && 0 <= tx < c && s.board[ty][tx].state == 0
    ensures var t := StepAt(s, r, c, y, x, spawn);
      t.moved == s.moved + {(ty, tx)} && t.n == s.n &&
      t.board[y][x] == s.board[y][x].Vacated() &&
      t.board[ty][tx] == (if s.board[ty][tx].IsRoad()
                          then s.board[ty][tx].Occupied(s.board[y][x].color)
                          else s.board[ty][tx]) &&
      forall i, j :: 0 <= i < r && 0 <= j < c && (i, j) != (y, x) && (i, j) != (ty, tx) ==>
        t.board[i][j] == s.board[i][j]
  {
    assert (ty, tx) != (y, x);
  }

  /** A car whose target is off the grid is removed; nothing else changes. */
  lemma StepAtExits(s: Scan, r: nat, c: nat, y: nat, x: nat, spawn: (int, int) -> bool)
    requires Shaped(s.board, r, c) && y < r && x < c
    requires MovableCar(s, r, c, y, x)
    requires var t := Target(s.board, c, y, x); !(0 <= t.0 < r && 0 <= t.1 < c)
    ensures var t := StepAt(s, r, c, y, x, spawn);
      t.moved == s.moved && t.n == s.n &&
      t.board[y][x].state == 0 && t.board[y][x].color == White &&
      t.board[y][x].Lane() == s.board[y][x].Lane() &&
      forall i, j :: 0 <= i < r && 0 <= j < c && (i, j) != (y, x) ==> t.board[i][j] == s.board[i][j]
  {
  }

  /** A car whose target is in the grid with a state other than 0 stays, and nothing changes. */
  lemma StepAtBlocked(s: Scan, r: nat, c: nat, y: nat, x: nat, spawn: (int, int) -> bool)
    requires Shaped(s.board, r, c) && y < r && x < c
    requires MovableCar(s, r, c, y, x)
    requires var t := Target(s.board, c, y, x);
      0 <= t.0 < r && 0 <= t.1 < c && s.board[t.0][t.1].state != 0
    ensures StepAt(s, r, c, y, x, spawn) == s
  {
  }

  /** A car that was moved into its cell earlier in the tick is not moved again. */
  lemma StepAtSkipsMoved(s: Scan, r: nat, c: nat, y: nat, x: nat, spawn: (int, int) -> bool)
    requires Shaped(s.board, r, c) && y < r && x < c
    requires (y, x) in s.moved && s.board[y][x].state == 1
    ensures StepAt(s, r, c, y, x, spawn) == s
  {
  }

  /** A horizontal car heading into a vertical road cell advances at most one cell. */
  lemma StepAtIntersectionCap(s: Scan, r: nat, c: nat, y: nat, x: nat)
    requires Shaped(s.board, r, c) && y < r && x < c
    requires s.board[y][x].HRoad?
    requires var o := s.board[y][x].orientation; Ahead(c, x, o, 1) && s.board[y][x + o].VRoad?
    ensures var t := Target(s.board, c, y, x); t.0 == y && -1 <= t.1 - x <= 1
  {
  }

  /**
   * Cars are spawned only at empty entrance cells: a visit of an empty road
   * cell changes the board only when the oracle fires and the cell is an
   * entrance, and then it places a car with the next palette colour there.
   */
  lemma StepAtSpawnsOnlyAtEntrance(s: Scan, r: nat, c: nat, y: nat, x: nat, spawn: (int, int) -> bool)
    requires Shaped(s.board, r, c) && y < r && x < c
    requires s.board[y][x].IsRoad() && s.board[y][x].state == 0
    ensures var t := StepAt(s, r, c, y, x, spawn);
      t.moved == s.moved &&
      if spawn(y, x) && IsEntrance(s.board[y][x], r, c, y, x) then
        t.n == (s.n + 1) % 8 &&
        t.board == Put(s.board, y, x, s.board[y][x].Occupied(Palette[t.n]))
      else
        t == s
  {
  }

  /** One visit keeps every cell's kind and direction. */
  lemma StepAtKeepsLayout(s: Scan, r: nat, c: nat, y: nat, x: nat, spawn: (int, int) -> bool)
    requires Shaped(s.board, r, c) && y < r && x < c
    ensures Layout(StepAt(s, r, c, y, x, spawn).board) == Layout(s.board)
  {
    var cur := s.board[y][x];
    if !cur.IsRoad() {
    } else if cur.state == 1 && (y, x) !in s.moved {
      var (ty, tx) := Target(s.board, c, y, x);
      if 0 <= ty < r && 0 <= tx < c {
        if s.board[ty][tx].state == 0 {
          var ins := InsertAt(s.board, s.n, ty, tx, Some(cur.color));
          InsertAtKeepsLayout(s.board, s.n, ty, tx, Some(cur.color));
          RemoveAtKeepsLayout(ins.0, y, x);
        }
      } else {
        RemoveAtKeepsLayout(s.board, y, x);
      }
    } else if cur.state == 0 && spawn(y, x) && IsEntrance(cur, r, c, y, x) {
      InsertAtKeepsLayout(s.board, s.n, y, x, None);
    }
  }

  /** insert_car changes no cell's kind or direction. */
  lemma InsertAtKeepsLayout(b: Board, n: int, y: nat, x: nat, color: Option<Color>)
    requires y < |b| && x < |b[y]|
    ensures Layout(InsertAt(b, n, y, x, color).0) == Layout(b)
  {
    var cell := b[y][x];
    if cell.IsRoad() && cell.state == 0 {
      var n' := if color.None? then (n + 1) % 8 else n;
      var paint := if color.Some? then color.value else Palette[n'];
      LayoutPut(b, y, x, cell.Occupied(paint));
    }
  }

  /** remove_car changes no cell's kind or direction. */
  lemma RemoveAtKeepsLayout(b: Board, y: nat, x: nat)
    requires y < |b| && x < |b[y]|
    ensures Layout(RemoveAt(b, y, x)) == Layout(b)
  {
    if b[y][x].IsRoad() {
      LayoutPut(b, y, x, b[y][x].Vacated());
    }
  }

  /** Scanning part of a row keeps every cell's kind and direction. */
  lemma {:induction false} RowPrefixKeepsLayout(s: Scan, r: nat, c: nat, y: nat, x: nat, spawn: (int, int) -> bool)
    requires Shaped(s.board, r, c) && y < r && x <= c
    ensures Layout(RowPrefix(s, r, c, y, x, spawn).board) == Layout(s.board)
    decreases x
  {
    if x > 0 {
      RowPrefixKeepsLayout(s, r, c, y, x - 1, spawn);
      RowPrefixStepKeepsLayout(s, r, c, y, x - 1, spawn);
    }
  }

  /** The visit of (y, x) after a prefix of the row keeps every cell's kind and direction. */
  lemma RowPrefixStepKeepsLayout(s: Scan, r: nat, c: nat, y: nat, x: nat, spawn: (int, int) -> bool)
    requires Shaped(s.board, r, c) && y < r && x < c
    ensures Layout(RowPrefix(s, r, c, y, x + 1, spawn).board) == Layout(RowPrefix(s, r, c, y, x, spawn).board)
  {
    var mid := RowPrefix(s, r, c, y, x, spawn);
    StepAtKeepsLayout(mid, r, c, y, x, spawn);
    assert RowPrefix(s, r, c, y, x + 1, spawn) == StepAt(mid, r, c, y, x, spawn);
  }

  /** Scanning any number of rows keeps every cell's kind and direction. */
  lemma {:induction false} RowsPrefixKeepsLayout(s: Scan, r: nat, c: nat, y: nat, spawn: (int, int) -> bool)
    requires Shaped(s.board, r, c) && y <= r
    ensures Layout(RowsPrefix(s, r, c, y, spawn).board) == Layout(s.board)
    decreases y
  {
    if y > 0 {
      RowsPrefixKeepsLayout(s, r, c, y - 1, spawn);
      RowsPrefixStepKeepsLayout(s, r, c, y - 1, spawn);
    }
  }

  /** Scanning row y after the rows above it keeps every cell's kind and direction. */
  lemma RowsPrefixStepKeepsLayout(s: Scan, r: nat, c: nat, y: nat, spawn: (int, int) -> bool)
    requires Shaped(s.board, r, c) && y < r
    ensures Layout(RowsPrefix(s, r, c, y + 1, spawn).board) == Layout(RowsPrefix(s, r, c, y, spawn).board)
  {
    var mid := RowsPrefix(s, r, c, y, spawn);
    RowPrefixKeepsLayout(mid, r, c, y, c, spawn);
    assert RowsPrefix(s, r, c, y + 1, spawn) == RowPrefix(mid, r, c, y, c, spawn);
  }

  /** One visit writes only the states 0 and 1. */
  lemma StepAtKeepsBinary(s: Scan, r: nat, c: nat, y: nat, x: nat, spawn: (int, int) -> bool)
    requires Shaped(s.board, r, c) && y < r && x < c
    requires BinaryStates(s.board)
    ensures BinaryStates(StepAt(s, r, c, y, x, spawn).board)
  {
  }

  /** Scanning part of a row keeps every state 0 or 1. */
  lemma {:induction false} RowPrefixKeepsBinary(s: Scan, r: nat, c: nat, y: nat, x: nat, spawn: (int, int) -> bool)
    requires Shaped(s.board, r, c) && y < r && x <= c
    requires BinaryStates(s.board)
    ensures BinaryStates(RowPrefix(s, r, c, y, x, spawn).board)
    decreases x
  {
    if x > 0 {
      RowPrefixKeepsBinary(s, r, c, y, x - 1, spawn);
      RowPrefixStepKeepsBinary(s, r, c, y, x - 1, spawn);
    }
  }

  /** The visit of (y, x) after a prefix of the row keeps every state 0 or 1. */
  lemma RowPrefixStepKeepsBinary(s: Scan, r: nat, c: nat, y: nat, x: nat, spawn: (int, int) -> bool)
    requires Shaped(s.board, r, c) && y < r && x < c
    requires BinaryStates(RowPrefix(s, r, c, y, x, spawn).board)
    ensures BinaryStates(RowPrefix(s, r, c, y, x + 1, spawn).board)
  {
    var mid := RowPrefix(s, r, c, y, x, spawn);
    StepAtKeepsBinary(mid, r, c, y, x, spawn);
    assert RowPrefix(s, r, c, y, x + 1, spawn) == StepAt(mid, r, c, y, x, spawn);
  }

  /** Scanning any number of rows keeps every state 0 or 1. */
  lemma {:induction false} RowsPrefixKeepsBinary(s: Scan, r: nat, c: nat, y: nat, spawn: (int, int) -> bool)
    requires Shaped(s.board, r, c) && y <= r
    requires BinaryStates(s.board)
    ensures BinaryStates(RowsPrefix(s, r, c, y, spawn).board)
    decreases y
  {
    if y > 0 {
      var mid := RowsPrefix(s, r, c, y - 1, spawn);
      RowsPrefixKeepsBinary(s, r, c, y - 1, spawn);
      RowPrefixKeepsBinary(mid, r, c, y - 1, c, spawn);
      assert RowsPrefix(s, r, c, y, spawn) == RowPrefix(mid, r, c, y - 1, c, spawn);
    }
  }

  /**
   * A tick never changes the lane layout (which cells are obstacles, which
   * are roads and in what direction) and keeps every state 0 or 1.
   */
  lemma TickKeepsLayout(b: Board, n: int, r: nat, c: nat, spawn: (int, int) -> bool)
    requires Shaped(b, r, c)
    ensures var t := Tick(b, n, r, c, spawn);
      Layout(t.board) == Layout(b) && (BinaryStates(b) ==> BinaryStates(t.board))
  {
    RowsPrefixKeepsLayout(Scan(b, {}, n), r, c, r, spawn);
    if BinaryStates(b) {
      RowsPrefixKeepsBinary(Scan(b, {}, n), r, c, r, spawn);
    }
  }
}
