/**
 * Counting the cars on a board, and the proof that a tick whose spawn
 * oracle never fires does not increase that count.
 */
module Counting {
  import opened Cells
  import opened Traffic

  /** 1 for a road cell holding a car (state 1), 0 otherwise. */
  function Weight(cell: Cell): nat {
    if cell.IsRoad() && cell.state == 1 then 1 else 0
  }

  /** The number of cars on one row. */
  function RowCars(row: seq<Cell>): nat
    decreases |row|
  {
    if row == [] then 0 else RowCars(row[..|row| - 1]) + Weight(row[|row| - 1])
  }

  /** The number of cars on the board. */
  function Cars(b: Board): nat
    decreases |b|
  {
    if b == [] then 0 else Cars(b[..|b| - 1]) + RowCars(b[|b| - 1])
  }

  /** A row whose cells all have state 0 holds no car. */
  lemma {:induction false} EmptyRowHasNoCars(row: seq<Cell>)
    requires forall j :: 0 <= j < |row| ==> row[j].state == 0
    ensures RowCars(row) == 0
    decreases |row|
  {
    if row != [] {
      EmptyRowHasNoCars(row[..|row| - 1]);
    }
  }

  /** Replacing one cell of a row changes its car count by the weights of the old and new cell. */
  lemma {:induction false} RowCarsUpdate(row: seq<Cell>, x: nat, v: Cell)
    requires x < |row|
    ensures RowCars(row[x := v]) == RowCars(row) - Weight(row[x]) + Weight(v)
    decreases |row|
  {
    var last := |row| - 1;
    if x == last {
      assert row[x := v][..last] == row[..last];
    } else {
      assert row[x := v][..last] == row[..last][x := v];
      RowCarsUpdate(row[..last], x, v);
    }
  }

  /** Replacing one row of a board changes its car count by the counts of the old and new row. */
  lemma {:induction false} CarsUpdateRow(b: Board, y: nat, row: seq<Cell>)
    requires y < |b|
    ensures Cars(b[y := row]) == Cars(b) - RowCars(b[y]) + RowCars(row)
    decreases |b|
  {
    var last := |b| - 1;
    if y == last {
      assert b[y := row][..last] == b[..last];
    } else {
      assert b[y := row][..last] == b[..last][y := row];
      CarsUpdateRow(b[..last], y, row);
    }
  }

  /** Replacing one cell of a board changes its car count by the weights of the old and new cell. */
  lemma CarsPut(b: Board, y: nat, x: nat, v: Cell)
    requires y < |b| && x < |b[y]|
    ensures Cars(Put(b, y, x, v)) == Cars(b) - Weight(b[y][x]) + Weight(v)
  {
    RowCarsUpdate(b[y], x, v);
    CarsUpdateRow(b, y, b[y][x := v]);
  }

  /** insert_car adds exactly one car when it succeeds and none otherwise. */
  lemma CarsInsertAt(b: Board, n: int, y: nat, x: nat, color: Option<Color>)
    requires y < |b| && x < |b[y]|
    ensures Cars(InsertAt(b, n, y, x, color).0) ==
      Cars(b) + (if b[y][x].IsRoad() && b[y][x].state == 0 then 1 else 0)
  {
    var cell := b[y][x];
    if cell.IsRoad() && cell.state == 0 {
      var n' := if color.None? then (n + 1) % 8 else n;
      var paint := if color.Some? then color.value else Palette[n'];
      CarsPut(b, y, x, cell.Occupied(paint));
    }
  }

  /** remove_car takes away the car on the cell, if there is one, and nothing else. */
  lemma CarsRemoveAt(b: Board, y: nat, x: nat)
    requires y < |b| && x < |b[y]|
    ensures Cars(RemoveAt(b, y, x)) == Cars(b) - Weight(b[y][x])
  {
    if b[y][x].IsRoad() {
      CarsPut(b, y, x, b[y][x].Vacated());
    }
  }

  /**
   * A visit never adds a car unless the spawn oracle fires at that cell and
   * the cell is a lane entrance:
   * a move takes the car off one cell and puts it on another, an exit or a
   * move onto an empty obstacle loses it, and a blocked car stays.
   */
  lemma CarsStepAt(s: Scan, r: nat, c: nat, y: nat, x: nat, spawn: (int, int) -> bool)
    requires Shaped(s.board, r, c) && y < r && x < c
    ensures Cars(StepAt(s, r, c, y, x, spawn).board) <=
      Cars(s.board) + (if spawn(y, x) && s.board[y][x].IsRoad() && IsEntrance(s.board[y][x], r, c, y, x) then 1 else 0)
  {
    var cur := s.board[y][x];
    if !cur.IsRoad() {
    } else if cur.state == 1 && (y, x) !in s.moved {
      var (ty, tx) := Target(s.board, c, y, x);
      if 0 <= ty < r && 0 <= tx < c {
        if s.board[ty][tx].state == 0 {
          var ins := InsertAt(s.board, s.n, ty, tx, Some(cur.color));
          CarsInsertAt(s.board, s.n, ty, tx, Some(cur.color));
          assert (ty, tx) != (y, x);
          CarsRemoveAt(ins.0, y, x);
        }
      } else {
        CarsRemoveAt(s.board, y, x);
      }
    } else if cur.state == 0 && spawn(y, x) && IsEntrance(cur, r, c, y, x) {
      CarsInsertAt(s.board, s.n, y, x, None);
    }
  }

  /** With a silent spawn oracle, scanning part of a row never adds a car. */
  lemma {:induction false} CarsRowPrefix(s: Scan, r: nat, c: nat, y: nat, x: nat, spawn: (int, int) -> bool)
    requires Shaped(s.board, r, c) && y < r && x <= c
    requires forall i, j :: !spawn(i, j)
    ensures Cars(RowPrefix(s, r, c, y, x, spawn).board) <= Cars(s.board)
    decreases x
  {
    if x > 0 {
      var before := RowPrefix(s, r, c, y, x - 1, spawn);
      CarsRowPrefix(s, r, c, y, x - 1, spawn);
      CarsStepAt(before, r, c, y, x - 1, spawn);
      assert RowPrefix(s, r, c, y, x, spawn) == StepAt(before, r, c, y, x - 1, spawn);
    }
  }

  /** With a silent spawn oracle, scanning any number of rows never adds a car. */
  lemma {:induction false} CarsRowsPrefix(s: Scan, r: nat, c: nat, y: nat, spawn: (int, int) -> bool)
    requires Shaped(s.board, r, c) && y <= r
    requires forall i, j :: !spawn(i, j)
    ensures Cars(RowsPrefix(s, r, c, y, spawn).board) <= Cars(s.board)
    decreases y
  {
    if y > 0 {
      var before := RowsPrefix(s, r, c, y - 1, spawn);
      CarsRowsPrefix(s, r, c, y - 1, spawn);
      CarsRowPrefix(before, r, c, y - 1, c, spawn);
      assert RowsPrefix(s, r, c, y, spawn) == RowPrefix(before, r, c, y - 1, c, spawn);
    }
  }

  /** Occupancy conservation: when the spawn oracle never fires, a tick never increases the number of cars. */
  lemma TickNeverAddsCars(b: Board, n: int, r: nat, c: nat, spawn: (int, int) -> bool)
    requires Shaped(b, r, c)
    requires forall i, j :: !spawn(i, j)
    ensures Cars(Tick(b, n, r, c, spawn).board) <= Cars(b)
  {
    CarsRowsPrefix(Scan(b, {}, n), r, c, r, spawn);
  }
}
