/** Small worked ticks on one horizontal lane, with a spawn oracle that never fires. */
module Scenarios {
  import opened Cells
  import opened Traffic
  import opened Counting

  const Red: Color := RGB(255, 0, 0)

  /** An empty right-bound lane cell, and the same cell holding a red car. */
  const Free: Cell := HRoad(White, 0, 1)
  const Car: Cell := HRoad(Red, 1, 1)

  /** The spawn oracle that never fires. */
  function Never(y: int, x: int): bool { false }

  /** A 1 x 5 lane with a car at column 0: one tick takes it two cells, to column 2. */
  lemma CarAdvancesTwo()
    ensures Tick([[Car, Free, Free, Free, Free]], 0, 1, 5, Never).board == [[Free, Free, Car, Free, Free]]
  {
    var s0 := Scan([[Car, Free, Free, Free, Free]], {}, 0);
    var s1 := StepAt(s0, 1, 5, 0, 0, Never);
    assert HorizontalMoves(s0.board, 5, 0, 0, 1) == 2;
    assert Target(s0.board, 5, 0, 0) == (0, 2);
    var ins := InsertAt(s0.board, 0, 0, 2, Some(Red));
    assert Free.Occupied(Red) == Car && Car.Vacated() == Free;
    assert [Car, Free, Free, Free, Free][2 := Car] == [Car, Free, Car, Free, Free];
    assert [Car, Free, Car, Free, Free][0 := Free] == [Free, Free, Car, Free, Free];
    assert s0.board[0 := [Car, Free, Car, Free, Free]] == [[Car, Free, Car, Free, Free]];
    assert [[Car, Free, Car, Free, Free]][0 := [Free, Free, Car, Free, Free]] == [[Free, Free, Car, Free, Free]];
    assert ins == ([[Car, Free, Car, Free, Free]], 0);
    assert RemoveAt(ins.0, 0, 0) == [[Free, Free, Car, Free, Free]];
    assert s1 == Scan([[Free, Free, Car, Free, Free]], {(0, 2)}, 0);
    var s2 := StepAt(s1, 1, 5, 0, 1, Never);
    assert s2 == s1;
    var s3 := StepAt(s2, 1, 5, 0, 2, Never);
    assert s3 == s2;
    var s4 := StepAt(s3, 1, 5, 0, 3, Never);
    assert s4 == s3;
    var s5 := StepAt(s4, 1, 5, 0, 4, Never);
    assert s5 == s4;
    assert RowPrefix(s0, 1, 5, 0, 5, Never) == s5;
    assert Tick([[Car, Free, Free, Free, Free]], 0, 1, 5, Never) == RowPrefix(s0, 1, 5, 0, 5, Never);
  }

  /** A right-bound lane of `len` cells, with a red car at column `k` when k < len. */
  function LaneWith(k: nat, len: nat): seq<Cell> {
    seq(len, j => if j == k then Car else Free)
  }

  /** Visiting a stretch of empty cells while the oracle is silent changes nothing. */
  lemma {:induction false} QuietStretch(s: Scan, r: nat, c: nat, y: nat, x: nat)
    requires Shaped(s.board, r, c) && y < r && x <= c
    requires forall j :: 0 <= j < x ==> s.board[y][j].state == 0
    ensures RowPrefix(s, r, c, y, x, Never) == s
    decreases x
  {
    if x > 0 {
      QuietStretch(s, r, c, y, x - 1);
    }
  }

  /** The visit of column 8: the car there has one cell left ahead and moves onto it. */
  lemma VisitBeforeLastColumn()
    ensures StepAt(Scan([LaneWith(8, 10)], {}, 0), 1, 10, 0, 8, Never) == Scan([LaneWith(9, 10)], {(0, 9)}, 0)
  {
    var s0 := Scan([LaneWith(8, 10)], {}, 0);
    assert HorizontalMoves(s0.board, 10, 0, 8, 1) == 1;
    var ins := InsertAt(s0.board, 0, 0, 9, Some(Red));
    assert ins.0 == [LaneWith(8, 10)[9 := Car]];
    assert RemoveAt(ins.0, 0, 8) == [LaneWith(9, 10)] by {
      assert LaneWith(8, 10)[9 := Car][8 := Free] == LaneWith(9, 10);
    }
  }

  /**
   * A car at column 8 of a 1 x 10 lane reaches column 9 in one tick: the
   * second cell ahead is off the grid, so it advances one cell.
   */
  lemma CarReachesLastColumn()
    ensures Tick([LaneWith(8, 10)], 0, 1, 10, Never).board == [LaneWith(9, 10)]
  {
    var s0 := Scan([LaneWith(8, 10)], {}, 0);
    var s9 := Scan([LaneWith(9, 10)], {(0, 9)}, 0);
    QuietStretch(s0, 1, 10, 0, 8);
    VisitBeforeLastColumn();
    assert RowPrefix(s0, 1, 10, 0, 9, Never) == s9;
    assert StepAt(s9, 1, 10, 0, 9, Never) == s9;
  }

  /** The visit of column 9: the car there has nothing ahead and leaves the grid. */
  lemma VisitLastColumn()
    ensures StepAt(Scan([LaneWith(9, 10)], {}, 0), 1, 10, 0, 9, Never) == Scan([LaneWith(10, 10)], {}, 0)
  {
    var t0 := Scan([LaneWith(9, 10)], {}, 0);
    assert Target(t0.board, 10, 0, 9) == (0, 10);
    assert RemoveAt(t0.board, 0, 9) == [LaneWith(10, 10)] by {
      assert LaneWith(9, 10)[9 := Free] == LaneWith(10, 10);
    }
  }

  /** A car at the last column of the lane leaves the grid in the next tick, and no car is left. */
  lemma CarLeavesTheGrid()
    ensures Tick([LaneWith(9, 10)], 0, 1, 10, Never).board == [LaneWith(10, 10)]
    ensures Cars([LaneWith(10, 10)]) == 0
  {
    var t0 := Scan([LaneWith(9, 10)], {}, 0);
    QuietStretch(t0, 1, 10, 0, 9);
    VisitLastColumn();
    assert RowPrefix(t0, 1, 10, 0, 10, Never) == StepAt(t0, 1, 10, 0, 9, Never);
    EmptyRowHasNoCars(LaneWith(10, 10));
  }

  /**
   * Two cars nose to tail before a wall: the leader is blocked by the
   * obstacle and the follower by the leader, so the tick changes nothing.
   */
  lemma QueueBeforeWall()
    ensures Tick([[Car, Car, Obstacle(Black, 1)]], 0, 1, 3, Never).board == [[Car, Car, Obstacle(Black, 1)]]
  {
    var s0 := Scan([[Car, Car, Obstacle(Black, 1)]], {}, 0);
    assert StepAt(s0, 1, 3, 0, 0, Never) == s0;
    assert StepAt(s0, 1, 3, 0, 1, Never) == s0;
    assert StepAt(s0, 1, 3, 0, 2, Never) == s0;
    assert Tick([[Car, Car, Obstacle(Black, 1)]], 0, 1, 3, Never) == RowPrefix(s0, 1, 3, 0, 3, Never);
  }

  /**
   * The look-ahead tests only states: a right-bound car before an obstacle
   * whose state is 0 and a free cell behind it advances two cells, over the
   * obstacle.
   */
  lemma CarJumpsUnfilledObstacle()
    ensures HorizontalMoves([[Car, Obstacle(Black, 0), Free]], 3, 0, 0, 1) == 2
    ensures Target([[Car, Obstacle(Black, 0), Free]], 3, 0, 0) == (0, 2)
  {
  }
}
