/**
 * The simulator's grid: a fixed rows-by-columns array of cells that the
 * car operations and the tick update in place, and the colour cursor `n`.
 * Every operation is proved to have the effect that the functions of
 * module Traffic give it.
 */
module Engine {
  import opened Cells
  import opened Traffic

  class Grid {
    const rows: nat
    const columns: nat
    const cells: array2<Cell>
    /** The colour cursor, advanced by each insert_car that picks its own colour. */
    var n: int

    ghost predicate Valid()
      reads this
    {
      cells.Length0 == rows && cells.Length1 == columns && 0 <= n < 8
    }

    /** The cells as a board value. */
    ghost function Contents(): (b: Board)
      reads cells
      ensures Shaped(b, cells.Length0, cells.Length1)
      ensures forall i, j :: 0 <= i < cells.Length0 && 0 <= j < cells.Length1 ==> b[i][j] == cells[i, j]
    {
      seq(cells.Length0, i requires 0 <= i < cells.Length0 reads cells =>
        seq(cells.Length1, j requires 0 <= j < cells.Length1 reads cells => cells[i, j]))
    }

    /** A board that agrees with the array cell by cell is the array's contents. */
    lemma ContentsAre(b: Board)
      requires Shaped(b, cells.Length0, cells.Length1)
      requires forall i, j :: 0 <= i < cells.Length0 && 0 <= j < cells.Length1 ==> b[i][j] == cells[i, j]
      ensures Contents() == b
    {
      var now := Contents();
      forall i | 0 <= i < cells.Length0 ensures now[i] == b[i] {
        assert |now[i]| == |b[i]|;
      }
    }

    /** Grid(rows, columns, obstacle): every cell starts as the given cell, the cursor at 0. */
    constructor (rows: nat, columns: nat, obstacle: Cell)
      ensures Valid() && fresh(cells) && this.rows == rows && this.columns == columns
      ensures Contents() == seq(rows, _ => seq(columns, _ => obstacle))
      ensures n == 0
    {
      this.rows := rows;
      this.columns := columns;
      cells := new Cell[rows, columns]((_, _) => obstacle);
      n := 0;
      new;
      ContentsAre(seq(rows, _ => seq(columns, _ => obstacle)));
    }

    /** remove_car: empties a road cell and paints it white; an obstacle is left as it is. */
    method RemoveCar(y: nat, x: nat)
      requires Valid() && y < rows && x < columns
      modifies cells
      ensures Valid() && Contents() == RemoveAt(old(Contents()), y, x)
    {
      ghost var expected := RemoveAt(Contents(), y, x);
      var cell := cells[y, x];
      if cell.IsRoad() {
        cells[y, x] := cell.(state := 0, color := White);
      }
      ContentsAre(expected);
    }

    /**
     * insert_car: only an empty road cell takes a car. Without a colour the
     * cursor advances modulo 8 and the car takes that palette colour.
     */
    method InsertCar(y: nat, x: nat, color: Option<Color>)
      requires Valid() && y < rows && x < columns
      modifies this, cells
      ensures Valid()
      ensures (Contents(), n) == InsertAt(old(Contents()), old(n), y, x, color)
    {
      ghost var expected := InsertAt(Contents(), n, y, x, color);
      var cell := cells[y, x];
      if cell.IsRoad() && cell.state == 0 {
        var paint: Color;
        if color.None? {
          n := (n + 1) % 8;
          paint := Palette[n];
        } else {
          paint := color.value;
        }
        cells[y, x] := cell.(state := 1, color := paint);
      }
      ContentsAre(expected.0);
    }

    /**
     * fill: every cell with rowRange.0 <= y <= rowRange.1 and
     * columnRange.0 <= x <= columnRange.1 becomes `element`; the rest stay.
     */
    method Fill(element: Cell, rowRange: (int, int), columnRange: (int, int))
      requires Valid()
      requires rowRange.0 <= rowRange.1 && columnRange.0 <= columnRange.1 ==>
        0 <= rowRange.0 && rowRange.1 < rows && 0 <= columnRange.0 && columnRange.1 < columns
      modifies cells
      ensures Valid()
      ensures forall i, j :: 0 <= i < rows && 0 <= j < columns ==>
        cells[i, j] == if rowRange.0 <= i <= rowRange.1 && columnRange.0 <= j <= columnRange.1
                       then element else old(cells[i, j])
    {
      var y := rowRange.0;
      while y <= rowRange.1
        invariant rowRange.0 <= y && (y <= rowRange.1 + 1 || y == rowRange.0)
        invariant forall i, j :: 0 <= i < rows && 0 <= j < columns ==>
          cells[i, j] == if rowRange.0 <= i < y && columnRange.0 <= j <= columnRange.1
                         then element else old(cells[i, j])
      {
        var x := columnRange.0;
        while x <= columnRange.1
          invariant columnRange.0 <= x && (x <= columnRange.1 + 1 || x == columnRange.0)
          invariant forall i, j :: 0 <= i < rows && 0 <= j < columns ==>
            cells[i, j] == if (rowRange.0 <= i < y && columnRange.0 <= j <= columnRange.1) ||
                              (i == y && columnRange.0 <= j < x)
                           then element else old(cells[i, j])
        {
          cells[y, x] := element;
          x := x + 1;
        }
        y := y + 1;
      }
    }

    /** clear_grid: every cell becomes a black obstacle with state 1. */
    method ClearGrid()
      requires Valid()
      modifies cells
      ensures Valid()
      ensures forall i, j :: 0 <= i < rows && 0 <= j < columns ==> cells[i, j] == Obstacle(Black, 1)
    {
      for y := 0 to rows
        invariant forall i, j :: 0 <= i < rows && 0 <= j < columns ==>
          cells[i, j] == if i < y then Obstacle(Black, 1) else old(cells[i, j])
      {
        for x := 0 to columns
          invariant forall i, j :: 0 <= i < rows && 0 <= j < columns ==>
            cells[i, j] == if i < y || (i == y && j < x) then Obstacle(Black, 1) else old(cells[i, j])
        {
          cells[y, x] := Obstacle(Black, 1);
        }
      }
    }

    /** clear_cars: every road cell is emptied and painted white; obstacles stay. */
    method ClearCars()
      requires Valid()
      modifies cells
      ensures Valid()
      ensures forall i, j :: 0 <= i < rows && 0 <= j < columns ==> cells[i, j] == old(cells[i, j]).Vacated()
    {
      for y := 0 to rows
        invariant forall i, j :: 0 <= i < rows && 0 <= j < columns ==>
          cells[i, j] == if i < y then old(cells[i, j]).Vacated() else old(cells[i, j])
      {
        for x := 0 to columns
          invariant forall i, j :: 0 <= i < rows && 0 <= j < columns ==>
            cells[i, j] == if i < y || (i == y && j < x) then old(cells[i, j]).Vacated() else old(cells[i, j])
        {
          var cell := cells[y, x];
          if cell.IsRoad() {
            cells[y, x] := cell.(state := 0, color := White);
          }
        }
      }
    }

    /**
     * fill_with_cars: visits every cell in raster order and, where the
     * oracle `alive` says so, tries insert_car with no colour.
     */
    method FillWithCars(alive: (int, int) -> bool)
      requires Valid()
      modifies this, cells
      ensures Valid()
      ensures forall i, j :: 0 <= i < rows && 0 <= j < columns ==> Seeded(alive(i, j), old(cells[i, j]), cells[i, j], true)
    {
      for y := 0 to rows
        invariant Valid()
        invariant forall i, j :: 0 <= i < rows && 0 <= j < columns ==> Seeded(alive(i, j), old(cells[i, j]), cells[i, j], i < y)
      {
        for x := 0 to columns
          invariant Valid()
          invariant forall i, j :: 0 <= i < rows && 0 <= j < columns ==>
            Seeded(alive(i, j), old(cells[i, j]), cells[i, j], i < y || (i == y && j < x))
        {
          if alive(y, x) {
            InsertCar(y, x, None);
          }
        }
      }
    }

    /**
     * h_moves: counts the free cells ahead of (y, x) in direction `o`, at
     * most two, stopping at a filled cell or after entering a vertical road,
     * and answering 1 as soon as a cell ahead is off the grid.
     */
    method HMoves(y: nat, x: int, o: Orientation) returns (moves: nat)
      requires Valid() && y < rows
      ensures moves == HorizontalMoves(Contents(), columns, y, x, o)
    {
      moves := 0;
      for k := 1 to 3
        invariant moves == k - 1
        invariant k >= 2 ==> Ahead(columns, x, o, 1) && cells[y, x + o].state != 1 && !cells[y, x + o].VRoad?
        invariant k == 3 ==> Ahead(columns, x, o, 2) && cells[y, x + 2 * o].state != 1
      {
        var nextX := x + o * k;
        if 0 <= nextX < columns {
          var cell := cells[y, nextX];
          if cell.state == 1 {
            break;
          }
          moves := moves + 1;
          if cell.VRoad? {
            break;
          }
        } else {
          return 1;
        }
      }
    }

    /** The scan state `s` is what the grid and the moved matrix hold. */
    ghost predicate Tracks(wasMoved: array2<bool>, s: Scan)
      reads this, cells, wasMoved
    {
      Valid() && wasMoved.Length0 == rows && wasMoved.Length1 == columns &&
      Contents() == s.board && n == s.n && Marks(wasMoved, s.moved)
    }

    /** The moved matrix is true exactly at the cells in `moved`. */
    static ghost predicate Marks(wasMoved: array2<bool>, moved: set<(int, int)>)
      reads wasMoved
    {
      forall i, j :: 0 <= i < wasMoved.Length0 && 0 <= j < wasMoved.Length1 ==> (wasMoved[i, j] <==> (i, j) in moved)
    }

    /**
     * next_state: one tick. Visits every cell in raster order with a fresh
     * moved matrix; the result is the tick of module Traffic.
     */
    method NextState(spawn: (int, int) -> bool)
      requires Valid()
      modifies this, cells
      ensures Valid()
      ensures var t := Tick(old(Contents()), old(n), rows, columns, spawn);
        Contents() == t.board && n == t.n
    {
      var wasMoved := new bool[rows, columns]((_, _) => false);
      ghost var start := Scan(Contents(), {}, n);
      ghost var s := start;
      for y := 0 to rows
        invariant Tracks(wasMoved, s)
        invariant s == RowsPrefix(start, rows, columns, y, spawn)
      {
        ghost var before := s;
        s := ScanRow(y, wasMoved, spawn, s);
        assert RowsPrefix(start, rows, columns, y + 1, spawn) == RowPrefix(before, rows, columns, y, columns, spawn);
      }
    }

    /** next_state's inner loop: the visits of row y, left to right. */
    method ScanRow(y: nat, wasMoved: array2<bool>, spawn: (int, int) -> bool, ghost s: Scan) returns (ghost t: Scan)
      requires y < rows && Tracks(wasMoved, s)
      modifies this, cells, wasMoved
      ensures t == RowPrefix(s, rows, columns, y, columns, spawn) && Tracks(wasMoved, t)
    {
      t := s;
      for x := 0 to columns
        invariant Tracks(wasMoved, t)
        invariant t == RowPrefix(s, rows, columns, y, x, spawn)
      {
        ghost var before := t;
        t := Visit(y, x, wasMoved, spawn, t);
        assert RowPrefix(s, rows, columns, y, x + 1, spawn) == StepAt(before, rows, columns, y, x, spawn);
      }
    }

    /** The body of next_state's inner loop: the visit of cell (y, x). */
    method Visit(y: nat, x: nat, wasMoved: array2<bool>, spawn: (int, int) -> bool, ghost s: Scan)
      returns (ghost t: Scan)
      requires y < rows && x < columns && Tracks(wasMoved, s)
      modifies this, cells, wasMoved
      ensures t == StepAt(s, rows, columns, y, x, spawn) && Tracks(wasMoved, t)
    {
      t := s;
      var current := cells[y, x];
      if current.IsRoad() {
        if current.state == 1 && !wasMoved[y, x] {
          t := MoveCar(y, x, wasMoved, s);
        } else if current.state == 0 {
          t := SpawnCar(y, x, wasMoved, spawn, s);
        }
      }
    }

    /** The move half of a visit: the car on (y, x) advances, leaves the grid or stays blocked. */
    method MoveCar(y: nat, x: nat, wasMoved: array2<bool>, ghost s: Scan) returns (ghost t: Scan)
      requires y < rows && x < columns && Tracks(wasMoved, s)
      requires s.board[y][x].IsRoad() && s.board[y][x].state == 1
      modifies this, cells, wasMoved
      ensures t == Advance(s, rows, columns, y, x) && Tracks(wasMoved, t)
    {
      t := s;
      var current := cells[y, x];
      var o := current.orientation;
      var nextX: int, nextY: int := x, y;
      if current.HRoad? {
        var m := HMoves(y, x, o);
        nextX := nextX + o * m;
      } else {
        nextY := nextY + o;
      }
      assert Target(s.board, columns, y, x) == (nextY, nextX);
      if 0 <= nextX < columns && 0 <= nextY < rows {
        var nextCell := cells[nextY, nextX];
        if nextCell.state == 0 {
          t := Relocate(y, x, nextY, nextX, wasMoved, s);
        }
      } else {
        RemoveCar(y, x);
        t := Scan(RemoveAt(s.board, y, x), s.moved, s.n);
      }
    }

    /** Moves the car on (y, x) to the free cell (ty, tx) and marks the target as moved. */
    method Relocate(y: nat, x: nat, ty: nat, tx: nat, wasMoved: array2<bool>, ghost s: Scan) returns (ghost t: Scan)
      requires y < rows && x < columns && ty < rows && tx < columns && (ty, tx) != (y, x)
      requires Tracks(wasMoved, s)
      modifies this, cells, wasMoved
      ensures var ins := InsertAt(s.board, s.n, ty, tx, Some(s.board[y][x].color));
        t == Scan(RemoveAt(ins.0, y, x), s.moved + {(ty, tx)}, ins.1)
      ensures Tracks(wasMoved, t)
    {
      ghost var ins := InsertAt(s.board, s.n, ty, tx, Some(s.board[y][x].color));
      InsertCar(ty, tx, Some(cells[y, x].color));
      RemoveCar(y, x);
      assert Marks(wasMoved, s.moved);
      wasMoved[ty, tx] := true;
      t := Scan(RemoveAt(ins.0, y, x), s.moved + {(ty, tx)}, ins.1);
    }

    /** The spawn half of a visit: an empty entrance cell may receive a new car. */
    method SpawnCar(y: nat, x: nat, wasMoved: array2<bool>, spawn: (int, int) -> bool, ghost s: Scan)
      returns (ghost t: Scan)
      requires y < rows && x < columns && Tracks(wasMoved, s)
      requires s.board[y][x].IsRoad()
      modifies this, cells
      ensures t == Spawn(s, rows, columns, y, x, spawn) && Tracks(wasMoved, t)
    {
      t := s;
      var current := cells[y, x];
      var o := current.orientation;
      var alive := spawn(y, x);
      if alive {
        if current.VRoad? {
          if (y == 0 && o == 1) || (y == rows - 1 && o == -1) {
            InsertCar(y, x, None);
            t := Scan(Contents(), s.moved, n);
          }
        } else {
          if (x == 0 && o == 1) || (x == columns - 1 && o == -1) {
            InsertCar(y, x, None);
            t := Scan(Contents(), s.moved, n);
          }
        }
      }
    }

    /** What fill_with_cars leaves in a cell: a car where the oracle fired on a visited empty road, else the old cell. */
    static ghost predicate Seeded(fires: bool, before: Cell, after: Cell, visited: bool) {
      if visited && fires && before.IsRoad() && before.state == 0 then
        after.Lane() == before.Lane() && after.state == 1 && after.color in Palette
      else
        after == before
    }
  }
}
