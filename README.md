# Traffic grid simulator, modelled in Dafny

This project models the simulation engine of a small cellular traffic
simulator (`grid.py`). The grid is a fixed `rows` × `columns` array of cells.
Each cell is one of three kinds:

- an obstacle;
- a horizontal road (orientation +1 = right, −1 = left);
- a vertical road (orientation +1 = down, −1 = up).

Every cell carries a colour and a state (1 = filled by a car). The grid also
keeps a colour cursor `n`: each car inserted without a colour takes the next
of eight palette colours.

The car operations are `insert_car`, `remove_car`, `fill`, `clear_cars`,
`clear_grid` and `fill_with_cars`. They update the array in place. The
horizontal look-ahead `h_moves` decides how far a horizontal car may go.
A tick, `next_state`, is a raster scan that:

- moves each car at most once, using a tick-local `was_moved` matrix;
- removes cars that drive off the grid;
- may spawn new cars on empty lane entrances.

The project is laid out as follows:

- `cells.dfy` (module `Cells`): the cell kinds, as values.
- `traffic.dfy` (module `Traffic`): the reference semantics as functions on
  a board value (`seq<seq<Cell>>`). This covers `insert_car`, `remove_car`,
  `h_moves` and one visit of the scan (`StepAt`, split into `Advance` for a
  car and `Spawn` for an empty cell). It also has the left folds that match
  the two nested loops, and the whole tick.
- `grid.dfy` (module `Engine`): the imperative class `Grid` with an
  `array2<Cell>` and the cursor `n`. Each method is proved to leave exactly
  the state the `Traffic` functions give. `next_state`'s loop body goes
  through `Visit`, `MoveCar`, `Relocate` and `SpawnCar`, which are the
  branches of the source's loop body.
- `tickfacts.dfy` (module `TickFacts`): what a single visit does, case by
  case, and that a tick keeps the lane layout and 0/1 states.
- `counting.dfy` (module `Counting`): car counting, and the proof that a tick
  whose spawn oracle never fires never increases the number of cars.
- `scenarios.dfy` (module `Scenarios`): worked ticks on concrete lanes.

The random choices (`numpy.random.choice`) are replaced by oracle
parameters of type `(int, int) -> bool`: `spawn` for `next_state` and
`alive` for `fill_with_cars`. `alive` is consulted once per visited cell;
`spawn` is consulted once per visited empty road cell (grid.py:207-208).

In four places the code behaves in a way a reader may not expect; the model
follows the code:

- `next_state` updates the grid in place while it scans. A later cell
  therefore sees the moves already made in this tick. Cars marked in
  `was_moved` are the only ones not moved twice.
- The comment at grid.py:7 calls a cell empty whenever its state is not 1,
  and `h_moves` treats any state other than 1 as free (grid.py:158), while
  `next_state` moves only onto a state of exactly 0 (grid.py:198). With 0/1 states the
  two agree (`Traffic.HorizontalMovesPathFree`), and a tick keeps states
  0/1 (`TickFacts.TickKeepsLayout`).
- A car whose target is an in-grid obstacle with state 0 is lost. The
  insertion there does nothing and the origin is still emptied
  (`TickFacts.StepAtMovesCar`).
- `h_moves` looks only at states, so a horizontal car also jumps over an
  obstacle whose state is 0 when the cell behind it is free
  (`Scenarios.CarJumpsUnfilledObstacle`, grid.py:158-164).

## Model

| member | source | states |
|---|---|---|
| Cells.Cell.Occupied | grid.py:103-116 | the car-holding version of a cell keeps the cell's kind and direction, has state 1 and the given colour |
| Cells.Cell.Vacated | grid.py:93-97 | a road cell becomes empty (state 0) and white with its kind and direction kept; an obstacle is returned unchanged |
| Cells.VacatedIdempotent | grid.py:93-97 | emptying a cell twice is emptying it once |
| Traffic.Layout | grid.py:26-34 | the layout has the board's shape and gives each cell's kind and direction |
| Traffic.LayoutPut | grid.py:122 | replacing a cell by one of the same kind and direction keeps the layout |
| Traffic.Put | grid.py:122 | writing one cell changes that cell to the new value, keeps the shape and leaves every other cell unchanged |
| Traffic.InsertAt | grid.py:100-116 | nothing changes unless the cell is a road with state 0; otherwise the cell keeps its kind and direction and gets state 1 and either the given colour (cursor unchanged) or, with no colour, cursor (n+1) % 8 and that palette colour; no other cell changes; the cursor is unchanged or in 0..7 |
| Traffic.RemoveAt | grid.py:93-97 | an obstacle leaves the board unchanged; a road cell gets state 0 and white with its kind and direction kept; no other cell changes |
| Traffic.RemoveAtIdempotent | grid.py:93-97 | remove_car twice on the same cell equals remove_car once |
| Traffic.HorizontalMoves | grid.py:148-168 | the result is at most 2; it is 0 exactly when the first cell ahead is in the grid with state 1; it is 1 when the first cell ahead is off the grid, or when the first is free and the second is off the grid or filled; it is at most 1 when the first cell ahead is a vertical road (the intersection cap); it is 2 exactly when both cells ahead are in the grid and not filled and the first is not a vertical road |
| Traffic.HorizontalMovesPathFree | grid.py:155-160 | with 0/1 states, every in-grid cell the look-ahead passes over or lands on has state 0 |
| Traffic.Target | grid.py:188-193 | a vertical car aims at row y + o of its column; a horizontal car stays in its row and aims 0, o or 2·o columns ahead |
| Traffic.Advance | grid.py:187-204 | a car's move keeps the board's shape and the colour cursor |
| Traffic.Spawn | grid.py:207-215 | a spawn attempt keeps the board's shape and the moved set, and keeps the cursor in 0..7 |
| Traffic.StepAt | grid.py:182-215 | one visit keeps the board's shape and the cursor in 0..7 |
| Traffic.RowPrefix | grid.py:180-215 | scanning part of a row keeps the board's shape and the cursor in 0..7 |
| Traffic.RowsPrefix | grid.py:179-215 | scanning whole rows keeps the board's shape and the cursor in 0..7 |
| Traffic.Tick | grid.py:171-215 | a tick keeps the board's shape and the cursor in 0..7 |
| TickFacts.StepAtMovesCar | grid.py:196-201 | a car not yet moved whose target is in the grid with state 0 leaves its cell empty and white; a road target gets state 1 and the car's colour (an obstacle target is unchanged); the target is marked as moved, the cursor is kept, and no other cell changes |
| TickFacts.StepAtExits | grid.py:203-204 | a car whose target is off the grid is removed (state 0, white, kind kept) and nothing else changes |
| TickFacts.StepAtBlocked | grid.py:196-198 | a car whose in-grid target has a state other than 0 stays, and the scan state is unchanged |
| TickFacts.StepAtSkipsMoved | grid.py:175-187 | a car on a cell already marked in was_moved is not moved again: the visit changes nothing |
| TickFacts.StepAtIntersectionCap | grid.py:161-164 | a horizontal car whose first cell ahead is a vertical road aims at most one column away |
| TickFacts.StepAtSpawnsOnlyAtEntrance | grid.py:205-215 | visiting an empty road cell changes the board only when the oracle fires there and the cell is a lane entrance; then the cursor advances modulo 8 and the cell takes a car of that palette colour; otherwise the scan state is unchanged |
| TickFacts.InsertAtKeepsLayout | grid.py:100-116 | insert_car keeps every cell's kind and direction |
| TickFacts.RemoveAtKeepsLayout | grid.py:93-97 | remove_car keeps every cell's kind and direction |
| TickFacts.StepAtKeepsLayout | grid.py:182-215 | one visit keeps every cell's kind and direction |
| TickFacts.RowPrefixStepKeepsLayout | grid.py:180-215 | the visit after a row prefix keeps the layout |
| TickFacts.RowPrefixKeepsLayout | grid.py:180-215 | scanning part of a row keeps the layout |
| TickFacts.RowsPrefixStepKeepsLayout | grid.py:179-215 | scanning one more row keeps the layout |
| TickFacts.RowsPrefixKeepsLayout | grid.py:179-215 | scanning whole rows keeps the layout |
| TickFacts.StepAtKeepsBinary | grid.py:182-215 | a visit keeps every state 0 or 1 |
| TickFacts.RowPrefixStepKeepsBinary | grid.py:180-215 | the visit after a row prefix keeps every state 0 or 1 |
| TickFacts.RowPrefixKeepsBinary | grid.py:180-215 | scanning part of a row keeps every state 0 or 1 |
| TickFacts.RowsPrefixKeepsBinary | grid.py:179-215 | scanning whole rows keeps every state 0 or 1 |
| TickFacts.TickKeepsLayout | grid.py:171-215 | a tick never changes which cells are obstacles or roads, or the roads' directions, and keeps 0/1 states |
| Counting.RowCarsUpdate | grid.py:122 | replacing one cell of a row changes its car count by the old and new cell's weight |
| Counting.CarsUpdateRow | grid.py:122 | replacing one row changes the board's car count by the old and new row's count |
| Counting.CarsPut | grid.py:122 | writing one cell changes the car count by the old and new cell's weight |
| Counting.CarsInsertAt | grid.py:100-116 | insert_car adds exactly one car when the cell is an empty road and none otherwise |
| Counting.CarsRemoveAt | grid.py:93-97 | remove_car takes away the car on the cell, if any, and no other |
| Counting.EmptyRowHasNoCars | grid.py:7 | a row whose cells all have state 0 holds no car |
| Counting.CarsStepAt | grid.py:182-215 | a visit adds at most one car, and none unless the spawn oracle fires at that cell and the cell is a road lane entrance |
| Counting.CarsRowPrefix | grid.py:180-215 | with a silent oracle, scanning part of a row never adds a car |
| Counting.CarsRowsPrefix | grid.py:179-215 | with a silent oracle, scanning whole rows never adds a car |
| Counting.TickNeverAddsCars | grid.py:171-215 | when the spawn oracle never fires, a tick never increases the number of cars |
| Engine.Grid.constructor | grid.py:75-80 | the grid has the given dimensions, every cell is the given cell, and the cursor is 0 |
| Engine.Grid.RemoveCar | grid.py:93-97 | the new cells are remove_car's board of the old cells |
| Engine.Grid.InsertCar | grid.py:100-116 | the new cells and cursor are insert_car's board and cursor of the old ones; the cursor stays in 0..7 |
| Engine.Grid.Fill | grid.py:119-122 | exactly the cells in the inclusive rectangle become the element; all others are unchanged; an empty rectangle changes nothing |
| Engine.Grid.ClearGrid | grid.py:133-136 | every cell becomes a black obstacle with state 1 |
| Engine.Grid.ClearCars | grid.py:139-145 | every road cell becomes empty and white with its kind and direction kept; every obstacle is unchanged |
| Engine.Grid.FillWithCars | grid.py:125-130 | where the oracle fires on an empty road cell, that cell gets a car (state 1, a palette colour, kind kept); every other cell is unchanged |
| Engine.Grid.HMoves | grid.py:148-168 | the loop's result equals the look-ahead function on the current cells |
| Engine.Grid.NextState | grid.py:171-215 | the new cells and cursor are exactly the tick of the old cells and cursor under the spawn oracle |
| Engine.Grid.ScanRow | grid.py:180-215 | the inner loop over row y turns the grid and the moved matrix into the row-prefix scan state |
| Engine.Grid.Visit | grid.py:182-215 | one loop-body execution maps the tracked scan state to StepAt of it |
| Engine.Grid.MoveCar | grid.py:187-204 | the car branch maps the tracked scan state to Advance of it |
| Engine.Grid.Relocate | grid.py:198-201 | inserting at the free target, removing at the origin and setting was_moved there give the insert-then-remove board, the target added to the moved set, and the insertion's cursor |
| Engine.Grid.SpawnCar | grid.py:207-215 | the empty-cell branch maps the tracked scan state to Spawn of it |
| Scenarios.CarAdvancesTwo | grid.py:148-168 | on a free 1 × 5 lane a car at column 0 ends the tick at column 2 |
| Scenarios.QuietStretch | grid.py:205-215 | with a silent oracle, visiting empty cells changes nothing |
| Scenarios.VisitBeforeLastColumn | grid.py:165-167 | a car one cell before the edge advances exactly one cell |
| Scenarios.CarReachesLastColumn | grid.py:165-167 | a car at column 8 of a 10-cell lane is at column 9 after one tick |
| Scenarios.VisitLastColumn | grid.py:203-204 | a car on the last column, facing the edge, is removed |
| Scenarios.CarLeavesTheGrid | grid.py:203-204 | a car at the last column leaves the grid in one tick, and no car is left |
| Scenarios.QueueBeforeWall | grid.py:196-198 | two cars queued before a filled obstacle both stay put |
| Scenarios.CarJumpsUnfilledObstacle | grid.py:158-164 | a right-bound car before an obstacle of state 0 with a free cell behind it looks two cells ahead and aims past the obstacle |

## Left out

- The `draw` methods (grid.py:16-20, 37-45, 58-66, 87-90) do pygame rendering with floating-point scale arithmetic. They are not modelled.
- ui.py, the event loop, keyboard and mouse editing and frame pacing, are not part of this model.
- The probabilities of `numpy.random.choice` (0.25 / 0.75) are not modelled. Each draw is an oracle parameter.
- `__copy__` is not a separate member. Cells are values, so a copy is the cell itself, and `fill` writes the element directly.
- `Grid.__init__` fills the array with one shared obstacle object, and ui.py does the same with `cells.fill`. The model does not capture this aliasing. The car operations never change an obstacle, so values behave the same, except when a road cell is passed as the initial cell.
- Negative and out-of-range indices are not modelled. numpy wraps negative indices and raises IndexError past the end. The public operations instead require in-range coordinates, and `fill` requires its rectangle to lie inside the grid when it is non-empty.
- Cells.Orientation: only +1 and −1 are allowed. The source accepts any integer, but its comments and the UI use only these two.
- Engine.Grid.FillWithCars: states only that a seeded cell takes some palette colour. It does not say which one, which depends on how many insertions came before in the scan. The exact value is pinned by `InsertCar`'s contract at each step.
- Traffic.Advance, Traffic.Spawn, Traffic.StepAt, Traffic.RowPrefix, Traffic.RowsPrefix, Traffic.Tick: their own contracts state only shape and cursor range. What they do is stated by the TickFacts and Counting lemmas and pinned exactly by `Engine.Grid.NextState`.
