/** The cell kinds of the traffic grid: obstacles and the two road kinds. */
module Cells {

  /** An optional value, for the colour argument of insert_car that may be left out. */
  datatype Option<T> = None | Some(value: T)

  /** An RGB colour triple, as the simulator paints it. */
  datatype Color = RGB(red: int, green: int, blue: int)

  /** The colour of an empty road cell. */
  const White: Color := RGB(255, 255, 255)

  /** The colour of the obstacles that clear_grid lays down. */
  const Black: Color := RGB(0, 0, 0)

  /** The eight car colours the colour cursor cycles through. */
  const Palette: seq<Color> := [
    RGB(0, 186, 153), RGB(255, 0, 0), RGB(0, 255, 0), RGB(0, 0, 255),
    RGB(254, 149, 0), RGB(64, 100, 55), RGB(206, 100, 50), RGB(176, 100, 50)
  ]

  /** The direction of a road: +1 is right (or down), -1 is left (or up). */
  type Orientation = o: int | o == 1 || o == -1 witness 1

  /**
   * A grid cell. `state` is 1 when the cell is filled and any other value
   * when it is not; the operations only ever write 0 and 1. An obstacle
   * carries a state too, and blocks exactly when that state is 1.
   */
  datatype Cell =
    | Obstacle(color: Color, state: int)
    | HRoad(color: Color, state: int, orientation: Orientation)
    | VRoad(color: Color, state: int, orientation: Orientation)
  {
    predicate IsRoad() {
      HRoad? || VRoad?
    }

    /** The road layout a cell belongs to, forgetting the car on it. */
    function Lane(): LaneKind {
      match this
      case Obstacle(_, _) => NoLane
      case HRoad(_, _, o) => Horizontal(o)
      case VRoad(_, _, o) => Vertical(o)
    }

    /** The same cell holding a car of colour `paint`. */
    function Occupied(paint: Color): (c: Cell)
      ensures c.Lane() == Lane() && c.state == 1 && c.color == paint
    {
      this.(state := 1, color := paint)
    }

    /** What remove_car leaves in this cell: a road is emptied and painted white, an obstacle is kept. */
    function Vacated(): (c: Cell)
      ensures c.Lane() == Lane()
      ensures IsRoad() ==> c.state == 0 && c.color == White
      ensures !IsRoad() ==> c == this
    {
      if IsRoad() then this.(state := 0, color := White) else this
    }
  }

  /** The kind and direction of a cell, as laid out by fill. */
  datatype LaneKind = NoLane | Horizontal(o: Orientation) | Vertical(o: Orientation)

  /** Vacating is idempotent: removing a car twice is removing it once. */
  lemma VacatedIdempotent(c: Cell)
    ensures c.Vacated().Vacated() == c.Vacated()
  {
  }
}
