/** The `Cube` class: the single target the snake chases, placed on a cell
    drawn at random inside the area and drawn again once eaten. The random
    draw `[randrange(0, size) for size in area]` is a parameter, constrained
    to the range `randrange` returns. */
module Cube {
  import opened Grid

  /** The attribute `_pos`, read through the `pos` property. */
  datatype State = State(pos: Pos)

  /** `Cube.__init__`: the cube appears on the drawn cell, inside the area. */
  function Init(area: Area, draw: Pos): (c: State)
    requires InBounds(area, draw)
    ensures c.pos == draw
    ensures InBounds(area, c.pos)
  {
    State(draw)
  }

  /** `Cube.move`: the cube jumps to the newly drawn cell, wherever it was
      before; it is inside the area again. */
  function Move(c: State, area: Area, draw: Pos): (c': State)
    requires InBounds(area, draw)
    ensures c'.pos == draw
    ensures InBounds(area, c'.pos)
  {
    State(draw)
  }
}
