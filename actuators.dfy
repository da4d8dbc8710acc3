/** The actuator: a direction name and the position one move along it. */
module Actuation {
  import opened Utils

  /** The compass letter of the direction table that a direction name
      stands for; none for any other string. */
  function HeadingOf(direction: string): (h: Option<char>)
    ensures h.Some? ==> h.value in Directions
    ensures h.None? <==> direction !in {"UP", "DOWN", "LEFT", "RIGHT"}
  {
    if direction == "UP" then Some('N')
    else if direction == "DOWN" then Some('S')
    else if direction == "LEFT" then Some('W')
    else if direction == "RIGHT" then Some('E')
    else None
  }

  class Actuators {
    /** The direction name last set; any string is accepted. */
    var direction: string

    constructor ()
      ensures direction == "UP"
    {
      direction := "UP";
    }

    /** Stores `direction` as given, without validating it; nothing moves. */
    method SetDirection(direction: string)
      modifies this
      ensures this.direction == direction
    {
      this.direction := direction;
    }

    /** The position one move from `position` along the current direction:
        UP and DOWN change the row, LEFT and RIGHT the column, and any other
        name leaves the position where it is. */
    function Move(position: Pos): (p: Pos)
      reads this
      ensures HeadingOf(direction).Some? ==> p == Step(position, Directions[HeadingOf(direction).value])
      ensures HeadingOf(direction).None? ==> p == position
      ensures p == position || Adjacent(position, p)
    {
      var (x, y) := position;
      if direction == "UP" then (x - 1, y)
      else if direction == "DOWN" then (x + 1, y)
      else if direction == "LEFT" then (x, y - 1)
      else if direction == "RIGHT" then (x, y + 1)
      else (x, y)
    }
  }
}
