/** The pixel target. The framebuffer's own file is not part of this model:
    here a framebuffer is the sequence of points drawn into it, each with the
    colour that was current when it was drawn. */
module Framebuffers {
  import opened Colors

  /** One `draw_point` call: the cell (x, y) and the colour written there. */
  datatype Dot = Dot(x: int, y: int, color: Color)

  /** The point `d` is the cell (x, y), whatever its colour. */
  predicate At(d: Dot, x: int, y: int) {
    d.x == x && d.y == y
  }

  class Framebuffer {
    var width: nat
    var height: nat
    var currentColor: Color
    var drawn: seq<Dot>

    /** set_current_color */
    method SetCurrentColor(c: Color)
      modifies this`currentColor
      ensures currentColor == c
    {
      currentColor := c;
    }

    /** draw_point: writes the current colour at (x, y). */
    method DrawPoint(x: int, y: int)
      modifies this`drawn
      ensures drawn == old(drawn) + [Dot(x, y, currentColor)]
    {
      drawn := drawn + [Dot(x, y, currentColor)];
    }
  }
}
