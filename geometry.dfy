/** Positions on the firework canvas, in pixels, measured from the top-left corner. */
module Geometry {

  /** A point of the canvas; coordinates may be fractional, as the centring offset halves the box's sides. */
  datatype Point = Point(x: real, y: real)
}
