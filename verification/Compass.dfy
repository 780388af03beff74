/** The four sides of a rectangle, and quantities along its two axes. */
module Compass {
  datatype Side = West | East | North | South

  /** A quantity along each of the two axes. */
  datatype Axes = Axes(x: real, y: real) {
    function Of(s: Side): real { if s == West || s == East then x else y }
    predicate Positive() { x > 0.0 && y > 0.0 }
  }
}
