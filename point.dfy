/**
 The `Point` class that both handle variants wrap: a pair of coordinates with getters
 and setters that write one coordinate in place and return the point itself.
 */
module Points {

  /** A plain pair of coordinates. */
  datatype Point = Point(x: int, y: int)

  /** The value of `Point()`. */
  const Origin: Point := Point(0, 0)
}
