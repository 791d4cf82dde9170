/** Integer points (QPoint) and real points (QPointF) with the min/max helpers
    the editor's geometry uses (qMin, qMax). */
module Geometry {

  /** A QPoint: also used for the QSize of a node as a (width, height) vector. */
  datatype Point = Point(x: int, y: int) {
    function Plus(o: Point): Point { Point(x + o.x, y + o.y) }
    function Minus(o: Point): Point { Point(x - o.x, y - o.y) }
  }

  /** A QPointF, compared exactly. */
  datatype PointF = PointF(x: real, y: real)

  /** The default-constructed QPoint. */
  const Origin := Point(0, 0)

  /** The default-constructed QPointF. */
  const OriginF := PointF(0.0, 0.0)

  function Min(a: int, b: int): int { if a <= b then a else b }

  function Max(a: int, b: int): int { if a >= b then a else b }
}
