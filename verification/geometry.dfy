/** Points of the plane and the distance every algorithm measures with. */
module Geometry {

  /** A city. Coordinates are exact reals, so a midpoint is exact. */
  datatype Point = Point(x: real, y: real)

  /**
   * A distance between two points. The Euclidean square root of the source is
   * not modelled: every algorithm takes the distance as a parameter, and the
   * properties that need more than "some real number" name what they assume.
   */
  type Distance = (Point, Point) -> real

  ghost predicate NonNegative(dist: Distance) {
    forall p, q :: dist(p, q) >= 0.0
  }

  ghost predicate Symmetric(dist: Distance) {
    forall p, q :: dist(p, q) == dist(q, p)
  }

  ghost predicate ZeroOnSelf(dist: Distance) {
    forall p :: dist(p, p) == 0.0
  }


  function Min(a: real, b: real): real { if a <= b then a else b }
  function Max(a: real, b: real): real { if a <= b then b else a }

  /** The midpoint of two points (`Point::average`). */
  function Average(p: Point, q: Point): (m: Point)
    ensures Min(p.x, q.x) <= m.x <= Max(p.x, q.x)
    ensures Min(p.y, q.y) <= m.y <= Max(p.y, q.y)
    ensures m.x - p.x == q.x - m.x && m.y - p.y == q.y - m.y
    ensures p == q ==> m == p
  {
    Point((p.x + q.x) / 2.0, (p.y + q.y) / 2.0)
  }

  lemma AverageIsSymmetric(p: Point, q: Point)
    ensures Average(p, q) == Average(q, p)
  {
  }
}
