/** Points and the Euclidean distance (euclidean_distance in
    template_code/verify_solution.py, calculate_distance in
    submissions/team2/functions.py).

    Dafny has no square root, so the distance is a parameter `dist` of every
    operation that measures a tour. What the model needs of it is what the
    square root of SquaredDistance has: symmetry, zero on identical points
    and non-negativity (MetricLike). The lemmas below prove the first and the
    last of these for the radicand itself; that it is zero on identical
    points is immediate from its definition. */
module Geometry {

  datatype Point = Point(x: real, y: real)

  type Distance = (Point, Point) -> real

  /** The radicand of euclidean_distance: (x1 - x2)^2 + (y1 - y2)^2. */
  function SquaredDistance(p: Point, q: Point): real
  {
    (p.x - q.x) * (p.x - q.x) + (p.y - q.y) * (p.y - q.y)
  }

  /** The properties of the square root of SquaredDistance that the model
      relies on wherever a tour is measured. */
  ghost predicate MetricLike(dist: Distance) {
    (forall p, q :: dist(p, q) == dist(q, p)) &&
    (forall p :: dist(p, p) == 0.0) &&
    (forall p, q :: dist(p, q) >= 0.0)
  }

  lemma {:induction false} SquareNonNegative(d: real)
    ensures d * d >= 0.0
  {
  }

  lemma {:induction false} SquaredDistanceSymmetric(p: Point, q: Point)
    ensures SquaredDistance(p, q) == SquaredDistance(q, p)
  {
  }

  lemma {:induction false} SquaredDistanceNonNegative(p: Point, q: Point)
    ensures SquaredDistance(p, q) >= 0.0
  {
    SquareNonNegative(p.x - q.x);
    SquareNonNegative(p.y - q.y);
  }
}
