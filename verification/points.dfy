/** Points on the screen plane (Geometry/Point2.cs): a position vector with
    translation by a vector and the difference of two points. */
module Points {
  import opened Vectors2

  datatype Point2 = Point2(position: Vector2)

  function FromCoords(x: real, y: real): Point2 {
    Point2(Vector2(x, y))
  }

  /** `Vector2.Here()` and the implicit conversion: the point at a position vector. */
  function Here(v: Vector2): (p: Point2)
    ensures Diff(p, Origin) == v
  {
    Point2(v)
  }

  const Origin: Point2 := Point2(Zero)

  /** `point + delta`: the point moved by a vector. */
  function Translate(p: Point2, delta: Vector2): Point2 {
    Point2(Add(p.position, delta))
  }

  /** `to - from`: the vector from one point to another. */
  function Diff(to: Point2, from: Point2): Vector2 {
    Sub(to.position, from.position)
  }

  /** Moving a point and taking differences are inverse to each other. */
  lemma TranslateDiff(p: Point2, q: Point2, delta: Vector2)
    ensures Diff(Translate(p, delta), p) == delta
    ensures Translate(p, Diff(q, p)) == q
    ensures Diff(p, p) == Zero
  {
  }

  /** Differences are unchanged when both points move by the same vector. */
  lemma DiffInvariant(p: Point2, q: Point2, delta: Vector2)
    ensures Diff(Translate(q, delta), Translate(p, delta)) == Diff(q, p)
  {
  }
}
