/** Line segments on the screen plane (Geometry/Line2.cs), together with the
    `Vector2.To` factory. */
module Lines {
  import opened Numeric
  import opened Vectors2
  import opened Points

  datatype Line2 = Line2(from: Vector2, to: Vector2)

  function FromCoords(x1: real, y1: real, x2: real, y2: real): Line2 {
    Line2(Vector2(x1, y1), Vector2(x2, y2))
  }

  /** `Vector2.To(end)`: the segment from a position vector to another. */
  function To(start: Vector2, end: Vector2): Line2 {
    Line2(start, end)
  }

  /** `Point2.LineTo`: the segment from one point to another. */
  function LineTo(a: Point2, b: Point2): (l: Line2)
    ensures l.from == a.position && l.to == b.position
    ensures Sub(l.to, l.from) == Diff(b, a)
  {
    Line2(a.position, b.position)
  }

  /** The vector from the start of a segment to its end. */
  function Span(l: Line2): Vector2 {
    Sub(l.to, l.from)
  }

  /** The unit vector from `from` towards `to`; zero for a degenerate segment.
      Over the reals a segment is degenerate exactly when its span has a zero
      sum of squares, which is the form the contracts use. */
  function Direction(l: Line2, m: Maths): (r: Vector2)
    requires m.RootLaw()
    ensures l.from == l.to ==> r == Zero
    ensures SumSquares(Span(l)) != 0.0 ==> SumSquares(r) == 1.0 && Dot(r, Span(l)) > 0.0 && Cross(r, Span(l)) == 0.0
  {
    Normalized(Span(l), m)
  }

  /** The unit normal on the left of the direction of travel (the span turned a
      quarter counter-clockwise); zero for a degenerate segment. */
  function Normal(l: Line2, m: Maths): (r: Vector2)
    requires m.RootLaw()
    ensures l.from == l.to ==> r == Zero
    ensures SumSquares(Span(l)) != 0.0 ==> SumSquares(r) == 1.0 && Dot(r, Span(l)) == 0.0 && Cross(Span(l), r) > 0.0
  {
    var d := Span(l);
    var n := Vector2(-(l.to.y - l.from.y), l.to.x - l.from.x);
    assert SumSquares(n) == SumSquares(d);
    assert Dot(n, d) == 0.0;
    assert Cross(d, n) == SumSquares(d);
    NormalizedKeepsSigns(n, d, m);
    Normalized(n, m)
  }

  /** Normalising a vector scales it by a positive factor, which keeps the signs
      of its dot and cross products with any other vector. */
  lemma NormalizedKeepsSigns(n: Vector2, d: Vector2, m: Maths)
    requires m.RootLaw()
    ensures Dot(Normalized(n, m), d) == 0.0 <==> Dot(n, d) == 0.0
    ensures Cross(d, Normalized(n, m)) > 0.0 <==> Cross(d, n) > 0.0
  {
    var m2 := SumSquares(n);
    if m2 > 0.0 && m2 != 1.0 {
      var k := 1.0 / m.sqrt(m2);
      assert k > 0.0;
      assert Normalized(n, m) == Scale(n, k);
      assert Dot(Scale(n, k), d) == k * Dot(n, d);
      assert Cross(d, Scale(n, k)) == k * Cross(d, n);
    }
  }

  /** `line + delta`: both ends moved by the same vector. */
  function Translate(l: Line2, delta: Vector2): (r: Line2)
    ensures r.from == Add(l.from, delta) && r.to == Add(l.to, delta)
    ensures Span(r) == Span(l)
  {
    Line2(Add(l.from, delta), Add(l.to, delta))
  }

  /** The parallel segment at signed distance `distance` along the normal. */
  function Offset(l: Line2, distance: real, m: Maths): (r: Line2)
    requires m.RootLaw()
    ensures Span(r) == Span(l)
    ensures Sub(r.from, l.from) == Scale(Normal(l, m), distance)
  {
    Translate(l, Scale(Normal(l, m), distance))
  }

  /** Moving by a vector and back again restores the segment. */
  lemma TranslateInverse(l: Line2, delta: Vector2)
    ensures Translate(Translate(l, delta), Neg(delta)) == l
    ensures Translate(l, Zero) == l
  {
  }

  /** An offset segment lies at exactly `distance` from the original, measured
      perpendicular to it. */
  lemma OffsetDistance(l: Line2, distance: real, m: Maths)
    requires m.RootLaw() && SumSquares(Span(l)) != 0.0
    ensures SumSquares(Sub(Offset(l, distance, m).from, l.from)) == distance * distance
    ensures Dot(Sub(Offset(l, distance, m).from, l.from), Span(l)) == 0.0
  {
    var n := Normal(l, m);
    ScaledNormal(n, Span(l), distance);
  }

  lemma ScaledNormal(n: Vector2, d: Vector2, distance: real)
    requires SumSquares(n) == 1.0 && Dot(n, d) == 0.0
    ensures SumSquares(Scale(n, distance)) == distance * distance
    ensures Dot(Scale(n, distance), d) == 0.0
  {
    assert SumSquares(Scale(n, distance)) == distance * distance * SumSquares(n);
    assert Dot(Scale(n, distance), d) == distance * Dot(n, d);
  }

  /** A zero offset, and any offset of a degenerate segment, leave it in place. */
  lemma OffsetStill(l: Line2, distance: real, m: Maths)
    requires m.RootLaw()
    requires distance == 0.0 || l.from == l.to
    ensures Offset(l, distance, m) == l
  {
    var n := Normal(l, m);
    if l.from == l.to {
      assert n == Zero;
    }
    ScaleToZero(n, distance);
    TranslateInverse(l, Zero);
  }

  lemma ScaleToZero(n: Vector2, f: real)
    requires f == 0.0 || n == Zero
    ensures Scale(n, f) == Zero
  {
    if f == 0.0 {
      assert f * n.x == 0.0 && f * n.y == 0.0;
    }
  }
}
