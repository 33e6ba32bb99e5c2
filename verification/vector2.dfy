/** Two-dimensional vectors (Geometry/Vector2.cs): the value type the screen-space
    primitives are built from. Components are reals; the `(float)` casts are not
    modelled. */
module Vectors2 {
  import opened Numeric

  datatype Vector2 = Vector2(x: real, y: real)

  const Zero: Vector2 := Vector2(0.0, 0.0)
  const UnitX: Vector2 := Vector2(1.0, 0.0)
  const UnitY: Vector2 := Vector2(0.0, 1.0)

  function SumSquares(v: Vector2): real {
    v.x * v.x + v.y * v.y
  }

  /** The length: the principal square root of the sum of squares. */
  function Magnitude(v: Vector2, m: Maths): (r: real)
    requires m.RootLaw()
    ensures 0.0 <= r && r * r == SumSquares(v)
  {
    SquaresNonNegative(v);
    m.sqrt(SumSquares(v))
  }

  lemma SquaresNonNegative(v: Vector2)
    ensures 0.0 <= SumSquares(v)
  {
  }

  function Add(a: Vector2, b: Vector2): Vector2 {
    Vector2(a.x + b.x, a.y + b.y)
  }

  function Scale(v: Vector2, factor: real): Vector2 {
    Vector2(factor * v.x, factor * v.y)
  }

  function Dot(a: Vector2, b: Vector2): real {
    a.x * b.x + a.y * b.y
  }

  /** The scalar cross product `a ^ b`: the z-component of the 3D cross product. */
  function Cross(a: Vector2, b: Vector2): real {
    a.x * b.y - a.y * b.x
  }

  /** The cross product `v ^ f` of a vector with an out-of-plane scalar `f`. */
  function CrossScalar(v: Vector2, f: real): Vector2 {
    Vector2(v.y * f, -v.x * f)
  }

  /** The cross product `f ^ v`, defined as `-(v ^ f)`. */
  function ScalarCross(f: real, v: Vector2): (r: Vector2)
    ensures Add(r, CrossScalar(v, f)) == Zero
  {
    Neg(CrossScalar(v, f))
  }

  /** Rotation counter-clockwise by `angle` about the origin. */
  function Rotate(v: Vector2, angle: real, m: Maths): Vector2 {
    var c, s := m.cos(angle), m.sin(angle);
    Vector2(v.x * c - v.y * s, v.x * s + v.y * c)
  }

  /** Unary minus, `a.Scale(-1)`. */
  function Neg(a: Vector2): (r: Vector2)
    ensures r == Vector2(-a.x, -a.y)
    ensures Add(a, r) == Zero
  {
    Scale(a, -1.0)
  }

  /** Binary minus, `a.Add(-b)`. */
  function Sub(a: Vector2, b: Vector2): (r: Vector2)
    ensures r == Vector2(a.x - b.x, a.y - b.y)
    ensures Add(r, b) == a
  {
    Add(a, Neg(b))
  }

  /** Division by a scalar, `a.Scale(1 / f)`. */
  function Div(a: Vector2, f: real): (r: Vector2)
    requires f != 0.0
    ensures r == Vector2(a.x / f, a.y / f)
    ensures Scale(r, f) == a
  {
    Scale(a, 1.0 / f)
  }

  /** The `==` operator: componentwise equality. */
  predicate Equals(a: Vector2, b: Vector2)
    ensures Equals(a, b) <==> a == b
  {
    a.x == b.x && a.y == b.y
  }

  /** The `!=` operator. */
  predicate NotEquals(a: Vector2, b: Vector2)
    ensures NotEquals(a, b) <==> a != b
  {
    !Equals(a, b)
  }

  /** Scales to unit length; the zero vector and unit vectors are returned as they are. */
  function Normalized(v: Vector2, m: Maths): (r: Vector2)
    requires m.RootLaw()
    ensures SumSquares(v) == 0.0 || SumSquares(v) == 1.0 ==> r == v
    ensures SumSquares(v) != 0.0 ==> SumSquares(r) == 1.0
    ensures SumSquares(v) != 0.0 ==> Dot(r, v) > 0.0 && Cross(r, v) == 0.0
  {
    var m2 := SumSquares(v);
    if m2 > 0.0 && m2 != 1.0 then
      var s := m.sqrt(m2);
      NormalizeBy(v, s);
      Div(v, s)
    else
      v
  }

  lemma NormalizeBy(v: Vector2, s: real)
    requires s > 0.0 && s * s == SumSquares(v)
    ensures SumSquares(Div(v, s)) == 1.0
    ensures Dot(Div(v, s), v) > 0.0
    ensures Cross(Div(v, s), v) == 0.0
  {
    var k := 1.0 / s;
    assert Div(v, s) == Scale(v, k);
    assert SumSquares(Scale(v, k)) == k * k * SumSquares(v);
    assert k * k * (s * s) == 1.0;
    assert Dot(Scale(v, k), v) == k * SumSquares(v);
  }

  // ---------------------------------------------------------------------------
  // Properties of the algebra

  /** The dot product is symmetric and the scalar cross product antisymmetric;
      a vector crossed with itself is zero. */
  lemma ProductSymmetry(a: Vector2, b: Vector2)
    ensures Dot(a, b) == Dot(b, a)
    ensures Cross(a, b) == -Cross(b, a)
    ensures Cross(a, a) == 0.0
    ensures Dot(a, a) == SumSquares(a)
  {
  }

  /** `v ^ f` is `v` turned a quarter clockwise and scaled by `f`: it is
      perpendicular to `v`, its length is |f| times that of `v`, and it lies
      on the clockwise side of `v`. */
  lemma CrossScalarPerpendicular(v: Vector2, f: real)
    ensures Dot(CrossScalar(v, f), v) == 0.0
    ensures SumSquares(CrossScalar(v, f)) == f * f * SumSquares(v)
    ensures Cross(v, CrossScalar(v, f)) == -f * SumSquares(v)
  {
    assert SumSquares(CrossScalar(v, f)) == (v.y * f) * (v.y * f) + (-v.x * f) * (-v.x * f);
  }

  /** A rotation keeps the sum of squares when cos² + sin² = 1. */
  lemma RotateKeepsSumSquares(v: Vector2, angle: real, m: Maths)
    requires m.TrigLaw()
    ensures SumSquares(Rotate(v, angle, m)) == SumSquares(v)
  {
    var c, s := m.cos(angle), m.sin(angle);
    assert c * c + s * s == 1.0;
    PlaneRotationKeepsSquares(v.x, v.y, c, s);
  }

  lemma PlaneRotationKeepsSquares(p: real, q: real, c: real, s: real)
    requires c * c + s * s == 1.0
    ensures (p * c - q * s) * (p * c - q * s) + (p * s + q * c) * (p * s + q * c) == p * p + q * q
  {
    calc {
      (p * c - q * s) * (p * c - q * s) + (p * s + q * c) * (p * s + q * c);
      p * p * (c * c + s * s) + q * q * (c * c + s * s);
      p * p + q * q;
    }
  }

  /** A rotation by zero is the identity, and a rotation by `-angle` undoes one by `angle`. */
  lemma RotateInverse(v: Vector2, angle: real, m: Maths)
    requires m.TrigLaw() && m.Reflects(angle)
    ensures Rotate(v, 0.0, m) == v
    ensures Rotate(Rotate(v, angle, m), -angle, m) == v
  {
    var c, s := m.cos(angle), m.sin(angle);
    assert c * c + s * s == 1.0;
    var p, q := v.x, v.y;
    assert (p * c - q * s) * c - (p * s + q * c) * -s == p * (c * c + s * s);
    assert (p * c - q * s) * -s + (p * s + q * c) * c == q * (c * c + s * s);
  }
}
