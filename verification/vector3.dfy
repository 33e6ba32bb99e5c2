/** Three-dimensional vectors (Geometry/Vector3.cs): an immutable value type with
    add, scale, dot, cross, the axis rotations and Rodrigues' rotation about an
    arbitrary axis. Components are reals; the `(float)` casts are not modelled. */
module Vectors3 {
  import opened Numeric

  datatype Vector3 = Vector3(x: real, y: real, z: real)

  const Zero: Vector3 := Vector3(0.0, 0.0, 0.0)
  const UnitX: Vector3 := Vector3(1.0, 0.0, 0.0)
  const UnitY: Vector3 := Vector3(0.0, 1.0, 0.0)
  const UnitZ: Vector3 := Vector3(0.0, 0.0, 1.0)

  function SumSquares(v: Vector3): real {
    v.x * v.x + v.y * v.y + v.z * v.z
  }

  /** The length: the principal square root of the sum of squares. */
  function Magnitude(v: Vector3, m: Maths): (r: real)
    requires m.RootLaw()
    ensures 0.0 <= r && r * r == SumSquares(v)
  {
    SquaresNonNegative(v);
    m.sqrt(SumSquares(v))
  }

  lemma SquaresNonNegative(v: Vector3)
    ensures 0.0 <= SumSquares(v)
  {
  }

  function Add(a: Vector3, b: Vector3): Vector3 {
    Vector3(a.x + b.x, a.y + b.y, a.z + b.z)
  }

  function Scale(v: Vector3, factor: real): Vector3 {
    Vector3(factor * v.x, factor * v.y, factor * v.z)
  }

  function Dot(a: Vector3, b: Vector3): real {
    a.x * b.x + a.y * b.y + a.z * b.z
  }

  function Cross(a: Vector3, b: Vector3): Vector3 {
    Vector3(a.y * b.z - a.z * b.y, a.z * b.x - a.x * b.z, a.x * b.y - a.y * b.x)
  }

  /** Unary minus, `a.Scale(-1)`: the componentwise opposite. */
  function Neg(a: Vector3): (r: Vector3)
    ensures r == Vector3(-a.x, -a.y, -a.z)
    ensures Add(a, r) == Zero
  {
    Scale(a, -1.0)
  }

  /** Binary minus, `a.Add(-b)`: the componentwise difference. */
  function Sub(a: Vector3, b: Vector3): (r: Vector3)
    ensures r == Vector3(a.x - b.x, a.y - b.y, a.z - b.z)
    ensures Add(r, b) == a
  {
    Add(a, Neg(b))
  }

  /** Division by a scalar, `a.Scale(1 / f)`: every component divided by `f`. */
  function Div(a: Vector3, f: real): (r: Vector3)
    requires f != 0.0
    ensures r == Vector3(a.x / f, a.y / f, a.z / f)
    ensures Scale(r, f) == a
  {
    Scale(a, 1.0 / f)
  }

  /** The `==` operator: componentwise equality, which on reals is value equality. */
  predicate Equals(a: Vector3, b: Vector3)
    ensures Equals(a, b) <==> a == b
  {
    a.x == b.x && a.y == b.y && a.z == b.z
  }

  /** The `!=` operator. */
  predicate NotEquals(a: Vector3, b: Vector3)
    ensures NotEquals(a, b) <==> a != b
  {
    !Equals(a, b)
  }

  /** Scales to unit length, except that a zero vector and a vector already of
      unit length are returned unchanged (no square root is taken for them). */
  function Normalized(v: Vector3, m: Maths): (r: Vector3)
    requires m.RootLaw()
    ensures SumSquares(v) == 0.0 || SumSquares(v) == 1.0 ==> r == v
    ensures SumSquares(v) != 0.0 ==> SumSquares(r) == 1.0
    ensures SumSquares(v) != 0.0 ==> Dot(r, v) > 0.0 && Cross(r, v) == Zero
  {
    var m2 := SumSquares(v);
    if m2 > 0.0 && m2 != 1.0 then
      var s := m.sqrt(m2);
      NormalizeBy(v, s);
      Div(v, s)
    else
      v
  }

  /** Dividing by the root of its own sum of squares gives a unit vector in the same direction. */
  lemma NormalizeBy(v: Vector3, s: real)
    requires s > 0.0 && s * s == SumSquares(v)
    ensures SumSquares(Div(v, s)) == 1.0
    ensures Dot(Div(v, s), v) > 0.0
    ensures Cross(Div(v, s), v) == Zero
  {
    var k := 1.0 / s;
    assert Div(v, s) == Scale(v, k);
    ScaleSquares(v, k);
    assert k * k * (s * s) == 1.0;
    assert Dot(Scale(v, k), v) == k * SumSquares(v);
  }

  lemma ScaleSquares(v: Vector3, k: real)
    ensures SumSquares(Scale(v, k)) == k * k * SumSquares(v)
  {
  }

  /** A positive rescaling by Normalized never changes the sign of a dot product. */
  lemma NormalizedSign(v: Vector3, w: Vector3, m: Maths)
    requires m.RootLaw()
    ensures Dot(w, Normalized(v, m)) > 0.0 <==> Dot(w, v) > 0.0
    ensures Dot(w, Normalized(v, m)) == 0.0 <==> Dot(w, v) == 0.0
  {
    var m2 := SumSquares(v);
    if m2 > 0.0 && m2 != 1.0 {
      var s := m.sqrt(m2);
      var k := 1.0 / s;
      assert Normalized(v, m) == Scale(v, k);
      assert Dot(w, Scale(v, k)) == k * Dot(w, v);
    }
  }

  function RotateX(v: Vector3, angle: real, m: Maths): Vector3 {
    var c, s := m.cos(angle), m.sin(angle);
    Vector3(v.x, v.y * c - v.z * s, v.y * s + v.z * c)
  }

  function RotateY(v: Vector3, angle: real, m: Maths): Vector3 {
    var c, s := m.cos(angle), m.sin(angle);
    Vector3(v.x * c + v.z * s, v.y, -v.x * s + v.z * c)
  }

  function RotateZ(v: Vector3, angle: real, m: Maths): Vector3 {
    var c, s := m.cos(angle), m.sin(angle);
    Vector3(v.x * c - v.y * s, v.x * s + v.y * c, v.z)
  }

  /** Rodrigues' rotation of `v` about `axis` (normalised first) by `angle`. */
  function RotateAbout(v: Vector3, axis: Vector3, angle: real, m: Maths): Vector3
    requires m.RootLaw()
  {
    Rodrigues(v, Normalized(axis, m), m.cos(angle), m.sin(angle))
  }

  /** The componentwise rotation formula, for an axis `k` already normalised and an
      angle given by its cosine `c` and sine `s`. */
  function Rodrigues(v: Vector3, k: Vector3, c: real, s: real): Vector3 {
    Vector3(RodriguesX(v, k, c, s), RodriguesY(v, k, c, s), RodriguesZ(v, k, c, s))
  }

  function RodriguesX(v: Vector3, k: Vector3, c: real, s: real): real {
    v.x + s * (v.z * k.y - v.y * k.z) + (1.0 - c) * (k.x * (v.y * k.y + v.z * k.z) - v.x * (k.y * k.y + k.z * k.z))
  }

  function RodriguesY(v: Vector3, k: Vector3, c: real, s: real): real {
    v.y + s * (v.x * k.z - v.z * k.x) + (1.0 - c) * (v.x * k.x * k.y - v.y * (k.x * k.x + k.z * k.z) + v.z * k.y * k.z)
  }

  function RodriguesZ(v: Vector3, k: Vector3, c: real, s: real): real {
    v.z + s * (v.y * k.x - v.x * k.y) + (1.0 - c) * (v.x * k.x * k.z + v.y * k.y * k.z - v.z * (k.x * k.x + k.y * k.y))
  }

  // ---------------------------------------------------------------------------
  // Properties of the algebra

  /** The cross product is orthogonal to both operands. */
  lemma CrossOrthogonal(a: Vector3, b: Vector3)
    ensures Dot(a, Cross(a, b)) == 0.0
    ensures Dot(b, Cross(a, b)) == 0.0
  {
    assert Dot(a, Cross(a, b)) == a.x * (a.y * b.z - a.z * b.y) + a.y * (a.z * b.x - a.x * b.z) + a.z * (a.x * b.y - a.y * b.x);
  }

  /** The cross product is antisymmetric and vanishes on equal operands. */
  lemma CrossAntisymmetric(a: Vector3, b: Vector3)
    ensures Cross(b, a) == Neg(Cross(a, b))
    ensures Cross(a, a) == Zero
  {
  }

  /** Each axis rotation leaves its own coordinate unchanged. */
  lemma RotationsFixTheirAxis(v: Vector3, angle: real, m: Maths)
    ensures RotateX(v, angle, m).x == v.x
    ensures RotateY(v, angle, m).y == v.y
    ensures RotateZ(v, angle, m).z == v.z
  {
  }

  /** Rotating the pair (p, q) by an angle whose cosine and sine satisfy c² + s² = 1
      keeps p² + q². */
  lemma PlaneRotationKeepsSquares(p: real, q: real, c: real, s: real)
    requires c * c + s * s == 1.0
    ensures (p * c - q * s) * (p * c - q * s) + (p * s + q * c) * (p * s + q * c) == p * p + q * q
  {
    calc {
      (p * c - q * s) * (p * c - q * s) + (p * s + q * c) * (p * s + q * c);
      p * p * (c * c + s * s) + q * q * (c * c + s * s);
      p * p + q * q;
    }
  }

  /** Each axis rotation preserves the sum of squares. */
  lemma RotationsKeepSumSquares(v: Vector3, angle: real, m: Maths)
    requires m.TrigLaw()
    ensures SumSquares(RotateX(v, angle, m)) == SumSquares(v)
    ensures SumSquares(RotateY(v, angle, m)) == SumSquares(v)
    ensures SumSquares(RotateZ(v, angle, m)) == SumSquares(v)
  {
    RotateXKeepsSumSquares(v, angle, m);
    RotateYKeepsSumSquares(v, angle, m);
    RotateZKeepsSumSquares(v, angle, m);
  }

  lemma RotateXKeepsSumSquares(v: Vector3, angle: real, m: Maths)
    requires m.TrigLaw()
    ensures SumSquares(RotateX(v, angle, m)) == SumSquares(v)
  {
    var c, s := m.cos(angle), m.sin(angle);
    assert c * c + s * s == 1.0;
    RotateXSquares(v, angle, m);
    PlaneRotationKeepsSquares(v.y, v.z, c, s);
  }

  lemma RotateXSquares(v: Vector3, angle: real, m: Maths)
    ensures var c, s := m.cos(angle), m.sin(angle);
      SumSquares(RotateX(v, angle, m)) == v.x * v.x + (v.y * c - v.z * s) * (v.y * c - v.z * s) + (v.y * s + v.z * c) * (v.y * s + v.z * c)
  {
  }

  lemma RotateYKeepsSumSquares(v: Vector3, angle: real, m: Maths)
    requires m.TrigLaw()
    ensures SumSquares(RotateY(v, angle, m)) == SumSquares(v)
  {
    var c, s := m.cos(angle), m.sin(angle);
    assert c * c + s * s == 1.0;
    RotateYSquares(v, angle, m);
    PlaneRotationKeepsSquares(v.z, v.x, c, s);
  }

  lemma RotateYSquares(v: Vector3, angle: real, m: Maths)
    ensures var c, s := m.cos(angle), m.sin(angle);
      SumSquares(RotateY(v, angle, m)) == (v.x * c + v.z * s) * (v.x * c + v.z * s) + v.y * v.y + (-v.x * s + v.z * c) * (-v.x * s + v.z * c)
  {
  }

  lemma RotateZKeepsSumSquares(v: Vector3, angle: real, m: Maths)
    requires m.TrigLaw()
    ensures SumSquares(RotateZ(v, angle, m)) == SumSquares(v)
  {
    var c, s := m.cos(angle), m.sin(angle);
    assert c * c + s * s == 1.0;
    RotateZSquares(v, angle, m);
    PlaneRotationKeepsSquares(v.x, v.y, c, s);
  }

  lemma RotateZSquares(v: Vector3, angle: real, m: Maths)
    ensures var c, s := m.cos(angle), m.sin(angle);
      SumSquares(RotateZ(v, angle, m)) == (v.x * c - v.y * s) * (v.x * c - v.y * s) + (v.x * s + v.y * c) * (v.x * s + v.y * c) + v.z * v.z
  {
  }

  /** Rotating by `-angle` undoes a rotation by `angle`. */
  lemma RotationsInvert(v: Vector3, angle: real, m: Maths)
    requires m.TrigLaw() && m.Reflects(angle)
    ensures RotateX(RotateX(v, angle, m), -angle, m) == v
    ensures RotateY(RotateY(v, angle, m), -angle, m) == v
    ensures RotateZ(RotateZ(v, angle, m), -angle, m) == v
  {
    RotateXInverts(v, angle, m);
    RotateYInverts(v, angle, m);
    RotateZInverts(v, angle, m);
  }

  lemma RotateXInverts(v: Vector3, angle: real, m: Maths)
    requires m.TrigLaw() && m.Reflects(angle)
    ensures RotateX(RotateX(v, angle, m), -angle, m) == v
  {
    var c, s := m.cos(angle), m.sin(angle);
    assert c * c + s * s == 1.0;
    PlaneInverse(v.y, v.z, c, s);
    var w := RotateX(v, angle, m);
    assert w == Vector3(v.x, v.y * c - v.z * s, v.y * s + v.z * c);
    assert RotateX(w, -angle, m) == Vector3(w.x, w.y * c - w.z * -s, w.y * -s + w.z * c);
  }

  lemma RotateYInverts(v: Vector3, angle: real, m: Maths)
    requires m.TrigLaw() && m.Reflects(angle)
    ensures RotateY(RotateY(v, angle, m), -angle, m) == v
  {
    var c, s := m.cos(angle), m.sin(angle);
    assert c * c + s * s == 1.0;
    PlaneInverse(v.z, v.x, c, s);
    var w := RotateY(v, angle, m);
    assert w == Vector3(v.x * c + v.z * s, v.y, -v.x * s + v.z * c);
    assert RotateY(w, -angle, m) == Vector3(w.x * c + w.z * -s, w.y, -w.x * -s + w.z * c);
  }

  lemma RotateZInverts(v: Vector3, angle: real, m: Maths)
    requires m.TrigLaw() && m.Reflects(angle)
    ensures RotateZ(RotateZ(v, angle, m), -angle, m) == v
  {
    var c, s := m.cos(angle), m.sin(angle);
    assert c * c + s * s == 1.0;
    PlaneInverse(v.x, v.y, c, s);
    var w := RotateZ(v, angle, m);
    assert w == Vector3(v.x * c - v.y * s, v.x * s + v.y * c, v.z);
    assert RotateZ(w, -angle, m) == Vector3(w.x * c - w.y * -s, w.x * -s + w.y * c, w.z);
  }

  lemma PlaneInverse(p: real, q: real, c: real, s: real)
    requires c * c + s * s == 1.0
    ensures (p * c - q * s) * c - (p * s + q * c) * -s == p
    ensures (p * c - q * s) * -s + (p * s + q * c) * c == q
  {
    assert (p * c - q * s) * c - (p * s + q * c) * -s == p * (c * c + s * s);
    assert (p * c - q * s) * -s + (p * s + q * c) * c == q * (c * c + s * s);
  }

  /** An axis already of unit length is used as it is. */
  lemma RotateAboutUnitAxis(v: Vector3, k: Vector3, angle: real, m: Maths)
    requires m.RootLaw() && SumSquares(k) == 1.0
    ensures RotateAbout(v, k, angle, m) == Rodrigues(v, k, m.cos(angle), m.sin(angle))
  {
    assert Normalized(k, m) == k;
  }

  lemma RodriguesAboutX(v: Vector3, angle: real, m: Maths)
    ensures Rodrigues(v, UnitX, m.cos(angle), m.sin(angle)) == RotateX(v, angle, m)
  {
  }

  lemma RodriguesAboutY(v: Vector3, angle: real, m: Maths)
    ensures Rodrigues(v, UnitY, m.cos(angle), m.sin(angle)) == RotateY(v, angle, m)
  {
  }

  lemma RodriguesAboutZ(v: Vector3, angle: real, m: Maths)
    ensures Rodrigues(v, UnitZ, m.cos(angle), m.sin(angle)) == RotateZ(v, angle, m)
  {
  }

  /** About a unit basis axis, Rodrigues' formula is exactly the axis rotation:
      the axis has sum of squares 1, so it is not renormalised. */
  lemma RotateAboutUnitX(v: Vector3, angle: real, m: Maths)
    requires m.RootLaw()
    ensures RotateAbout(v, UnitX, angle, m) == RotateX(v, angle, m)
  {
    RotateAboutUnitAxis(v, UnitX, angle, m);
    RodriguesAboutX(v, angle, m);
  }

  lemma RotateAboutUnitY(v: Vector3, angle: real, m: Maths)
    requires m.RootLaw()
    ensures RotateAbout(v, UnitY, angle, m) == RotateY(v, angle, m)
  {
    RotateAboutUnitAxis(v, UnitY, angle, m);
    RodriguesAboutY(v, angle, m);
  }

  lemma RotateAboutUnitZ(v: Vector3, angle: real, m: Maths)
    requires m.RootLaw()
    ensures RotateAbout(v, UnitZ, angle, m) == RotateZ(v, angle, m)
  {
    RotateAboutUnitAxis(v, UnitZ, angle, m);
    RodriguesAboutZ(v, angle, m);
  }

  lemma RodriguesStill(v: Vector3, k: Vector3, c: real, s: real)
    requires (c == 1.0 && s == 0.0) || k == Zero
    ensures Rodrigues(v, k, c, s) == v
  {
  }

  /** A zero angle and a zero axis both leave the vector where it is. */
  lemma RotateAboutIdentity(v: Vector3, axis: Vector3, angle: real, m: Maths)
    requires m.RootLaw() && m.TrigLaw()
    ensures RotateAbout(v, axis, 0.0, m) == v
    ensures RotateAbout(v, Zero, angle, m) == v
  {
    assert Normalized(Zero, m) == Zero;
    RodriguesStill(v, Normalized(axis, m), m.cos(0.0), m.sin(0.0));
    RodriguesStill(v, Zero, m.cos(angle), m.sin(angle));
  }

  /** For an axis of unit length, the component of `v` along the axis is unchanged
      by the rotation, and the axis itself is a fixed point. */
  lemma RotateAboutKeepsAxis(v: Vector3, axis: Vector3, angle: real, m: Maths)
    requires m.RootLaw()
    requires SumSquares(axis) == 1.0
    ensures Dot(RotateAbout(v, axis, angle, m), axis) == Dot(v, axis)
    ensures RotateAbout(axis, axis, angle, m) == axis
  {
    RotateAboutUnitAxis(v, axis, angle, m);
    RotateAboutUnitAxis(axis, axis, angle, m);
    RodriguesKeepsAxis(v, axis, m.cos(angle), m.sin(angle));
    RodriguesFixesAxis(axis, m.cos(angle), m.sin(angle));
  }

  // With k·k = 1 the formula equals c v + s (k × v) + (1 - c)(k·v) k. The proofs
  // below are split into small lemmas over plain reals in which the cross-product
  // component `w` and the dot products are named, so that no caller has to
  // rewrite a polynomial inside a product (which the solver handles poorly).

  lemma RodriguesTermX(v1: real, v2: real, v3: real, k1: real, k2: real, k3: real, c: real, s: real, w: real, kv: real)
    requires k1 * k1 + k2 * k2 + k3 * k3 == 1.0
    requires w == k2 * v3 - k3 * v2 && kv == k1 * v1 + k2 * v2 + k3 * v3
    ensures v1 + s * (v3 * k2 - v2 * k3) + (1.0 - c) * (k1 * (v2 * k2 + v3 * k3) - v1 * (k2 * k2 + k3 * k3))
         == c * v1 + s * w + ((1.0 - c) * kv) * k1
  {
    var t := 1.0 - c;
    calc {
      k1 * (v2 * k2 + v3 * k3) - v1 * (k2 * k2 + k3 * k3);
      { assert k2 * k2 + k3 * k3 == 1.0 - k1 * k1; }
      k1 * (v2 * k2 + v3 * k3) - v1 * (1.0 - k1 * k1);
      kv * k1 - v1;
    }
    assert t * (kv * k1 - v1) == (t * kv) * k1 - t * v1;
  }

  lemma RodriguesTermY(v1: real, v2: real, v3: real, k1: real, k2: real, k3: real, c: real, s: real, w: real, kv: real)
    requires k1 * k1 + k2 * k2 + k3 * k3 == 1.0
    requires w == k3 * v1 - k1 * v3 && kv == k1 * v1 + k2 * v2 + k3 * v3
    ensures v2 + s * (v1 * k3 - v3 * k1) + (1.0 - c) * (v1 * k1 * k2 - v2 * (k1 * k1 + k3 * k3) + v3 * k2 * k3)
         == c * v2 + s * w + ((1.0 - c) * kv) * k2
  {
    var t := 1.0 - c;
    calc {
      v1 * k1 * k2 - v2 * (k1 * k1 + k3 * k3) + v3 * k2 * k3;
      { assert k1 * k1 + k3 * k3 == 1.0 - k2 * k2; }
      v1 * k1 * k2 - v2 * (1.0 - k2 * k2) + v3 * k2 * k3;
      kv * k2 - v2;
    }
    assert t * (kv * k2 - v2) == (t * kv) * k2 - t * v2;
  }

  lemma RodriguesTermZ(v1: real, v2: real, v3: real, k1: real, k2: real, k3: real, c: real, s: real, w: real, kv: real)
    requires k1 * k1 + k2 * k2 + k3 * k3 == 1.0
    requires w == k1 * v2 - k2 * v1 && kv == k1 * v1 + k2 * v2 + k3 * v3
    ensures v3 + s * (v2 * k1 - v1 * k2) + (1.0 - c) * (v1 * k1 * k3 + v2 * k2 * k3 - v3 * (k1 * k1 + k2 * k2))
         == c * v3 + s * w + ((1.0 - c) * kv) * k3
  {
    var t := 1.0 - c;
    calc {
      v1 * k1 * k3 + v2 * k2 * k3 - v3 * (k1 * k1 + k2 * k2);
      { assert k1 * k1 + k2 * k2 == 1.0 - k3 * k3; }
      v1 * k1 * k3 + v2 * k2 * k3 - v3 * (1.0 - k3 * k3);
      kv * k3 - v3;
    }
    assert t * (kv * k3 - v3) == (t * kv) * k3 - t * v3;
  }

  /** The linear combination c v + s w + e k, written out by component. */
  function Combine(v: Vector3, w: Vector3, k: Vector3, c: real, s: real, e: real): Vector3 {
    Vector3(c * v.x + s * w.x + e * k.x, c * v.y + s * w.y + e * k.y, c * v.z + s * w.z + e * k.z)
  }

  lemma RegroupedX(v: Vector3, k: Vector3, c: real, s: real)
    requires SumSquares(k) == 1.0
    ensures RodriguesX(v, k, c, s) == c * v.x + s * Cross(k, v).x + ((1.0 - c) * Dot(k, v)) * k.x
  {
    ExpandedX(v, k, c, s);
    CollectedX(v, k, c, s);
  }

  lemma ExpandedX(v: Vector3, k: Vector3, c: real, s: real)
    ensures RodriguesX(v, k, c, s) == v.x + s * (v.z * k.y - v.y * k.z) + (1.0 - c) * (k.x * (v.y * k.y + v.z * k.z) - v.x * (k.y * k.y + k.z * k.z))
  {
  }

  lemma CollectedX(v: Vector3, k: Vector3, c: real, s: real)
    requires SumSquares(k) == 1.0
    ensures v.x + s * (v.z * k.y - v.y * k.z) + (1.0 - c) * (k.x * (v.y * k.y + v.z * k.z) - v.x * (k.y * k.y + k.z * k.z))
         == c * v.x + s * Cross(k, v).x + ((1.0 - c) * Dot(k, v)) * k.x
  {
    RodriguesTermX(v.x, v.y, v.z, k.x, k.y, k.z, c, s, Cross(k, v).x, Dot(k, v));
  }

  lemma RegroupedY(v: Vector3, k: Vector3, c: real, s: real)
    requires SumSquares(k) == 1.0
    ensures RodriguesY(v, k, c, s) == c * v.y + s * Cross(k, v).y + ((1.0 - c) * Dot(k, v)) * k.y
  {
    ExpandedY(v, k, c, s);
    CollectedY(v, k, c, s);
  }

  lemma ExpandedY(v: Vector3, k: Vector3, c: real, s: real)
    ensures RodriguesY(v, k, c, s) == v.y + s * (v.x * k.z - v.z * k.x) + (1.0 - c) * (v.x * k.x * k.y - v.y * (k.x * k.x + k.z * k.z) + v.z * k.y * k.z)
  {
  }

  lemma CollectedY(v: Vector3, k: Vector3, c: real, s: real)
    requires SumSquares(k) == 1.0
    ensures v.y + s * (v.x * k.z - v.z * k.x) + (1.0 - c) * (v.x * k.x * k.y - v.y * (k.x * k.x + k.z * k.z) + v.z * k.y * k.z)
         == c * v.y + s * Cross(k, v).y + ((1.0 - c) * Dot(k, v)) * k.y
  {
    RodriguesTermY(v.x, v.y, v.z, k.x, k.y, k.z, c, s, Cross(k, v).y, Dot(k, v));
  }

  lemma RegroupedZ(v: Vector3, k: Vector3, c: real, s: real)
    requires SumSquares(k) == 1.0
    ensures RodriguesZ(v, k, c, s) == c * v.z + s * Cross(k, v).z + ((1.0 - c) * Dot(k, v)) * k.z
  {
    ExpandedZ(v, k, c, s);
    CollectedZ(v, k, c, s);
  }

  lemma ExpandedZ(v: Vector3, k: Vector3, c: real, s: real)
    ensures RodriguesZ(v, k, c, s) == v.z + s * (v.y * k.x - v.x * k.y) + (1.0 - c) * (v.x * k.x * k.z + v.y * k.y * k.z - v.z * (k.x * k.x + k.y * k.y))
  {
  }

  lemma CollectedZ(v: Vector3, k: Vector3, c: real, s: real)
    requires SumSquares(k) == 1.0
    ensures v.z + s * (v.y * k.x - v.x * k.y) + (1.0 - c) * (v.x * k.x * k.z + v.y * k.y * k.z - v.z * (k.x * k.x + k.y * k.y))
         == c * v.z + s * Cross(k, v).z + ((1.0 - c) * Dot(k, v)) * k.z
  {
    RodriguesTermZ(v.x, v.y, v.z, k.x, k.y, k.z, c, s, Cross(k, v).z, Dot(k, v));
  }

  lemma RodriguesRegrouped(v: Vector3, k: Vector3, c: real, s: real)
    requires SumSquares(k) == 1.0
    ensures Rodrigues(v, k, c, s) == Combine(v, Cross(k, v), k, c, s, (1.0 - c) * Dot(k, v))
  {
    RegroupedX(v, k, c, s);
    RegroupedY(v, k, c, s);
    RegroupedZ(v, k, c, s);
    CombineParts(v, Cross(k, v), k, c, s, (1.0 - c) * Dot(k, v));
  }

  lemma CombineParts(v: Vector3, w: Vector3, k: Vector3, c: real, s: real, e: real)
    ensures Combine(v, w, k, c, s, e) == Vector3(c * v.x + s * w.x + e * k.x, c * v.y + s * w.y + e * k.y, c * v.z + s * w.z + e * k.z)
  {
  }

  /** (c v + s w + e k)·k expanded, with the dot products named. */
  lemma CombinationDot(v1: real, v2: real, v3: real, w1: real, w2: real, w3: real, k1: real, k2: real, k3: real,
                       c: real, s: real, e: real, kv: real, wk: real, kk: real)
    requires kv == k1 * v1 + k2 * v2 + k3 * v3
    requires wk == k1 * w1 + k2 * w2 + k3 * w3
    requires kk == k1 * k1 + k2 * k2 + k3 * k3
    ensures (c * v1 + s * w1 + e * k1) * k1 + (c * v2 + s * w2 + e * k2) * k2 + (c * v3 + s * w3 + e * k3) * k3
         == c * kv + s * wk + e * kk
  {
  }

  lemma CombineDot(v: Vector3, w: Vector3, k: Vector3, c: real, s: real, e: real)
    ensures Dot(Combine(v, w, k, c, s, e), k) == c * Dot(k, v) + s * Dot(k, w) + e * SumSquares(k)
  {
    var kv, kw, kk := Dot(k, v), Dot(k, w), SumSquares(k);
    assert Dot(Combine(v, w, k, c, s, e), k)
        == (c * v.x + s * w.x + e * k.x) * k.x + (c * v.y + s * w.y + e * k.y) * k.y + (c * v.z + s * w.z + e * k.z) * k.z;
    CombinationDot(v.x, v.y, v.z, w.x, w.y, w.z, k.x, k.y, k.z, c, s, e, kv, kw, kk);
  }

  lemma RodriguesKeepsAxis(v: Vector3, k: Vector3, c: real, s: real)
    requires SumSquares(k) == 1.0
    ensures Dot(Rodrigues(v, k, c, s), k) == Dot(v, k)
  {
    RodriguesRegrouped(v, k, c, s);
    CombineDot(v, Cross(k, v), k, c, s, (1.0 - c) * Dot(k, v));
    CrossOrthogonal(k, v);
    assert Dot(v, k) == Dot(k, v);
  }

  lemma RodriguesFixesAxis(k: Vector3, c: real, s: real)
    requires SumSquares(k) == 1.0
    ensures Rodrigues(k, k, c, s) == k
  {
    RodriguesRegrouped(k, k, c, s);
    assert Cross(k, k) == Zero;
    assert Dot(k, k) == 1.0;
  }

  /** Lagrange's identity: |k × v|² = |k|²|v|² - (k·v)². */
  lemma CrossSquares(k: Vector3, v: Vector3)
    ensures SumSquares(Cross(k, v)) == SumSquares(k) * SumSquares(v) - Dot(k, v) * Dot(k, v)
  {
  }

  /** |c v + s w + e k|² expanded into sums of squares and dot products. */
  lemma CombinationSquares(v1: real, v2: real, v3: real, w1: real, w2: real, w3: real, k1: real, k2: real, k3: real,
                           c: real, s: real, e: real)
    ensures (c * v1 + s * w1 + e * k1) * (c * v1 + s * w1 + e * k1)
          + (c * v2 + s * w2 + e * k2) * (c * v2 + s * w2 + e * k2)
          + (c * v3 + s * w3 + e * k3) * (c * v3 + s * w3 + e * k3)
         == c * c * (v1 * v1 + v2 * v2 + v3 * v3) + s * s * (w1 * w1 + w2 * w2 + w3 * w3)
          + e * e * (k1 * k1 + k2 * k2 + k3 * k3)
          + 2.0 * (c * s * (v1 * w1 + v2 * w2 + v3 * w3) + c * e * (k1 * v1 + k2 * v2 + k3 * v3)
                   + s * e * (k1 * w1 + k2 * w2 + k3 * w3))
  {
  }

  lemma RotationArithmetic(vv: real, kv: real, c: real, s: real)
    requires c * c + s * s == 1.0
    ensures c * c * vv + s * s * (vv - kv * kv) + ((1.0 - c) * kv) * ((1.0 - c) * kv) + 2.0 * (c * ((1.0 - c) * kv) * kv) == vv
  {
    var t := 1.0 - c;
    calc {
      c * c * vv + s * s * (vv - kv * kv) + (t * kv) * (t * kv) + 2.0 * (c * (t * kv) * kv);
      (c * c + s * s) * vv + (t * t + 2.0 * c * t - s * s) * (kv * kv);
      { assert t * t + 2.0 * c * t - s * s == 1.0 - c * c - s * s; }
      vv;
    }
  }

  lemma CombineSquares(v: Vector3, w: Vector3, k: Vector3, c: real, s: real, e: real)
    ensures SumSquares(Combine(v, w, k, c, s, e))
         == c * c * SumSquares(v) + s * s * SumSquares(w) + e * e * SumSquares(k)
          + 2.0 * (c * s * Dot(v, w) + c * e * Dot(k, v) + s * e * Dot(k, w))
  {
    CombinationSquares(v.x, v.y, v.z, w.x, w.y, w.z, k.x, k.y, k.z, c, s, e);
  }

  /** Rotation about an axis of unit length is rigid: it keeps the sum of squares. */
  lemma RodriguesKeepsSumSquares(v: Vector3, k: Vector3, c: real, s: real)
    requires SumSquares(k) == 1.0 && c * c + s * s == 1.0
    ensures SumSquares(Rodrigues(v, k, c, s)) == SumSquares(v)
  {
    RodriguesSquares(v, k, c, s);
    CombineSquares(v, Cross(k, v), k, c, s, (1.0 - c) * Dot(k, v));
    CrossOrthogonal(k, v);
    CrossSquares(k, v);
    SquaresCollect(SumSquares(Rodrigues(v, k, c, s)), SumSquares(v), SumSquares(Cross(k, v)), SumSquares(k),
                   Dot(k, v), Dot(v, Cross(k, v)), Dot(k, Cross(k, v)), c, s, (1.0 - c) * Dot(k, v));
  }

  lemma RodriguesSquares(v: Vector3, k: Vector3, c: real, s: real)
    requires SumSquares(k) == 1.0
    ensures SumSquares(Rodrigues(v, k, c, s))
         == SumSquares(Combine(v, Cross(k, v), k, c, s, (1.0 - c) * Dot(k, v)))
  {
    RodriguesRegrouped(v, k, c, s);
  }

  /** The sum of squares of the regrouped form, once the orthogonality and unit
      length facts are substituted. */
  lemma SquaresCollect(total: real, vv: real, ww: real, kk: real, kv: real, vw: real, kw: real, c: real, s: real, e: real)
    requires total == c * c * vv + s * s * ww + e * e * kk + 2.0 * (c * s * vw + c * e * kv + s * e * kw)
    requires kk == 1.0 && ww == kk * vv - kv * kv && vw == 0.0 && kw == 0.0
    requires e == (1.0 - c) * kv && c * c + s * s == 1.0
    ensures total == vv
  {
    assert total == c * c * vv + s * s * (vv - kv * kv) + e * e + 2.0 * (c * e * kv);
    RotationArithmetic(vv, kv, c, s);
  }

  /** Rotation about any non-zero axis keeps the sum of squares. */
  lemma RotateAboutKeepsSumSquares(v: Vector3, axis: Vector3, angle: real, m: Maths)
    requires m.RootLaw() && m.TrigLaw()
    requires SumSquares(axis) != 0.0
    ensures SumSquares(RotateAbout(v, axis, angle, m)) == SumSquares(v)
  {
    var k := Normalized(axis, m);
    var c, s := m.cos(angle), m.sin(angle);
    assert c * c + s * s == 1.0;
    RodriguesKeepsSumSquares(v, k, c, s);
  }
}
