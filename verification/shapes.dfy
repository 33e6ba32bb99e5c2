/** The 3-D shapes of a scene (Scenes/Shapes.cs): a shape is a vertex list plus a
    rule that turns it into faces. Segments, triangles and coordinate systems have
    fixed faces; a mesh keeps index faces into a vertex list that `AddFace`
    deduplicates by value. The console colour of a shape is not modelled. */
module Shapes {
  import opened Numeric
  import opened Vectors3

  /** The kind of a shape decides how its vertices become faces. */
  datatype Kind = Segment | Triangle | Csys | Mesh(faces: seq<seq<int>>)

  datatype Shape = Shape(kind: Kind, vertices: seq<Vector3>, cullBackFaces: bool)

  /** Every index of every face names a vertex. */
  predicate IndicesBelow(faces: seq<seq<int>>, n: int) {
    forall i, j :: 0 <= i < |faces| && 0 <= j < |faces[i]| ==> 0 <= faces[i][j] < n
  }

  /** The shape of each kind as its constructor leaves it: a segment has two
      vertices, a triangle three, a coordinate system four, and a mesh only indices
      in range. */
  predicate Valid(s: Shape) {
    match s.kind
    case Segment => |s.vertices| == 2
    case Triangle => |s.vertices| == 3
    case Csys => |s.vertices| == 4
    case Mesh(faces) => IndicesBelow(faces, |s.vertices|)
  }

  // ---------------------------------------------------------------------------
  // Construction

  function Segment3(from: Vector3, to: Vector3): (s: Shape)
    ensures s.kind == Segment && Valid(s) && !s.cullBackFaces
    ensures s.vertices[0] == from && s.vertices[1] == to
  {
    Shape(Segment, [from, to], false)
  }

  function Triangle3(a: Vector3, b: Vector3, c: Vector3): (s: Shape)
    ensures s.kind == Triangle && Valid(s) && !s.cullBackFaces
    ensures s.vertices[0] == a && s.vertices[1] == b && s.vertices[2] == c
  {
    Shape(Triangle, [a, b, c], false)
  }

  /** A coordinate system: its origin and the tips of three axes of length `size`. */
  function Csys3(center: Vector3, size: real): (s: Shape)
    ensures s.kind == Csys && Valid(s) && !s.cullBackFaces
    ensures s.vertices[0] == center
    ensures Sub(s.vertices[1], s.vertices[0]) == Vector3(size, 0.0, 0.0)
    ensures Sub(s.vertices[2], s.vertices[0]) == Vector3(0.0, size, 0.0)
    ensures Sub(s.vertices[3], s.vertices[0]) == Vector3(0.0, 0.0, size)
  {
    Shape(Csys, [center, Add(center, Vectors3.Scale(UnitX, size)),
                 Add(center, Vectors3.Scale(UnitY, size)), Add(center, Vectors3.Scale(UnitZ, size))], false)
  }

  /** A mesh with no vertices and no faces. */
  const EmptyMesh: Shape := Shape(Mesh([]), [], false)

  // ---------------------------------------------------------------------------
  // Faces

  /** The faces as vertex values: the vertex list itself for a segment or a
      triangle, the three axes from the origin for a coordinate system, and the
      looked-up vertices of each index face for a mesh. */
  function GetFaces(s: Shape): (r: seq<seq<Vector3>>)
    requires Valid(s)
    ensures s.kind.Mesh? ==> |r| == |s.kind.faces|
    ensures s.kind.Mesh? ==> forall i :: 0 <= i < |r| ==> |r[i]| == |s.kind.faces[i]|
    ensures !s.kind.Mesh? ==> |r| == (if s.kind.Csys? then 3 else 1)
    ensures s.kind.Mesh? ==> forall i, j :: 0 <= i < |r| && 0 <= j < |r[i]| ==>
      0 <= s.kind.faces[i][j] < |s.vertices| && r[i][j] == s.vertices[s.kind.faces[i][j]]
    ensures s.kind.Segment? || s.kind.Triangle? ==> r == [s.vertices]
    ensures s.kind.Csys? ==> r == [[s.vertices[0], s.vertices[1]], [s.vertices[0], s.vertices[2]], [s.vertices[0], s.vertices[3]]]
    ensures forall i, j :: 0 <= i < |r| && 0 <= j < |r[i]| ==> r[i][j] in s.vertices
  {
    var vs := s.vertices;
    match s.kind
    case Segment => [vs]
    case Triangle => [vs]
    case Csys => [[vs[0], vs[1]], [vs[0], vs[2]], [vs[0], vs[3]]]
    case Mesh(faces) =>
      seq(|faces|, i requires 0 <= i < |faces| =>
        seq(|faces[i]|, j requires 0 <= j < |faces[i]| => vs[faces[i][j]]))
  }

  /** The same vertex map applied to every node of every face. */
  function MapFaces(faces: seq<seq<Vector3>>, f: Vector3 -> Vector3): seq<seq<Vector3>> {
    seq(|faces|, i requires 0 <= i < |faces| =>
      seq(|faces[i]|, j requires 0 <= j < |faces[i]| => f(faces[i][j])))
  }

  // ---------------------------------------------------------------------------
  // Transforms: each replaces every vertex by a function of that vertex alone

  function MapVertices(s: Shape, f: Vector3 -> Vector3): (r: Shape)
    ensures r.kind == s.kind && r.cullBackFaces == s.cullBackFaces
    ensures |r.vertices| == |s.vertices|
    ensures forall i :: 0 <= i < |s.vertices| ==> r.vertices[i] == f(s.vertices[i])
  {
    Shape(s.kind, seq(|s.vertices|, i requires 0 <= i < |s.vertices| => f(s.vertices[i])), s.cullBackFaces)
  }

  /** Transforming the vertices transforms the faces the same way, node by node. */
  lemma MapVerticesFaces(s: Shape, f: Vector3 -> Vector3)
    requires Valid(s)
    ensures Valid(MapVertices(s, f))
    ensures GetFaces(MapVertices(s, f)) == MapFaces(GetFaces(s), f)
  {
    var r := MapVertices(s, f);
    var a, b := GetFaces(r), MapFaces(GetFaces(s), f);
    assert |a| == |b|;
    forall i | 0 <= i < |a|
      ensures a[i] == b[i]
    {
      assert |a[i]| == |b[i]|;
    }
  }

  function RotateX(s: Shape, angle: real, m: Maths): (r: Shape)
    ensures r.kind == s.kind && r.cullBackFaces == s.cullBackFaces && |r.vertices| == |s.vertices|
    ensures forall i :: 0 <= i < |s.vertices| ==> r.vertices[i] == Vectors3.RotateX(s.vertices[i], angle, m)
    ensures forall i :: 0 <= i < |s.vertices| ==> r.vertices[i].x == s.vertices[i].x
    ensures m.TrigLaw() ==> forall i :: 0 <= i < |s.vertices| ==>
      SumSquares(r.vertices[i]) == SumSquares(s.vertices[i])
  {
    var r := MapVertices(s, v => Vectors3.RotateX(v, angle, m));
    assert forall i :: 0 <= i < |s.vertices| ==> r.vertices[i] == Vectors3.RotateX(s.vertices[i], angle, m);
    forall i | 0 <= i < |s.vertices|
      ensures r.vertices[i].x == s.vertices[i].x
      ensures m.TrigLaw() ==> SumSquares(r.vertices[i]) == SumSquares(s.vertices[i])
    {
      RotationsFixTheirAxis(s.vertices[i], angle, m);
      if m.TrigLaw() {
        RotationsKeepSumSquares(s.vertices[i], angle, m);
      }
    }
    r
  }

  function RotateY(s: Shape, angle: real, m: Maths): (r: Shape)
    ensures r.kind == s.kind && r.cullBackFaces == s.cullBackFaces && |r.vertices| == |s.vertices|
    ensures forall i :: 0 <= i < |s.vertices| ==> r.vertices[i] == Vectors3.RotateY(s.vertices[i], angle, m)
    ensures forall i :: 0 <= i < |s.vertices| ==> r.vertices[i].y == s.vertices[i].y
    ensures m.TrigLaw() ==> forall i :: 0 <= i < |s.vertices| ==>
      SumSquares(r.vertices[i]) == SumSquares(s.vertices[i])
  {
    var r := MapVertices(s, v => Vectors3.RotateY(v, angle, m));
    assert forall i :: 0 <= i < |s.vertices| ==> r.vertices[i] == Vectors3.RotateY(s.vertices[i], angle, m);
    forall i | 0 <= i < |s.vertices|
      ensures r.vertices[i].y == s.vertices[i].y
      ensures m.TrigLaw() ==> SumSquares(r.vertices[i]) == SumSquares(s.vertices[i])
    {
      RotationsFixTheirAxis(s.vertices[i], angle, m);
      if m.TrigLaw() {
        RotationsKeepSumSquares(s.vertices[i], angle, m);
      }
    }
    r
  }

  function RotateZ(s: Shape, angle: real, m: Maths): (r: Shape)
    ensures r.kind == s.kind && r.cullBackFaces == s.cullBackFaces && |r.vertices| == |s.vertices|
    ensures forall i :: 0 <= i < |s.vertices| ==> r.vertices[i] == Vectors3.RotateZ(s.vertices[i], angle, m)
    ensures forall i :: 0 <= i < |s.vertices| ==> r.vertices[i].z == s.vertices[i].z
    ensures m.TrigLaw() ==> forall i :: 0 <= i < |s.vertices| ==>
      SumSquares(r.vertices[i]) == SumSquares(s.vertices[i])
  {
    var r := MapVertices(s, v => Vectors3.RotateZ(v, angle, m));
    assert forall i :: 0 <= i < |s.vertices| ==> r.vertices[i] == Vectors3.RotateZ(s.vertices[i], angle, m);
    forall i | 0 <= i < |s.vertices|
      ensures r.vertices[i].z == s.vertices[i].z
      ensures m.TrigLaw() ==> SumSquares(r.vertices[i]) == SumSquares(s.vertices[i])
    {
      RotationsFixTheirAxis(s.vertices[i], angle, m);
      if m.TrigLaw() {
        RotationsKeepSumSquares(s.vertices[i], angle, m);
      }
    }
    r
  }

  /** Rodrigues' rotation of every vertex about `axis`. */
  function RotateAbout(s: Shape, axis: Vector3, angle: real, m: Maths): (r: Shape)
    requires m.RootLaw()
    ensures r.kind == s.kind && r.cullBackFaces == s.cullBackFaces && |r.vertices| == |s.vertices|
    ensures forall i :: 0 <= i < |s.vertices| ==> r.vertices[i] == Vectors3.RotateAbout(s.vertices[i], axis, angle, m)
  {
    var k := Normalized(axis, m);
    var c, sn := m.cos(angle), m.sin(angle);
    MapVertices(s, v => Rodrigues(v, k, c, sn))
  }

  function Translate(s: Shape, delta: Vector3): (r: Shape)
    ensures r.kind == s.kind && r.cullBackFaces == s.cullBackFaces && |r.vertices| == |s.vertices|
    ensures forall i :: 0 <= i < |s.vertices| ==> Sub(r.vertices[i], s.vertices[i]) == delta
  {
    MapVertices(s, v => Add(v, delta))
  }

  /** Scaling about `center`: every vertex's offset from the centre is multiplied by
      `factor`. A factor of exactly 1 leaves the shape untouched. */
  function ScaleAbout(s: Shape, factor: real, center: Vector3): (r: Shape)
    ensures r.kind == s.kind && r.cullBackFaces == s.cullBackFaces && |r.vertices| == |s.vertices|
    ensures factor == 1.0 ==> r == s
    ensures forall i :: 0 <= i < |s.vertices| ==>
      Sub(r.vertices[i], center) == Vectors3.Scale(Sub(s.vertices[i], center), factor)
    ensures forall i :: 0 <= i < |s.vertices| && s.vertices[i] == center ==> r.vertices[i] == center
  {
    if factor != 1.0 then
      var r := MapVertices(s, v => ScalePoint(v, factor, center));
      forall i | 0 <= i < |s.vertices|
        ensures Sub(r.vertices[i], center) == Vectors3.Scale(Sub(s.vertices[i], center), factor)
        ensures s.vertices[i] == center ==> r.vertices[i] == center
      {
        ScalePointOffset(s.vertices[i], factor, center);
      }
      r
    else
      ScaleOne(s, center);
      s
  }

  /** `center + factor * (v - center)`. */
  function ScalePoint(v: Vector3, factor: real, center: Vector3): Vector3 {
    Add(center, Vectors3.Scale(Sub(v, center), factor))
  }

  lemma ScalePointOffset(v: Vector3, factor: real, center: Vector3)
    ensures Sub(ScalePoint(v, factor, center), center) == Vectors3.Scale(Sub(v, center), factor)
    ensures v == center ==> ScalePoint(v, factor, center) == center
  {
  }

  lemma ScaleOne(s: Shape, center: Vector3)
    ensures forall i :: 0 <= i < |s.vertices| ==>
      Sub(s.vertices[i], center) == Vectors3.Scale(Sub(s.vertices[i], center), 1.0)
  {
  }

  /** Scaling about the origin. */
  function Scale(s: Shape, factor: real): (r: Shape)
    ensures r.kind == s.kind && r.cullBackFaces == s.cullBackFaces && |r.vertices| == |s.vertices|
    ensures forall i :: 0 <= i < |s.vertices| ==> r.vertices[i] == Vectors3.Scale(s.vertices[i], factor)
  {
    ScaleAbout(s, factor, Zero)
  }

  /** The transforms keep the kind and the vertex count, so a valid shape stays valid. */
  lemma TransformsKeepValid(s: Shape, angle: real, axis: Vector3, delta: Vector3, factor: real, center: Vector3, m: Maths)
    requires Valid(s) && m.RootLaw()
    ensures Valid(RotateX(s, angle, m)) && Valid(RotateY(s, angle, m)) && Valid(RotateZ(s, angle, m))
    ensures Valid(RotateAbout(s, axis, angle, m))
    ensures Valid(Translate(s, delta)) && Valid(ScaleAbout(s, factor, center))
  {
  }

  /** Translating back by the opposite vector restores the shape. */
  lemma TranslateInverse(s: Shape, delta: Vector3)
    ensures Translate(Translate(s, delta), Neg(delta)) == s
  {
    var r := Translate(Translate(s, delta), Neg(delta));
    assert r.vertices == s.vertices;
  }

  /** Scaling by `1/factor` about the same centre undoes scaling by `factor`. */
  lemma ScaleInverse(s: Shape, factor: real, center: Vector3)
    requires factor != 0.0
    ensures ScaleAbout(ScaleAbout(s, factor, center), 1.0 / factor, center) == s
  {
    var t := ScaleAbout(s, factor, center);
    var r := ScaleAbout(t, 1.0 / factor, center);
    forall i | 0 <= i < |s.vertices|
      ensures r.vertices[i] == s.vertices[i]
    {
      var d := Sub(s.vertices[i], center);
      assert Sub(t.vertices[i], center) == Vectors3.Scale(d, factor);
      ScaleBack(d, factor);
      assert Sub(r.vertices[i], center) == d;
    }
    assert r.vertices == s.vertices;
  }

  lemma ScaleBack(d: Vector3, factor: real)
    requires factor != 0.0
    ensures Vectors3.Scale(Vectors3.Scale(d, factor), 1.0 / factor) == d
  {
    assert (1.0 / factor) * (factor * d.x) == d.x;
    assert (1.0 / factor) * (factor * d.y) == d.y;
    assert (1.0 / factor) * (factor * d.z) == d.z;
  }

  /** A rotation about one axis followed by the opposite rotation restores the shape. */
  lemma RotateInverse(s: Shape, angle: real, m: Maths)
    requires m.TrigLaw() && m.Reflects(angle)
    ensures RotateX(RotateX(s, angle, m), -angle, m) == s
    ensures RotateY(RotateY(s, angle, m), -angle, m) == s
    ensures RotateZ(RotateZ(s, angle, m), -angle, m) == s
  {
    forall i | 0 <= i < |s.vertices|
      ensures Vectors3.RotateX(Vectors3.RotateX(s.vertices[i], angle, m), -angle, m) == s.vertices[i]
      ensures Vectors3.RotateY(Vectors3.RotateY(s.vertices[i], angle, m), -angle, m) == s.vertices[i]
      ensures Vectors3.RotateZ(Vectors3.RotateZ(s.vertices[i], angle, m), -angle, m) == s.vertices[i]
    {
      RotationsInvert(s.vertices[i], angle, m);
    }
    assert RotateX(RotateX(s, angle, m), -angle, m).vertices == s.vertices;
    assert RotateY(RotateY(s, angle, m), -angle, m).vertices == s.vertices;
    assert RotateZ(RotateZ(s, angle, m), -angle, m).vertices == s.vertices;
  }

  // ---------------------------------------------------------------------------
  // Bounds

  /** An axis-aligned box given by its low and high corners. */
  datatype Box = Box(lo: Vector3, hi: Vector3)

  predicate Within(v: Vector3, b: Box) {
    && b.lo.x <= v.x <= b.hi.x
    && b.lo.y <= v.y <= b.hi.y
    && b.lo.z <= v.z <= b.hi.z
  }

  /** The box grown to take in one more point. */
  function Grow(b: Box, v: Vector3): Box {
    Box(Vector3(Min(b.lo.x, v.x), Min(b.lo.y, v.y), Min(b.lo.z, v.z)),
        Vector3(Max(b.hi.x, v.x), Max(b.hi.y, v.y), Max(b.hi.z, v.z)))
  }

  /** The bounding box of a vertex list, taken point by point from the first;
      an empty list has the degenerate box at the origin. */
  function Bounds(vs: seq<Vector3>): (r: Box)
    ensures |vs| == 0 ==> r == Box(Zero, Zero)
    ensures |vs| == 1 ==> r == Box(vs[0], vs[0])
  {
    if |vs| == 0 then Box(Zero, Zero)
    else if |vs| == 1 then Box(vs[0], vs[0])
    else Grow(Bounds(vs[..|vs| - 1]), vs[|vs| - 1])
  }

  /** Every vertex lies in the bounds and every face of the box touches a vertex. */
  lemma BoundsTight(vs: seq<Vector3>)
    ensures var r := Bounds(vs);
      && (forall i :: 0 <= i < |vs| ==> Within(vs[i], r))
      && (|vs| > 0 ==> (exists i :: 0 <= i < |vs| && vs[i].x == r.lo.x) && (exists i :: 0 <= i < |vs| && vs[i].x == r.hi.x))
      && (|vs| > 0 ==> (exists i :: 0 <= i < |vs| && vs[i].y == r.lo.y) && (exists i :: 0 <= i < |vs| && vs[i].y == r.hi.y))
      && (|vs| > 0 ==> (exists i :: 0 <= i < |vs| && vs[i].z == r.lo.z) && (exists i :: 0 <= i < |vs| && vs[i].z == r.hi.z))
  {
    BoundsContain(vs);
    if |vs| > 0 {
      var r := Bounds(vs);
      var lx, hx := BoundsAttained(vs, 0);
      var ly, hy := BoundsAttained(vs, 1);
      var lz, hz := BoundsAttained(vs, 2);
      assert vs[lx].x == r.lo.x && vs[hx].x == r.hi.x;
      assert vs[ly].y == r.lo.y && vs[hy].y == r.hi.y;
      assert vs[lz].z == r.lo.z && vs[hz].z == r.hi.z;
    }
  }

  /** Coordinate `a` of a point: x, y, then z. */
  function Coord(v: Vector3, a: int): real {
    if a == 0 then v.x else if a == 1 then v.y else v.z
  }

  lemma GrowCoord(b: Box, v: Vector3, a: int)
    ensures Coord(Grow(b, v).lo, a) == Min(Coord(b.lo, a), Coord(v, a))
    ensures Coord(Grow(b, v).hi, a) == Max(Coord(b.hi, a), Coord(v, a))
  {
  }

  lemma {:induction false} BoundsContain(vs: seq<Vector3>)
    ensures forall i :: 0 <= i < |vs| ==> Within(vs[i], Bounds(vs))
    decreases |vs|
  {
    if |vs| > 1 {
      var init := vs[..|vs| - 1];
      BoundsContain(init);
      assert forall i :: 0 <= i < |init| ==> vs[i] == init[i];
    }
  }

  /** The positions of vertices on the low and high faces of the bounds along axis
      `a`. */
  lemma {:induction false} BoundsAttained(vs: seq<Vector3>, a: int) returns (lo: int, hi: int)
    requires |vs| > 0
    ensures 0 <= lo < |vs| && Coord(vs[lo], a) == Coord(Bounds(vs).lo, a)
    ensures 0 <= hi < |vs| && Coord(vs[hi], a) == Coord(Bounds(vs).hi, a)
    decreases |vs|
  {
    if |vs| == 1 {
      return 0, 0;
    }
    var n := |vs| - 1;
    var init := vs[..n];
    var b := Bounds(init);
    var j, k := BoundsAttained(init, a);
    assert init[j] == vs[j] && init[k] == vs[k];
    assert Bounds(vs) == Grow(b, vs[n]);
    GrowCoord(b, vs[n], a);
    lo := if Coord(vs[n], a) <= Coord(b.lo, a) then n else j;
    hi := if Coord(vs[n], a) >= Coord(b.hi, a) then n else k;
  }

  /** The bounds as the source computes them, with a loop over the vertices. */
  method GetBounds(vertices: seq<Vector3>) returns (from: Vector3, to: Vector3)
    ensures Box(from, to) == Bounds(vertices)
  {
    if |vertices| == 0 {
      return Zero, Zero;
    }
    from, to := vertices[0], vertices[0];
    assert Bounds(vertices[..1]) == Box(vertices[0], vertices[0]);
    var i := 1;
    while i < |vertices|
      invariant 1 <= i <= |vertices|
      invariant Box(from, to) == Bounds(vertices[..i])
    {
      var vertex := vertices[i];
      BoundsStep(vertices, i);
      from := Vector3(Min(from.x, vertex.x), Min(from.y, vertex.y), Min(from.z, vertex.z));
      to := Vector3(Max(to.x, vertex.x), Max(to.y, vertex.y), Max(to.z, vertex.z));
      i := i + 1;
    }
    assert vertices[..i] == vertices;
  }

  /** One more vertex grows the bounds of the prefix before it. */
  lemma BoundsStep(vs: seq<Vector3>, i: int)
    requires 1 <= i < |vs|
    ensures Bounds(vs[..i + 1]) == Grow(Bounds(vs[..i]), vs[i])
  {
    var p := vs[..i + 1];
    assert p[..|p| - 1] == vs[..i] && p[|p| - 1] == vs[i];
  }

  function Shift(vs: seq<Vector3>, delta: Vector3): (r: seq<Vector3>)
    ensures |r| == |vs| && forall i :: 0 <= i < |vs| ==> r[i] == Add(vs[i], delta)
  {
    seq(|vs|, i requires 0 <= i < |vs| => Add(vs[i], delta))
  }

  /** Translating a non-empty vertex list translates both corners of its bounds. */
  lemma {:induction false} BoundsShift(vs: seq<Vector3>, delta: Vector3)
    requires |vs| > 0
    ensures Bounds(Shift(vs, delta)) == Box(Add(Bounds(vs).lo, delta), Add(Bounds(vs).hi, delta))
    decreases |vs|
  {
    var ws := Shift(vs, delta);
    if |vs| > 1 {
      var n := |vs| - 1;
      assert ws[..n] == Shift(vs[..n], delta);
      BoundsShift(vs[..n], delta);
      GrowShift(Bounds(vs[..n]), vs[n], delta);
    }
  }

  lemma GrowShift(b: Box, v: Vector3, delta: Vector3)
    ensures Grow(Box(Add(b.lo, delta), Add(b.hi, delta)), Add(v, delta))
         == Box(Add(Grow(b, v).lo, delta), Add(Grow(b, v).hi, delta))
  {
  }

  /** The source recentres a loaded mesh by subtracting the midpoint of its bounds;
      afterwards the bounds are symmetric about the origin. */
  lemma RecentredBounds(vs: seq<Vector3>)
    requires |vs| > 0
    ensures var b := Bounds(vs);
      var c := Bounds(Shift(vs, Div(Neg(Add(b.lo, b.hi)), 2.0)));
      Add(c.lo, c.hi) == Zero
  {
    var b := Bounds(vs);
    var d := Div(Neg(Add(b.lo, b.hi)), 2.0);
    BoundsShift(vs, d);
    BoxRecentred(b, Bounds(Shift(vs, d)));
  }

  lemma BoxRecentred(b: Box, c: Box)
    requires c == Box(Add(b.lo, Div(Neg(Add(b.lo, b.hi)), 2.0)), Add(b.hi, Div(Neg(Add(b.lo, b.hi)), 2.0)))
    ensures Add(c.lo, c.hi) == Zero
  {
    MidpointShift(b.lo.x, b.hi.x);
    MidpointShift(b.lo.y, b.hi.y);
    MidpointShift(b.lo.z, b.hi.z);
  }

  lemma MidpointShift(lo: real, hi: real)
    ensures (lo + -(lo + hi) / 2.0) + (hi + -(lo + hi) / 2.0) == 0.0
  {
  }

  // ---------------------------------------------------------------------------
  // Face centre

  function Sum(nodes: seq<Vector3>): Vector3 {
    if |nodes| == 0 then Zero else Add(Sum(nodes[..|nodes| - 1]), nodes[|nodes| - 1])
  }

  /** The centroid of a face: the mean of its nodes. An empty face would divide by
      zero, so one node is required. */
  function CenterOfFace(nodes: seq<Vector3>): (r: Vector3)
    requires |nodes| > 0
    ensures Vectors3.Scale(r, |nodes| as real) == Sum(nodes)
  {
    Div(Sum(nodes), |nodes| as real)
  }

  /** The source's accumulation loop computes the same centroid. */
  method GetCenterOfFace(nodes: seq<Vector3>) returns (center: Vector3)
    requires |nodes| > 0
    ensures center == CenterOfFace(nodes)
  {
    center := Zero;
    for j := 0 to |nodes|
      invariant center == Sum(nodes[..j])
    {
      assert nodes[..j + 1][..j] == nodes[..j];
      center := Add(center, nodes[j]);
    }
    assert nodes[..|nodes|] == nodes;
    center := Div(center, |nodes| as real);
  }

  lemma {:induction false} SumShift(nodes: seq<Vector3>, delta: Vector3)
    ensures Sum(Shift(nodes, delta)) == Add(Sum(nodes), Vectors3.Scale(delta, |nodes| as real))
    decreases |nodes|
  {
    if |nodes| > 0 {
      var n := |nodes| - 1;
      assert Shift(nodes, delta)[..n] == Shift(nodes[..n], delta);
      SumShift(nodes[..n], delta);
      var a := Sum(nodes[..n]);
      assert Sum(Shift(nodes, delta)) == Add(Add(a, Vectors3.Scale(delta, n as real)), Add(nodes[n], delta));
      assert Sum(nodes) == Add(a, nodes[n]);
      assert |nodes| as real == n as real + 1.0;
      MultipleStep(a, nodes[n], delta, n as real);
    }
  }

  lemma MultipleStep(a: Vector3, v: Vector3, d: Vector3, n: real)
    ensures Add(Add(a, Vectors3.Scale(d, n)), Add(v, d)) == Add(Add(a, v), Vectors3.Scale(d, n + 1.0))
  {
    assert n * d.x + d.x == (n + 1.0) * d.x;
    assert n * d.y + d.y == (n + 1.0) * d.y;
    assert n * d.z + d.z == (n + 1.0) * d.z;
  }

  /** One coordinate of the centre of a translated face. */
  lemma MeanShift(a: real, d: real, n: real, mean: real, shifted: real, shiftedMean: real)
    requires n != 0.0 && mean == a / n && shifted == a + n * d && shiftedMean == shifted / n
    ensures shiftedMean == mean + d
  {
    assert (a / n + d) * n == a + n * d;
  }

  /** Translating a face translates its centre by the same vector. */
  lemma CenterShift(nodes: seq<Vector3>, delta: Vector3)
    requires |nodes| > 0
    ensures CenterOfFace(Shift(nodes, delta)) == Add(CenterOfFace(nodes), delta)
  {
    var n := |nodes| as real;
    var s, t := Sum(nodes), Sum(Shift(nodes, delta));
    var c, d := CenterOfFace(nodes), CenterOfFace(Shift(nodes, delta));
    SumShift(nodes, delta);
    AddScaledIs(s, delta, n);
    CenterIs(nodes);
    CenterIs(Shift(nodes, delta));
    ShiftedCentre(s, t, c, d, delta, n);
  }

  lemma ShiftedCentre(s: Vector3, t: Vector3, c: Vector3, d: Vector3, delta: Vector3, n: real)
    requires n != 0.0
    requires c == Vector3(s.x / n, s.y / n, s.z / n) && d == Vector3(t.x / n, t.y / n, t.z / n)
    requires t == Vector3(s.x + n * delta.x, s.y + n * delta.y, s.z + n * delta.z)
    ensures d == Add(c, delta)
  {
    MeanShift(s.x, delta.x, n, c.x, t.x, d.x);
    MeanShift(s.y, delta.y, n, c.y, t.y, d.y);
    MeanShift(s.z, delta.z, n, c.z, t.z, d.z);
    AddIs(c, delta);
  }

  lemma CenterIs(nodes: seq<Vector3>)
    requires |nodes| > 0
    ensures var s, n := Sum(nodes), |nodes| as real;
      CenterOfFace(nodes) == Vector3(s.x / n, s.y / n, s.z / n)
  {
  }

  lemma AddIs(a: Vector3, b: Vector3)
    ensures Add(a, b) == Vector3(a.x + b.x, a.y + b.y, a.z + b.z)
  {
  }

  lemma AddScaledIs(a: Vector3, d: Vector3, n: real)
    ensures Add(a, Vectors3.Scale(d, n)) == Vector3(a.x + n * d.x, a.y + n * d.y, a.z + n * d.z)
  {
    assert Vectors3.Scale(d, n) == Vector3(n * d.x, n * d.y, n * d.z);
  }

  // ---------------------------------------------------------------------------
  // Mesh faces with vertex deduplication

  /** The first position of `x` in `vs`, or -1 when it does not occur. */
  function IndexOf(vs: seq<Vector3>, x: Vector3): (r: int)
    ensures x in vs ==> 0 <= r < |vs| && vs[r] == x && forall k :: 0 <= k < r ==> vs[k] != x
    ensures x !in vs ==> r == -1
  {
    if |vs| == 0 then -1
    else if vs[0] == x then 0
    else
      var k := IndexOf(vs[1..], x);
      if k < 0 then -1 else k + 1
  }

  /** The vertex list after the nodes, in order, have each been appended unless an
      equal vertex is already there. */
  function Absorb(vs: seq<Vector3>, nodes: seq<Vector3>): seq<Vector3> {
    if |nodes| == 0 then vs
    else
      var before := Absorb(vs, nodes[..|nodes| - 1]);
      var x := nodes[|nodes| - 1];
      if x in before then before else before + [x]
  }

  /** No vertex occurs twice. */
  predicate NoDuplicates(vs: seq<Vector3>) {
    forall i, j :: 0 <= i < j < |vs| ==> vs[i] != vs[j]
  }

  /** Absorbing nodes only appends: the old list is a prefix, the result holds
      exactly the old vertices and the nodes, and it grows by at most one vertex
      per node. */
  lemma {:induction false} AbsorbGrows(vs: seq<Vector3>, nodes: seq<Vector3>)
    ensures var r := Absorb(vs, nodes);
      && |vs| <= |r| <= |vs| + |nodes| && r[..|vs|] == vs
      && (forall x :: x in r <==> x in vs || x in nodes)
    decreases |nodes|
  {
    if |nodes| > 0 {
      var n := |nodes| - 1;
      AbsorbGrows(vs, nodes[..n]);
      var before := Absorb(vs, nodes[..n]);
      assert forall x :: x in nodes <==> x in nodes[..n] || x == nodes[n] by {
        assert nodes == nodes[..n] + [nodes[n]];
      }
      if nodes[n] !in before {
        assert (before + [nodes[n]])[..|vs|] == before[..|vs|];
      }
    }
  }

  /** Nodes that are all already vertices add nothing. */
  lemma {:induction false} AbsorbKnown(vs: seq<Vector3>, nodes: seq<Vector3>)
    ensures (forall k :: 0 <= k < |nodes| ==> nodes[k] in vs) ==> Absorb(vs, nodes) == vs
    decreases |nodes|
  {
    if |nodes| > 0 && forall k :: 0 <= k < |nodes| ==> nodes[k] in vs {
      AbsorbKnown(vs, nodes[..|nodes| - 1]);
    }
  }

  /** A list without duplicates stays without duplicates. */
  lemma {:induction false} AbsorbNoDuplicates(vs: seq<Vector3>, nodes: seq<Vector3>)
    ensures NoDuplicates(vs) ==> NoDuplicates(Absorb(vs, nodes))
    decreases |nodes|
  {
    if |nodes| > 0 && NoDuplicates(vs) {
      AbsorbNoDuplicates(vs, nodes[..|nodes| - 1]);
    }
  }

  /** Appending to a list does not move the first match of a value already in it. */
  lemma IndexOfPrefix(vs: seq<Vector3>, more: seq<Vector3>, x: Vector3)
    requires x in vs
    ensures IndexOf(vs + more, x) == IndexOf(vs, x)
  {
    var i, j := IndexOf(vs + more, x), IndexOf(vs, x);
    assert (vs + more)[j] == x;
  }

  /** The index face the source builds: each node's first position in the final
      vertex list. */
  function FaceIndices(vs: seq<Vector3>, nodes: seq<Vector3>): seq<int> {
    var r := Absorb(vs, nodes);
    seq(|nodes|, i requires 0 <= i < |nodes| => IndexOf(r, nodes[i]))
  }

  /** Adding a face to a mesh: new vertices are appended, and the face records the
      index of each node. Other shape kinds have no index faces, so they are returned
      unchanged. */
  function AddFace(s: Shape, nodes: seq<Vector3>): (r: Shape)
    requires s.kind.Mesh?
    ensures r.kind.Mesh? && |r.kind.faces| == |s.kind.faces| + 1 && |r.vertices| >= |s.vertices|
    ensures r.kind.faces[..|s.kind.faces|] == s.kind.faces && |r.kind.faces[|s.kind.faces|]| == |nodes|
    ensures r.vertices[..|s.vertices|] == s.vertices && r.cullBackFaces == s.cullBackFaces
    ensures var f := r.kind.faces[|s.kind.faces|];
      forall i :: 0 <= i < |nodes| ==> 0 <= f[i] < |r.vertices| && r.vertices[f[i]] == nodes[i]
    ensures var f := r.kind.faces[|s.kind.faces|];
      forall i :: 0 <= i < |nodes| && nodes[i] in s.vertices ==> f[i] == IndexOf(s.vertices, nodes[i])
    ensures (forall i :: 0 <= i < |nodes| ==> nodes[i] in s.vertices) ==> r.vertices == s.vertices
    ensures NoDuplicates(s.vertices) ==> NoDuplicates(r.vertices)
  {
    AbsorbGrows(s.vertices, nodes);
    FaceIndicesFacts(s.vertices, nodes);
    AbsorbKnown(s.vertices, nodes);
    AbsorbNoDuplicates(s.vertices, nodes);
    Shape(Mesh(s.kind.faces + [FaceIndices(s.vertices, nodes)]), Absorb(s.vertices, nodes), s.cullBackFaces)
  }

  /** Each index of a face points at its node, and a node that was already a
      vertex keeps its old index. */
  lemma FaceIndicesFacts(vs: seq<Vector3>, nodes: seq<Vector3>)
    ensures |FaceIndices(vs, nodes)| == |nodes|
    ensures forall i :: 0 <= i < |nodes| ==>
      0 <= FaceIndices(vs, nodes)[i] < |Absorb(vs, nodes)| && Absorb(vs, nodes)[FaceIndices(vs, nodes)[i]] == nodes[i]
    ensures forall i :: 0 <= i < |nodes| && nodes[i] in vs ==> FaceIndices(vs, nodes)[i] == IndexOf(vs, nodes[i])
  {
    var r := Absorb(vs, nodes);
    AbsorbGrows(vs, nodes);
    assert r == vs + r[|vs|..];
    forall i | 0 <= i < |nodes| && nodes[i] in vs
      ensures FaceIndices(vs, nodes)[i] == IndexOf(vs, nodes[i])
    {
      IndexOfPrefix(vs, r[|vs|..], nodes[i]);
    }
  }

  /** Equal nodes within one call get the same index. */
  lemma AddFaceSharesRepeats(s: Shape, nodes: seq<Vector3>, i: int, j: int)
    requires s.kind.Mesh? && 0 <= i < |nodes| && 0 <= j < |nodes| && nodes[i] == nodes[j]
    ensures var f := AddFace(s, nodes).kind.faces[|s.kind.faces|]; f[i] == f[j]
  {
  }

  /** A valid mesh stays valid, and its faces gain exactly the added nodes. */
  lemma AddFaceFaces(s: Shape, nodes: seq<Vector3>)
    requires s.kind.Mesh? && Valid(s)
    ensures Valid(AddFace(s, nodes))
    ensures GetFaces(AddFace(s, nodes)) == GetFaces(s) + [nodes]
  {
    var r := AddFace(s, nodes);
    var n := |s.kind.faces|;
    forall i, j | 0 <= i < |r.kind.faces| && 0 <= j < |r.kind.faces[i]|
      ensures 0 <= r.kind.faces[i][j] < |r.vertices|
    {
      if i < n {
        assert r.kind.faces[i] == s.kind.faces[i];
      }
    }
    var a, b := GetFaces(r), GetFaces(s) + [nodes];
    forall i | 0 <= i < |a|
      ensures a[i] == b[i]
    {
      if i < n {
        assert r.kind.faces[i] == s.kind.faces[i];
        forall j | 0 <= j < |a[i]|
          ensures a[i][j] == b[i][j]
        {
          assert r.vertices[s.kind.faces[i][j]] == s.vertices[s.kind.faces[i][j]];
        }
      }
    }
  }

  /** The source's loop: look each node up, append it when missing, and record its
      index. */
  method AddFaceLoop(vertices: seq<Vector3>, nodes: seq<Vector3>) returns (verts: seq<Vector3>, face: seq<int>)
    ensures verts == Absorb(vertices, nodes)
    ensures face == FaceIndices(vertices, nodes)
  {
    verts := vertices;
    face := [];
    for i := 0 to |nodes|
      invariant LoopState(vertices, nodes, i, verts, face)
    {
      LoopStep(vertices, nodes, i, verts, face);
      var index := IndexOf(verts, nodes[i]);
      if index < 0 {
        index := |verts|;
        verts := verts + [nodes[i]];
      }
      face := face + [index];
    }
    LoopDone(vertices, nodes, verts, face);
  }

  /** After `i` nodes: the vertex list has absorbed them and each has its index. */
  predicate LoopState(vertices: seq<Vector3>, nodes: seq<Vector3>, i: int, verts: seq<Vector3>, face: seq<int>) {
    && 0 <= i <= |nodes|
    && verts == Absorb(vertices, nodes[..i])
    && |face| == i
    && forall k :: 0 <= k < i ==> nodes[k] in verts && face[k] == IndexOf(verts, nodes[k])
  }

  lemma LoopStep(vertices: seq<Vector3>, nodes: seq<Vector3>, i: int, verts: seq<Vector3>, face: seq<int>)
    requires LoopState(vertices, nodes, i, verts, face) && i < |nodes|
    ensures nodes[i] in verts ==> LoopState(vertices, nodes, i + 1, verts, face + [IndexOf(verts, nodes[i])])
    ensures nodes[i] !in verts ==> LoopState(vertices, nodes, i + 1, verts + [nodes[i]], face + [|verts|])
  {
    AbsorbStep(vertices, nodes, i);
    if nodes[i] in verts {
      LoopStepKnown(vertices, nodes, i, verts, face);
    } else {
      LoopStepNew(vertices, nodes, i, verts, face);
    }
  }

  lemma LoopStepKnown(vertices: seq<Vector3>, nodes: seq<Vector3>, i: int, verts: seq<Vector3>, face: seq<int>)
    requires LoopState(vertices, nodes, i, verts, face) && i < |nodes| && nodes[i] in verts
    requires Absorb(vertices, nodes[..i + 1]) == verts
    ensures LoopState(vertices, nodes, i + 1, verts, face + [IndexOf(verts, nodes[i])])
  {
    var f := face + [IndexOf(verts, nodes[i])];
    forall k | 0 <= k < i + 1
      ensures nodes[k] in verts && f[k] == IndexOf(verts, nodes[k])
    {
      if k < i {
        assert f[k] == face[k];
      }
    }
  }

  lemma LoopStepNew(vertices: seq<Vector3>, nodes: seq<Vector3>, i: int, verts: seq<Vector3>, face: seq<int>)
    requires LoopState(vertices, nodes, i, verts, face) && i < |nodes| && nodes[i] !in verts
    requires Absorb(vertices, nodes[..i + 1]) == verts + [nodes[i]]
    ensures LoopState(vertices, nodes, i + 1, verts + [nodes[i]], face + [|verts|])
  {
    var x := nodes[i];
    var v, f := verts + [x], face + [|verts|];
    forall k | 0 <= k < i + 1
      ensures nodes[k] in v && f[k] == IndexOf(v, nodes[k])
    {
      if k < i {
        assert f[k] == face[k];
        InPrefix(verts, [x], nodes[k]);
        IndexOfPrefix(verts, [x], nodes[k]);
      } else {
        assert v[|verts|] == x;
      }
    }
  }

  lemma LoopDone(vertices: seq<Vector3>, nodes: seq<Vector3>, verts: seq<Vector3>, face: seq<int>)
    requires LoopState(vertices, nodes, |nodes|, verts, face)
    ensures verts == Absorb(vertices, nodes)
    ensures face == FaceIndices(vertices, nodes)
  {
    assert nodes[..|nodes|] == nodes;
  }

  lemma AbsorbStep(vs: seq<Vector3>, nodes: seq<Vector3>, i: int)
    requires 0 <= i < |nodes|
    ensures var before := Absorb(vs, nodes[..i]);
      Absorb(vs, nodes[..i + 1]) == if nodes[i] in before then before else before + [nodes[i]]
  {
    assert nodes[..i + 1][..i] == nodes[..i];
  }


  // ---------------------------------------------------------------------------
  // Fixed meshes

  /** The run of `n` consecutive indices from `start`. */
  function Count(start: int, n: nat): (r: seq<int>)
    ensures |r| == n && forall i :: 0 <= i < n ==> r[i] == start + i
    decreases n
  {
    if n == 0 then [] else [start] + Count(start + 1, n - 1)
  }

  /** The first position of each value in `vs`. */
  function Lookup(vs: seq<Vector3>, xs: seq<Vector3>): (r: seq<int>)
    ensures |r| == |xs| && forall i :: 0 <= i < |xs| ==> r[i] == IndexOf(vs, xs[i])
  {
    if |xs| == 0 then [] else [IndexOf(vs, xs[0])] + Lookup(vs, xs[1..])
  }

  /** In a list without duplicates, the position of an element is its index. */
  lemma IndexOfDistinct(vs: seq<Vector3>, i: int)
    requires NoDuplicates(vs) && 0 <= i < |vs|
    ensures IndexOf(vs, vs[i]) == i
  {
  }

  /** Without duplicates, looking values up finds exactly the positions they sit at. */
  lemma LookupDistinct(vs: seq<Vector3>, xs: seq<Vector3>, at: seq<int>)
    requires NoDuplicates(vs) && |at| == |xs|
    requires forall i :: 0 <= i < |xs| ==> 0 <= at[i] < |vs| && vs[at[i]] == xs[i]
    ensures Lookup(vs, xs) == at
  {
    forall i | 0 <= i < |xs|
      ensures Lookup(vs, xs)[i] == at[i]
    {
      IndexOfDistinct(vs, at[i]);
    }
  }

  lemma {:induction false} AbsorbAppend(vs: seq<Vector3>, a: seq<Vector3>, b: seq<Vector3>)
    ensures Absorb(vs, a + b) == Absorb(Absorb(vs, a), b)
    decreases |b|
  {
    if |b| > 0 {
      var n := |b| - 1;
      assert (a + b)[..|a + b| - 1] == a + b[..n];
      AbsorbAppend(vs, a, b[..n]);
    } else {
      assert a + b == a;
    }
  }

  /** Nodes that are new and pairwise different are all appended, in order. */
  lemma {:induction false} AbsorbFresh(vs: seq<Vector3>, added: seq<Vector3>)
    requires NoDuplicates(vs + added)
    ensures Absorb(vs, added) == vs + added
    decreases |added|
  {
    if |added| > 0 {
      var n := |added| - 1;
      assert (vs + added)[..|vs| + n] == vs + added[..n];
      assert NoDuplicates(vs + added[..n]);
      AbsorbFresh(vs, added[..n]);
      assert (vs + added)[|vs| + n] == added[n];
      assert added[n] !in vs + added[..n];
      assert vs + added[..n] + [added[n]] == vs + added;
    }
  }

  /** Adding a face whose first nodes are new (and pairwise different) and whose
      remaining nodes are already vertices: the new nodes are appended in order and
      take the next indices, and the known nodes take their existing first indices. */
  lemma AddFaceFreshThenKnown(s: Shape, added: seq<Vector3>, known: seq<Vector3>)
    requires s.kind.Mesh? && NoDuplicates(s.vertices + added)
    requires forall k :: 0 <= k < |known| ==> known[k] in s.vertices
    ensures AddFace(s, added + known).vertices == s.vertices + added
    ensures AddFace(s, added + known).kind.faces == s.kind.faces + [Count(|s.vertices|, |added|) + Lookup(s.vertices, known)]
  {
    AbsorbFreshThenKnown(s.vertices, added, known);
    FaceFreshThenKnown(s.vertices, added, known);
  }

  lemma AbsorbFreshThenKnown(vs: seq<Vector3>, added: seq<Vector3>, known: seq<Vector3>)
    requires NoDuplicates(vs + added)
    requires forall k :: 0 <= k < |known| ==> known[k] in vs
    ensures Absorb(vs, added + known) == vs + added
  {
    var r := vs + added;
    AbsorbAppend(vs, added, known);
    AbsorbFresh(vs, added);
    forall k | 0 <= k < |known|
      ensures known[k] in r
    {
      InPrefix(vs, added, known[k]);
    }
    AbsorbKnown(r, known);
  }

  lemma FaceFreshThenKnown(vs: seq<Vector3>, added: seq<Vector3>, known: seq<Vector3>)
    requires NoDuplicates(vs + added)
    requires forall k :: 0 <= k < |known| ==> known[k] in vs
    ensures FaceIndices(vs, added + known) == Count(|vs|, |added|) + Lookup(vs, known)
  {
    AbsorbFreshThenKnown(vs, added, known);
    var f := FaceIndices(vs, added + known);
    var g := Count(|vs|, |added|) + Lookup(vs, known);
    forall i | 0 <= i < |added + known|
      ensures f[i] == g[i]
    {
      FreshThenKnownAt(vs, added, known, i);
    }
  }

  /** One position of the face above. */
  lemma FreshThenKnownAt(vs: seq<Vector3>, added: seq<Vector3>, known: seq<Vector3>, i: int)
    requires NoDuplicates(vs + added) && 0 <= i < |added| + |known|
    requires forall k :: 0 <= k < |known| ==> known[k] in vs
    requires Absorb(vs, added + known) == vs + added
    ensures IndexOf(vs + added, (added + known)[i]) == (Count(|vs|, |added|) + Lookup(vs, known))[i]
  {
    if i < |added| {
      AddedIndex(vs, added, known, i);
      JoinLeft(Count(|vs|, |added|), Lookup(vs, known), i);
    } else {
      KnownIndex(vs, added, known, i - |added|);
      JoinRight(added, known, i);
      JoinRight(Count(|vs|, |added|), Lookup(vs, known), i);
    }
  }

  lemma KnownIndex(vs: seq<Vector3>, added: seq<Vector3>, known: seq<Vector3>, j: int)
    requires 0 <= j < |known| && known[j] in vs
    ensures IndexOf(vs + added, known[j]) == Lookup(vs, known)[j]
  {
    IndexOfPrefix(vs, added, known[j]);
  }

  lemma JoinLeft<T>(a: seq<T>, b: seq<T>, i: int)
    requires 0 <= i < |a|
    ensures (a + b)[i] == a[i]
  {
  }

  lemma JoinRight<T>(a: seq<T>, b: seq<T>, i: int)
    requires |a| <= i < |a| + |b|
    ensures (a + b)[i] == b[i - |a|]
  {
  }

  lemma InPrefix(vs: seq<Vector3>, more: seq<Vector3>, x: Vector3)
    requires x in vs
    ensures x in vs + more
  {
    var j :| 0 <= j < |vs| && vs[j] == x;
    assert (vs + more)[j] == x;
  }

  lemma AddedIndex(vs: seq<Vector3>, added: seq<Vector3>, known: seq<Vector3>, i: int)
    requires NoDuplicates(vs + added) && 0 <= i < |added|
    ensures IndexOf(vs + added, (added + known)[i]) == |vs| + i
  {
    assert (added + known)[i] == (vs + added)[|vs| + i];
    IndexOfDistinct(vs + added, |vs| + i);
  }

  /** Adding a face of existing vertices only records their first positions. */
  lemma AddFaceKnown(s: Shape, nodes: seq<Vector3>)
    requires s.kind.Mesh? && forall k :: 0 <= k < |nodes| ==> nodes[k] in s.vertices
    ensures AddFace(s, nodes) == Shape(Mesh(s.kind.faces + [Lookup(s.vertices, nodes)]), s.vertices, s.cullBackFaces)
  {
    AbsorbKnown(s.vertices, nodes);
    KnownFaceIndices(s.vertices, nodes);
    AddFaceIs(s, nodes);
  }

  /** AddFace unfolded. */
  lemma AddFaceIs(s: Shape, nodes: seq<Vector3>)
    requires s.kind.Mesh?
    ensures AddFace(s, nodes)
         == Shape(Mesh(s.kind.faces + [FaceIndices(s.vertices, nodes)]), Absorb(s.vertices, nodes), s.cullBackFaces)
  {
  }

  lemma KnownFaceIndices(vs: seq<Vector3>, nodes: seq<Vector3>)
    requires forall k :: 0 <= k < |nodes| ==> nodes[k] in vs
    ensures FaceIndices(vs, nodes) == Lookup(vs, nodes)
  {
    AbsorbKnown(vs, nodes);
    var f := FaceIndices(vs, nodes);
    assert forall i :: 0 <= i < |nodes| ==> f[i] == IndexOf(vs, nodes[i]);
  }

  /** The first face of an empty mesh, when its nodes are pairwise different, becomes
      the vertex list, and the face is 0, 1, 2, ... */
  lemma FirstFace(nodes: seq<Vector3>)
    requires NoDuplicates(nodes)
    ensures AddFace(EmptyMesh, nodes) == Shape(Mesh([Count(0, |nodes|)]), nodes, false)
  {
    assert EmptyMesh.vertices + nodes == nodes && nodes + [] == nodes;
    AddFaceFreshThenKnown(EmptyMesh, nodes, []);
    assert Lookup([], []) == [];
    assert Count(0, |nodes|) + [] == Count(0, |nodes|);
  }

  lemma CountRuns()
    ensures Count(0, 4) == [0, 1, 2, 3] && Count(4, 2) == [4, 5] && Count(6, 2) == [6, 7]
  {
    assert Count(3, 1) == [3];
    assert Count(2, 2) == [2, 3];
    assert Count(1, 3) == [1, 2, 3];
    assert Count(5, 1) == [5];
    assert Count(7, 1) == [7];
  }

  /** The corners of a rectangle in the plane z = center.z, counter-clockwise from
      the low corner. */
  function RectangleCorners(center: Vector3, dx: real, dy: real): (r: seq<Vector3>)
    ensures |r| == 4
  {
    [Add(Vector3(-dx / 2.0, -dy / 2.0, 0.0), center),
     Add(Vector3(dx / 2.0, -dy / 2.0, 0.0), center),
     Add(Vector3(dx / 2.0, dy / 2.0, 0.0), center),
     Add(Vector3(-dx / 2.0, dy / 2.0, 0.0), center)]
  }

  /** A rectangle as one four-node face. */
  function Rectangle3(center: Vector3, dx: real, dy: real): Shape {
    AddFace(EmptyMesh, RectangleCorners(center, dx, dy))
  }

  /** A rectangle with non-zero sides has four distinct vertices and the face [0,1,2,3]. */
  lemma RectangleShape(center: Vector3, dx: real, dy: real)
    requires dx != 0.0 && dy != 0.0
    ensures var r := Rectangle3(center, dx, dy);
      r.vertices == RectangleCorners(center, dx, dy) && NoDuplicates(r.vertices)
      && r.kind == Mesh([[0, 1, 2, 3]])
  {
    RectangleCornersDistinct(center, dx, dy);
    FirstFace(RectangleCorners(center, dx, dy));
    CountRuns();
  }

  lemma RectangleCornersDistinct(center: Vector3, dx: real, dy: real)
    requires dx != 0.0 && dy != 0.0
    ensures NoDuplicates(RectangleCorners(center, dx, dy))
  {
  }

  /** The corners of a box centred on `center`: A, B, C, D on the top face
      (z + dz/2) and E, F, G, H below them. */
  function Corners(center: Vector3, dx: real, dy: real, dz: real): (r: seq<Vector3>)
    ensures |r| == 8
  {
    [Add(Vector3(-dx / 2.0, -dy / 2.0, dz / 2.0), center),
     Add(Vector3(dx / 2.0, -dy / 2.0, dz / 2.0), center),
     Add(Vector3(dx / 2.0, dy / 2.0, dz / 2.0), center),
     Add(Vector3(-dx / 2.0, dy / 2.0, dz / 2.0), center),
     Add(Vector3(-dx / 2.0, -dy / 2.0, -dz / 2.0), center),
     Add(Vector3(dx / 2.0, -dy / 2.0, -dz / 2.0), center),
     Add(Vector3(dx / 2.0, dy / 2.0, -dz / 2.0), center),
     Add(Vector3(-dx / 2.0, dy / 2.0, -dz / 2.0), center)]
  }

  /** The six faces of a box over corners A..H, added in the source's order. */
  function BoxMesh(k: seq<Vector3>): Shape
    requires |k| == 8
  {
    var a, b, c, d, e, f, g, h := k[0], k[1], k[2], k[3], k[4], k[5], k[6], k[7];
    var m1 := AddFace(EmptyMesh, [a, b, c, d]);
    var m2 := AddFace(m1, [f, g, c, b]);
    var m3 := AddFace(m2, [e, h, g, f]);
    var m4 := AddFace(m3, [a, d, h, e]);
    var m5 := AddFace(m4, [b, a, e, f]);
    AddFace(m5, [d, c, g, h])
  }

  function Cuboid3(center: Vector3, dx: real, dy: real, dz: real): Shape {
    BoxMesh(Corners(center, dx, dy, dz))
  }

  /** The corners in the order the faces first meet them. */
  function MeetOrder(k: seq<Vector3>): seq<Vector3>
    requires |k| == 8
  {
    [k[0], k[1], k[2], k[3], k[5], k[6], k[4], k[7]]
  }

  /** One step of a fixed mesh: new nodes first, then nodes found at the given
      positions. */
  lemma AddFaceStep(s: Shape, added: seq<Vector3>, known: seq<Vector3>, at: seq<int>)
    requires s.kind.Mesh? && NoDuplicates(s.vertices + added) && |at| == |known|
    requires forall i :: 0 <= i < |known| ==> 0 <= at[i] < |s.vertices| && s.vertices[at[i]] == known[i]
    ensures AddFace(s, added + known)
         == Shape(Mesh(s.kind.faces + [Count(|s.vertices|, |added|) + at]), s.vertices + added, s.cullBackFaces)
  {
    NoDuplicatesFront(s.vertices, added);
    LookupDistinct(s.vertices, known, at);
    AddFaceFreshThenKnown(s, added, known);
    AddFaceParts(AddFace(s, added + known), s.kind.faces + [Count(|s.vertices|, |added|) + at], s.vertices + added, s.cullBackFaces);
  }

  lemma NoDuplicatesFront(vs: seq<Vector3>, more: seq<Vector3>)
    requires NoDuplicates(vs + more)
    ensures NoDuplicates(vs)
  {
    assert (vs + more)[..|vs|] == vs;
    NoDuplicatesPrefix(vs + more, |vs|);
  }

  /** A shape is determined by its parts. */
  lemma AddFaceParts(r: Shape, faces: seq<seq<int>>, vs: seq<Vector3>, cull: bool)
    requires r.kind.Mesh? && r.kind.faces == faces && r.vertices == vs && r.cullBackFaces == cull
    ensures r == Shape(Mesh(faces), vs, cull)
  {
  }

  /** The index faces of a box over its corners in meeting order. */
  const BoxFaces: seq<seq<int>> := [[0, 1, 2, 3], [4, 5, 2, 1], [6, 7, 5, 4], [0, 3, 7, 6], [1, 0, 6, 4], [3, 2, 5, 7]]

  /** The box mesh after its first `n` faces, over corners in meeting order. */
  function BoxStage(k: seq<Vector3>, n: nat): Shape
    requires |k| == 8 && n <= 6
  {
    var vs := MeetOrder(k);
    Shape(Mesh(BoxFaces[..n]), if n == 0 then [] else if n == 1 then vs[..4] else if n == 2 then vs[..6] else vs, false)
  }

  /** Over eight different corners, the box mesh keeps each corner once, in the
      order the faces first meet them, and indexes the faces accordingly. */
  lemma BoxMeshShape(k: seq<Vector3>)
    requires |k| == 8 && NoDuplicates(MeetOrder(k))
    ensures BoxMesh(k).vertices == MeetOrder(k)
    ensures BoxMesh(k).kind == Mesh(BoxFaces)
  {
    BoxMeshStages(k);
    BoxStageSix(k);
  }

  lemma BoxStageSix(k: seq<Vector3>)
    requires |k| == 8
    ensures BoxStage(k, 6).vertices == MeetOrder(k)
    ensures BoxStage(k, 6).kind == Mesh(BoxFaces)
  {
    assert BoxFaces[..6] == BoxFaces;
  }

  lemma BoxMeshStages(k: seq<Vector3>)
    requires |k| == 8 && NoDuplicates(MeetOrder(k))
    ensures BoxMesh(k) == BoxStage(k, 6)
  {
    var a, b, c, d, e, f, g, h := k[0], k[1], k[2], k[3], k[4], k[5], k[6], k[7];
    assert BoxStage(k, 0) == EmptyMesh;
    var m1 := AddFace(EmptyMesh, [a, b, c, d]);
    BoxFace1(k);
    var m2 := AddFace(m1, [f, g, c, b]);
    BoxFace2(k);
    var m3 := AddFace(m2, [e, h, g, f]);
    BoxFace3(k);
    var m4 := AddFace(m3, [a, d, h, e]);
    BoxFace4(k);
    var m5 := AddFace(m4, [b, a, e, f]);
    BoxFace5(k);
    BoxFace6(k);
    assert m5 == BoxStage(k, 5);
    assert BoxMesh(k) == AddFace(m5, [d, c, g, h]);
  }

  lemma BoxFace1(k: seq<Vector3>)
    requires |k| == 8 && NoDuplicates(MeetOrder(k))
    ensures AddFace(BoxStage(k, 0), [k[0], k[1], k[2], k[3]]) == BoxStage(k, 1)
  {
    var v1 := MeetOrder(k)[..4];
    assert v1 == [k[0], k[1], k[2], k[3]];
    NoDuplicatesPrefix(MeetOrder(k), 4);
    FirstFace(v1);
    BoxRows();
    assert BoxFaces[..1] == [BoxFaces[0]];
    assert BoxStage(k, 0) == EmptyMesh && BoxStage(k, 1) == Shape(Mesh(BoxFaces[..1]), v1, false);
  }

  lemma BoxFace2(k: seq<Vector3>)
    requires |k| == 8 && NoDuplicates(MeetOrder(k))
    ensures AddFace(BoxStage(k, 1), [k[5], k[6], k[2], k[1]]) == BoxStage(k, 2)
  {
    var vs := MeetOrder(k);
    assert vs[..4] + [k[5], k[6]] == vs[..6];
    assert [k[5], k[6]] + [k[2], k[1]] == [k[5], k[6], k[2], k[1]];
    NoDuplicatesPrefix(vs, 6);
    AddFaceStep(BoxStage(k, 1), [k[5], k[6]], [k[2], k[1]], [2, 1]);
    BoxRows();
    BoxPrefix(1);
  }

  lemma BoxFace3(k: seq<Vector3>)
    requires |k| == 8 && NoDuplicates(MeetOrder(k))
    ensures AddFace(BoxStage(k, 2), [k[4], k[7], k[6], k[5]]) == BoxStage(k, 3)
  {
    var vs := MeetOrder(k);
    assert vs[..6] + [k[4], k[7]] == vs;
    assert [k[4], k[7]] + [k[6], k[5]] == [k[4], k[7], k[6], k[5]];
    AddFaceStep(BoxStage(k, 2), [k[4], k[7]], [k[6], k[5]], [5, 4]);
    BoxRows();
    BoxPrefix(2);
  }

  lemma BoxFace4(k: seq<Vector3>)
    requires |k| == 8 && NoDuplicates(MeetOrder(k))
    ensures AddFace(BoxStage(k, 3), [k[0], k[3], k[7], k[4]]) == BoxStage(k, 4)
  {
    KnownStep(k, 3, [k[0], k[3], k[7], k[4]], [0, 3, 7, 6]);
  }

  lemma BoxFace5(k: seq<Vector3>)
    requires |k| == 8 && NoDuplicates(MeetOrder(k))
    ensures AddFace(BoxStage(k, 4), [k[1], k[0], k[4], k[5]]) == BoxStage(k, 5)
  {
    KnownStep(k, 4, [k[1], k[0], k[4], k[5]], [1, 0, 6, 4]);
  }

  lemma BoxFace6(k: seq<Vector3>)
    requires |k| == 8 && NoDuplicates(MeetOrder(k))
    ensures AddFace(BoxStage(k, 5), [k[3], k[2], k[6], k[7]]) == BoxStage(k, 6)
  {
    KnownStep(k, 5, [k[3], k[2], k[6], k[7]], [3, 2, 5, 7]);
  }

  /** A box face all of whose corners are already vertices. */
  lemma KnownStep(k: seq<Vector3>, n: nat, known: seq<Vector3>, at: seq<int>)
    requires |k| == 8 && NoDuplicates(MeetOrder(k)) && 3 <= n < 6
    requires BoxFaces[n] == at && |at| == |known|
    requires forall i :: 0 <= i < |known| ==> 0 <= at[i] < 8 && MeetOrder(k)[at[i]] == known[i]
    ensures AddFace(BoxStage(k, n), known) == BoxStage(k, n + 1)
  {
    var vs := MeetOrder(k);
    assert BoxStage(k, n) == Shape(Mesh(BoxFaces[..n]), vs, false);
    assert BoxStage(k, n + 1) == Shape(Mesh(BoxFaces[..n + 1]), vs, false);
    assert vs + [] == vs && [] + known == known;
    AddFaceStep(BoxStage(k, n), [], known, at);
    assert Count(8, 0) == [] && Count(8, 0) + at == at;
    BoxPrefix(n);
  }

  /** The index faces of the box, each as its new indices followed by known ones. */
  lemma BoxRows()
    ensures BoxFaces[0] == Count(0, 4)
    ensures BoxFaces[1] == Count(4, 2) + [2, 1] && BoxFaces[2] == Count(6, 2) + [5, 4]
  {
    CountRuns();
  }

  lemma BoxPrefix(n: nat)
    requires n < 6
    ensures BoxFaces[..n + 1] == BoxFaces[..n] + [BoxFaces[n]]
  {
  }

  lemma NoDuplicatesPrefix(vs: seq<Vector3>, n: int)
    requires NoDuplicates(vs) && 0 <= n <= |vs|
    ensures NoDuplicates(vs[..n])
  {
  }

  /** A box with non-zero sides has eight distinct vertices, and its six faces of
      four indices each are valid. */
  lemma CuboidShape(center: Vector3, dx: real, dy: real, dz: real)
    requires dx != 0.0 && dy != 0.0 && dz != 0.0
    ensures var r := Cuboid3(center, dx, dy, dz);
      && r.vertices == MeetOrder(Corners(center, dx, dy, dz))
      && |r.vertices| == 8 && NoDuplicates(r.vertices) && Valid(r)
      && r.kind == Mesh(BoxFaces)
  {
    CornersDistinct(center, dx, dy, dz);
    BoxMeshShape(Corners(center, dx, dy, dz));
    BoxFacesInRange();
  }

  lemma BoxFacesInRange()
    ensures IndicesBelow(BoxFaces, 8)
  {
  }

  lemma CornersDistinct(center: Vector3, dx: real, dy: real, dz: real)
    requires dx != 0.0 && dy != 0.0 && dz != 0.0
    ensures NoDuplicates(MeetOrder(Corners(center, dx, dy, dz)))
  {
  }
}
