/** The scene (Scenes/Scene.cs): an ordered list of shapes, the projection of their
    faces onto the console with back-face culling, and the drawing of the projected
    polygons. The console size the source reads from the window is a parameter, and
    so are the square root and trigonometric functions. */
module Scenes {
  import opened Numeric
  import opened Vectors3
  import Vectors2
  import Lines
  import Results
  import Polygons
  import Render
  import Shapes

  /** What the projection needs of a scene: the model size, the camera distance
      from the origin along +Z, and the horizontal stretch of a console cell. */
  datatype View = View(modelSize: real, cameraDistance: real, aspect: real)

  /** The shapes in the order they were added, and the view. */
  datatype Scene = Scene(shapes: seq<Shapes.Shape>, view: View)

  /** A scene has no shapes when created, and a console cell is taken to be twice
      as tall as it is wide. */
  function NewScene(modelSize: real, cameraDistance: real): (sc: Scene)
    ensures sc.shapes == [] && sc.view.aspect == 2.0
    ensures sc.view.modelSize == modelSize && sc.view.cameraDistance == cameraDistance
  {
    Scene([], View(modelSize, cameraDistance, 2.0))
  }

  // ---------------------------------------------------------------------------
  // The shape list

  function AddShape(sc: Scene, s: Shapes.Shape): (r: Scene)
    ensures |r.shapes| == |sc.shapes| + 1 && r.shapes[|sc.shapes|] == s
    ensures r.shapes[..|sc.shapes|] == sc.shapes
    ensures r.view == sc.view
  {
    sc.(shapes := sc.shapes + [s])
  }

  /** `AddShapes(params Shape[])`: each shape added in turn. */
  function AddShapes(sc: Scene, ss: seq<Shapes.Shape>): Scene
    decreases |ss|
  {
    if ss == [] then sc else AddShapes(AddShape(sc, ss[0]), ss[1..])
  }

  /** Adding several shapes appends them in call order and changes nothing else. */
  lemma {:induction false} AddShapesAppend(sc: Scene, ss: seq<Shapes.Shape>)
    ensures AddShapes(sc, ss) == sc.(shapes := sc.shapes + ss)
    decreases |ss|
  {
    if ss != [] {
      AddShapesAppend(AddShape(sc, ss[0]), ss[1..]);
      assert sc.shapes + [ss[0]] + ss[1..] == sc.shapes + ss;
    } else {
      assert sc.shapes + ss == sc.shapes;
    }
  }

  // ---------------------------------------------------------------------------
  // Scene-wide transforms: the same operation on every shape, in place

  function MapShapes(sc: Scene, f: Shapes.Shape -> Shapes.Shape): (r: Scene)
    ensures |r.shapes| == |sc.shapes|
    ensures forall i :: 0 <= i < |sc.shapes| ==> r.shapes[i] == f(sc.shapes[i])
    ensures r.view == sc.view
  {
    sc.(shapes := seq(|sc.shapes|, i requires 0 <= i < |sc.shapes| => f(sc.shapes[i])))
  }

  /** Every shape keeps its kind and its vertex count. */
  predicate SameLayout(a: Scene, b: Scene) {
    && |a.shapes| == |b.shapes|
    && forall i :: 0 <= i < |a.shapes| ==>
         a.shapes[i].kind == b.shapes[i].kind && |a.shapes[i].vertices| == |b.shapes[i].vertices|
  }

  function RotateX(sc: Scene, angle: real, m: Maths): (r: Scene)
    ensures SameLayout(sc, r) && r.view == sc.view
    ensures forall i :: 0 <= i < |sc.shapes| ==> r.shapes[i] == Shapes.RotateX(sc.shapes[i], angle, m)
  {
    MapShapes(sc, s => Shapes.RotateX(s, angle, m))
  }

  function RotateY(sc: Scene, angle: real, m: Maths): (r: Scene)
    ensures SameLayout(sc, r) && r.view == sc.view
    ensures forall i :: 0 <= i < |sc.shapes| ==> r.shapes[i] == Shapes.RotateY(sc.shapes[i], angle, m)
  {
    MapShapes(sc, s => Shapes.RotateY(s, angle, m))
  }

  function RotateZ(sc: Scene, angle: real, m: Maths): (r: Scene)
    ensures SameLayout(sc, r) && r.view == sc.view
    ensures forall i :: 0 <= i < |sc.shapes| ==> r.shapes[i] == Shapes.RotateZ(sc.shapes[i], angle, m)
  {
    MapShapes(sc, s => Shapes.RotateZ(s, angle, m))
  }

  function RotateAbout(sc: Scene, axis: Vector3, angle: real, m: Maths): (r: Scene)
    requires m.RootLaw()
    ensures SameLayout(sc, r) && r.view == sc.view
    ensures forall i :: 0 <= i < |sc.shapes| ==> r.shapes[i] == Shapes.RotateAbout(sc.shapes[i], axis, angle, m)
  {
    MapShapes(sc, s => Shapes.RotateAbout(s, axis, angle, m))
  }

  function Translate(sc: Scene, delta: Vector3): (r: Scene)
    ensures SameLayout(sc, r) && r.view == sc.view
    ensures forall i :: 0 <= i < |sc.shapes| ==> r.shapes[i] == Shapes.Translate(sc.shapes[i], delta)
  {
    MapShapes(sc, s => Shapes.Translate(s, delta))
  }

  /** Turning the scene back by the opposite angle, or moving it back by the
      opposite vector, restores it. */
  lemma TransformsInvert(sc: Scene, angle: real, delta: Vector3, m: Maths)
    requires m.TrigLaw() && m.Reflects(angle)
    ensures RotateX(RotateX(sc, angle, m), -angle, m) == sc
    ensures RotateY(RotateY(sc, angle, m), -angle, m) == sc
    ensures RotateZ(RotateZ(sc, angle, m), -angle, m) == sc
    ensures Translate(Translate(sc, delta), Neg(delta)) == sc
  {
    forall i | 0 <= i < |sc.shapes|
      ensures Shapes.RotateX(Shapes.RotateX(sc.shapes[i], angle, m), -angle, m) == sc.shapes[i]
      ensures Shapes.RotateY(Shapes.RotateY(sc.shapes[i], angle, m), -angle, m) == sc.shapes[i]
      ensures Shapes.RotateZ(Shapes.RotateZ(sc.shapes[i], angle, m), -angle, m) == sc.shapes[i]
      ensures Shapes.Translate(Shapes.Translate(sc.shapes[i], delta), Neg(delta)) == sc.shapes[i]
    {
      Shapes.RotateInverse(sc.shapes[i], angle, m);
      Shapes.TranslateInverse(sc.shapes[i], delta);
    }
    assert RotateX(RotateX(sc, angle, m), -angle, m).shapes == sc.shapes;
    assert RotateY(RotateY(sc, angle, m), -angle, m).shapes == sc.shapes;
    assert RotateZ(RotateZ(sc, angle, m), -angle, m).shapes == sc.shapes;
    assert Translate(Translate(sc, delta), Neg(delta)).shapes == sc.shapes;
  }

  /** Every scene-wide transform keeps every shape valid. */
  lemma TransformsKeepValid(sc: Scene, angle: real, axis: Vector3, delta: Vector3, m: Maths)
    requires m.RootLaw()
    requires forall i :: 0 <= i < |sc.shapes| ==> Shapes.Valid(sc.shapes[i])
    ensures forall i :: 0 <= i < |sc.shapes| ==>
      && Shapes.Valid(RotateX(sc, angle, m).shapes[i])
      && Shapes.Valid(RotateY(sc, angle, m).shapes[i])
      && Shapes.Valid(RotateZ(sc, angle, m).shapes[i])
      && Shapes.Valid(RotateAbout(sc, axis, angle, m).shapes[i])
      && Shapes.Valid(Translate(sc, delta).shapes[i])
  {
    forall i | 0 <= i < |sc.shapes|
      ensures Shapes.Valid(Shapes.RotateX(sc.shapes[i], angle, m))
      ensures Shapes.Valid(Shapes.RotateY(sc.shapes[i], angle, m))
      ensures Shapes.Valid(Shapes.RotateZ(sc.shapes[i], angle, m))
      ensures Shapes.Valid(Shapes.RotateAbout(sc.shapes[i], axis, angle, m))
      ensures Shapes.Valid(Shapes.Translate(sc.shapes[i], delta))
    {
      Shapes.TransformsKeepValid(sc.shapes[i], angle, axis, delta, 1.0, Zero, m);
    }
  }

  // ---------------------------------------------------------------------------
  // Perspective projection of a node

  /** The camera sits on the +Z axis at the camera distance and looks toward -Z. */
  function Camera(view: View): Vector3 {
    Vector3(0.0, 0.0, view.cameraDistance)
  }

  /** The console position of a node: a pinhole projection through the camera,
      scaled by half the smaller console side over the model size and centred on
      the console. The centre `width/2`, `height/2` and the vertical scale
      `screenSize/2` are integer divisions; the horizontal scale is
      `aspect * screenSize / 2` in floating point. A node level with the camera
      would divide by zero, as would a zero model size. */
  function ProjectNode(view: View, v: Vector3, width: int, height: int): Vectors2.Vector2
    requires view.modelSize != 0.0 && v.z != view.cameraDistance
  {
    var depth := view.cameraDistance - v.z;
    Vectors2.Vector2(Half(width) as real + Perspective(ScaleX(view, width, height), v.x, view.modelSize, depth),
                     Half(height) as real - Perspective(ScaleY(view, width, height), v.y, view.modelSize, depth))
  }

  /** `Aspect * screenSize / 2 * CameraDistance`, in floating point throughout. */
  function ScaleX(view: View, width: int, height: int): real {
    view.aspect * MinInt(width, height) as real / 2.0 * view.cameraDistance
  }

  /** `screenSize / 2 * CameraDistance`, the halving an integer division. */
  function ScaleY(view: View, width: int, height: int): real {
    Half(MinInt(width, height)) as real * view.cameraDistance
  }

  /** One coordinate's offset from the console centre: the scale times the
      coordinate, over the model size times the node's depth in front of the
      camera. */
  function Perspective(scale: real, coord: real, modelSize: real, depth: real): real
    requires modelSize != 0.0 && depth != 0.0
  {
    scale * coord / (modelSize * depth)
  }

  /** A node on the camera axis lands on the console centre, both coordinates the
      truncated halves of the console size. */
  lemma OnAxisNode(view: View, z: real, width: int, height: int)
    requires view.modelSize != 0.0 && z != view.cameraDistance
    ensures ProjectNode(view, Vector3(0.0, 0.0, z), width, height) == Vectors2.Vector2(Half(width) as real, Half(height) as real)
  {
  }

  /** Every node on one ray from the camera lands on the same console position:
      moving a node `t` times as far from the camera along its line of sight does
      not move its projection. */
  lemma SameRay(view: View, v: Vector3, t: real, width: int, height: int)
    requires view.modelSize != 0.0 && v.z != view.cameraDistance && t != 0.0
    ensures var w := Add(Camera(view), Vectors3.Scale(Sub(v, Camera(view)), t));
      w.z != view.cameraDistance && ProjectNode(view, w, width, height) == ProjectNode(view, v, width, height)
  {
    var d := view.cameraDistance;
    var w := Add(Camera(view), Vectors3.Scale(Sub(v, Camera(view)), t));
    assert w.x == t * v.x && w.y == t * v.y;
    assert d - w.z == t * (d - v.z);
    ProductNonZero(t, d - v.z, d - w.z);
    SameRayNode(view, v, w, t, width, height);
  }

  lemma SameRayNode(view: View, v: Vector3, w: Vector3, t: real, width: int, height: int)
    requires view.modelSize != 0.0 && v.z != view.cameraDistance && w.z != view.cameraDistance && t != 0.0
    requires w.x == t * v.x && w.y == t * v.y && view.cameraDistance - w.z == t * (view.cameraDistance - v.z)
    ensures ProjectNode(view, w, width, height) == ProjectNode(view, v, width, height)
  {
    PerspectiveScale(ScaleX(view, width, height), v.x, w.x, t, view.modelSize, view.cameraDistance - v.z, view.cameraDistance - w.z);
    PerspectiveScale(ScaleY(view, width, height), v.y, w.y, t, view.modelSize, view.cameraDistance - v.z, view.cameraDistance - w.z);
    SameOffsets(view, v, w, width, height);
  }

  /** Nodes whose perspective offsets agree land on the same point. */
  lemma SameOffsets(view: View, v: Vector3, w: Vector3, width: int, height: int)
    requires view.modelSize != 0.0 && v.z != view.cameraDistance && w.z != view.cameraDistance
    requires Perspective(ScaleX(view, width, height), w.x, view.modelSize, view.cameraDistance - w.z)
          == Perspective(ScaleX(view, width, height), v.x, view.modelSize, view.cameraDistance - v.z)
    requires Perspective(ScaleY(view, width, height), w.y, view.modelSize, view.cameraDistance - w.z)
          == Perspective(ScaleY(view, width, height), v.y, view.modelSize, view.cameraDistance - v.z)
    ensures ProjectNode(view, w, width, height) == ProjectNode(view, v, width, height)
  {
    ProjectNodeIs(view, v, width, height);
    ProjectNodeIs(view, w, width, height);
  }

  lemma ProjectNodeIs(view: View, v: Vector3, width: int, height: int)
    requires view.modelSize != 0.0 && v.z != view.cameraDistance
    ensures ProjectNode(view, v, width, height)
         == Vectors2.Vector2(Half(width) as real + Perspective(ScaleX(view, width, height), v.x, view.modelSize, view.cameraDistance - v.z),
                             Half(height) as real - Perspective(ScaleY(view, width, height), v.y, view.modelSize, view.cameraDistance - v.z))
  {
  }

  lemma ProductNonZero(t: real, depth: real, depth2: real)
    requires t != 0.0 && depth != 0.0 && depth2 == t * depth
    ensures depth2 != 0.0
  {
  }

  /** Scaling the coordinate and the depth together leaves the offset unchanged. */
  lemma PerspectiveScale(scale: real, coord: real, coord2: real, t: real, modelSize: real, depth: real, depth2: real)
    requires t != 0.0 && modelSize != 0.0 && depth != 0.0 && depth2 == t * depth && coord2 == t * coord
    ensures depth2 != 0.0
    ensures Perspective(scale, coord2, modelSize, depth2) == Perspective(scale, coord, modelSize, depth)
  {
    assert scale * coord2 == t * (scale * coord);
    assert modelSize * depth2 == t * (modelSize * depth);
  }

  // ---------------------------------------------------------------------------
  // Back-face culling

  /** The normal of a face from its first three nodes only:
      `n0 × n1 + n1 × n2 + n2 × n0`. */
  function FaceNormal(nodes: seq<Vector3>): Vector3
    requires |nodes| >= 3
  {
    Add(Add(Cross(nodes[0], nodes[1]), Cross(nodes[1], nodes[2])), Cross(nodes[2], nodes[0]))
  }

  /** The sum of cross products is the cross product of the two edges leaving the
      first node, so it does not depend on where the origin is. */
  lemma FaceNormalOfEdges(nodes: seq<Vector3>)
    requires |nodes| >= 3
    ensures FaceNormal(nodes) == Cross(Sub(nodes[1], nodes[0]), Sub(nodes[2], nodes[0]))
  {
    var a, b, c := nodes[0], nodes[1], nodes[2];
    CrossSumParts(a, b, c);
    EdgeCrossParts(a, b, c);
    EdgeCross(a.y, a.z, b.y, b.z, c.y, c.z);
    EdgeCross(a.z, a.x, b.z, b.x, c.z, c.x);
    EdgeCross(a.x, a.y, b.x, b.y, c.x, c.y);
  }

  lemma CrossSumParts(a: Vector3, b: Vector3, c: Vector3)
    ensures Add(Add(Cross(a, b), Cross(b, c)), Cross(c, a))
         == Vector3((a.y * b.z - a.z * b.y) + (b.y * c.z - b.z * c.y) + (c.y * a.z - c.z * a.y),
                    (a.z * b.x - a.x * b.z) + (b.z * c.x - b.x * c.z) + (c.z * a.x - c.x * a.z),
                    (a.x * b.y - a.y * b.x) + (b.x * c.y - b.y * c.x) + (c.x * a.y - c.y * a.x))
  {
    AddThree(Cross(a, b), Cross(b, c), Cross(c, a));
    CrossIs(a, b);
    CrossIs(b, c);
    CrossIs(c, a);
  }

  lemma CrossIs(a: Vector3, b: Vector3)
    ensures Cross(a, b) == Vector3(a.y * b.z - a.z * b.y, a.z * b.x - a.x * b.z, a.x * b.y - a.y * b.x)
  {
  }

  lemma AddThree(u: Vector3, v: Vector3, w: Vector3)
    ensures Add(Add(u, v), w) == Vector3(u.x + v.x + w.x, u.y + v.y + w.y, u.z + v.z + w.z)
  {
  }

  lemma EdgeCrossParts(a: Vector3, b: Vector3, c: Vector3)
    ensures Cross(Sub(b, a), Sub(c, a))
         == Vector3((b.y - a.y) * (c.z - a.z) - (b.z - a.z) * (c.y - a.y),
                    (b.z - a.z) * (c.x - a.x) - (b.x - a.x) * (c.z - a.z),
                    (b.x - a.x) * (c.y - a.y) - (b.y - a.y) * (c.x - a.x))
  {
  }

  /** One component of the identity above, over the two coordinates it uses. */
  lemma EdgeCross(p0: real, q0: real, p1: real, q1: real, p2: real, q2: real)
    ensures (p0 * q1 - q0 * p1) + (p1 * q2 - q1 * p2) + (p2 * q0 - q2 * p0)
         == (p1 - p0) * (q2 - q0) - (q1 - q0) * (p2 - p0)
  {
  }

  /** The vector from the camera to the centroid of the face. */
  function Eye(view: View, nodes: seq<Vector3>): (r: Vector3)
    requires |nodes| > 0
    ensures Add(Camera(view), r) == Shapes.CenterOfFace(nodes)
  {
    Sub(Shapes.CenterOfFace(nodes), Vectors3.Scale(UnitZ, view.cameraDistance))
  }

  /** A face of at least three nodes is culled when the line of sight to its
      centroid makes an acute angle with its normalised normal. */
  predicate Culled(view: View, nodes: seq<Vector3>, m: Maths)
    requires m.RootLaw()
  {
    |nodes| >= 3 && Dot(Eye(view, nodes), Normalized(FaceNormal(nodes), m)) > 0.0
  }

  /** Whether `Project` keeps the face. */
  predicate Kept(view: View, nodes: seq<Vector3>, cull: bool, m: Maths)
    requires m.RootLaw()
  {
    !(cull && Culled(view, nodes, m))
  }

  /** The sign test can be made on the normal before normalising it. */
  lemma CullSign(view: View, nodes: seq<Vector3>, m: Maths)
    requires m.RootLaw() && |nodes| >= 3
    ensures Culled(view, nodes, m) <==> Dot(Eye(view, nodes), FaceNormal(nodes)) > 0.0
  {
    NormalizedSign(FaceNormal(nodes), Eye(view, nodes), m);
  }

  /** A face whose first three nodes give a zero normal (collinear or repeated
      nodes) is kept, as is one the line of sight grazes. */
  lemma EdgeOnKept(view: View, nodes: seq<Vector3>, m: Maths)
    requires m.RootLaw() && |nodes| >= 3
    requires FaceNormal(nodes) == Zero || Dot(Eye(view, nodes), FaceNormal(nodes)) == 0.0
    ensures !Culled(view, nodes, m)
  {
    var e, n := Eye(view, nodes), FaceNormal(nodes);
    if n == Zero {
      DotZero(e);
    }
    CullSign(view, nodes, m);
  }

  lemma DotZero(e: Vector3)
    ensures Dot(e, Zero) == 0.0
  {
  }

  // ---------------------------------------------------------------------------
  // Projection of faces

  /** No node of the face is level with the camera. */
  predicate FaceProjectable(view: View, nodes: seq<Vector3>) {
    forall j :: 0 <= j < |nodes| ==> nodes[j].z != view.cameraDistance
  }

  /** The keep decision for each face, in face order. */
  function Mask(view: View, faces: seq<seq<Vector3>>, cull: bool, m: Maths): (r: seq<bool>)
    requires m.RootLaw()
    ensures |r| == |faces|
    ensures forall i :: 0 <= i < |faces| ==> r[i] == Kept(view, faces[i], cull, m)
  {
    seq(|faces|, i requires 0 <= i < |faces| => Kept(view, faces[i], cull, m))
  }

  /** The model size is non-zero and every face the mask keeps can be projected. */
  predicate MaskProjectable(view: View, faces: seq<seq<Vector3>>, mask: seq<bool>) {
    && |mask| == |faces|
    && view.modelSize != 0.0
    && forall i :: 0 <= i < |faces| && mask[i] ==> FaceProjectable(view, faces[i])
  }

  /** Every face that is not culled can be projected; a culled face is never
      divided by, so its nodes are unconstrained. */
  predicate CanProject(view: View, faces: seq<seq<Vector3>>, cull: bool, m: Maths)
    requires m.RootLaw()
  {
    MaskProjectable(view, faces, Mask(view, faces, cull, m))
  }

  /** The polygon of a face: its nodes projected one by one. */
  function ProjectFace(view: View, nodes: seq<Vector3>, width: int, height: int): (p: Polygons.Polygon2)
    requires view.modelSize != 0.0 && FaceProjectable(view, nodes)
    ensures |p.vertices| == |nodes|
    ensures forall j :: 0 <= j < |nodes| ==> p.vertices[j] == ProjectNode(view, nodes[j], width, height)
  {
    Polygons.Polygon2(seq(|nodes|, j requires 0 <= j < |nodes| => ProjectNode(view, nodes[j], width, height)))
  }

  /** The polygons of the faces the mask keeps, in face order. */
  function ProjectMasked(view: View, faces: seq<seq<Vector3>>, mask: seq<bool>, width: int, height: int)
    : (r: seq<Polygons.Polygon2>)
    requires MaskProjectable(view, faces, mask)
    ensures |r| <= |faces|
  {
    if faces == [] then []
    else
      var n := |faces| - 1;
      assert MaskProjectable(view, faces[..n], mask[..n]);
      ProjectMasked(view, faces[..n], mask[..n], width, height)
        + (if mask[n] then [ProjectFace(view, faces[n], width, height)] else [])
  }

  /** `Scene.Project`: the polygons of the faces that are kept, in face order. */
  function Project(view: View, faces: seq<seq<Vector3>>, cull: bool, width: int, height: int, m: Maths)
    : seq<Polygons.Polygon2>
    requires m.RootLaw() && CanProject(view, faces, cull, m)
  {
    ProjectMasked(view, faces, Mask(view, faces, cull, m), width, height)
  }

  /** The positions the mask keeps, in increasing order. */
  function Selected(mask: seq<bool>): (ks: seq<int>)
    ensures forall k :: 0 <= k < |ks| ==> 0 <= ks[k] < |mask| && mask[ks[k]]
    ensures forall k, l :: 0 <= k < l < |ks| ==> ks[k] < ks[l]
    ensures forall i :: 0 <= i < |mask| && mask[i] ==> i in ks
  {
    if mask == [] then []
    else
      var n := |mask| - 1;
      Selected(mask[..n]) + (if mask[n] then [n] else [])
  }

  /** The masked projection is the projection of the selected faces. */
  lemma {:induction false} MaskedSelected(view: View, faces: seq<seq<Vector3>>, mask: seq<bool>, width: int, height: int)
    requires MaskProjectable(view, faces, mask)
    ensures var r, ks := ProjectMasked(view, faces, mask, width, height), Selected(mask);
      && |r| == |ks|
      && forall k :: 0 <= k < |ks| ==> r[k] == ProjectFace(view, faces[ks[k]], width, height)
    decreases |faces|
  {
    if faces != [] {
      var n := |faces| - 1;
      assert MaskProjectable(view, faces[..n], mask[..n]);
      MaskedSelected(view, faces[..n], mask[..n], width, height);
      var r0, ks0 := ProjectMasked(view, faces[..n], mask[..n], width, height), Selected(mask[..n]);
      var r, ks := ProjectMasked(view, faces, mask, width, height), Selected(mask);
      assert r[..|r0|] == r0 && ks[..|ks0|] == ks0;
      forall k | 0 <= k < |ks0|
        ensures r[k] == ProjectFace(view, faces[ks[k]], width, height)
      {
        assert r[k] == r0[k] && ks[k] == ks0[k];
        assert faces[..n][ks0[k]] == faces[ks0[k]];
      }
    }
  }

  /** A mask keeping every face projects every face, in order. */
  lemma {:induction false} MaskedAll(view: View, faces: seq<seq<Vector3>>, mask: seq<bool>, width: int, height: int)
    requires MaskProjectable(view, faces, mask) && forall i :: 0 <= i < |mask| ==> mask[i]
    ensures var r := ProjectMasked(view, faces, mask, width, height);
      && |r| == |faces|
      && forall i :: 0 <= i < |faces| ==> r[i] == ProjectFace(view, faces[i], width, height)
    decreases |faces|
  {
    if faces != [] {
      var n := |faces| - 1;
      assert MaskProjectable(view, faces[..n], mask[..n]);
      MaskedAll(view, faces[..n], mask[..n], width, height);
      assert forall i :: 0 <= i < n ==> faces[..n][i] == faces[i];
    }
  }

  /** The positions of the faces that are kept. */
  function KeptIndices(view: View, faces: seq<seq<Vector3>>, cull: bool, m: Maths): (ks: seq<int>)
    requires m.RootLaw()
    ensures forall k :: 0 <= k < |ks| ==> 0 <= ks[k] < |faces| && Kept(view, faces[ks[k]], cull, m)
    ensures forall k, l :: 0 <= k < l < |ks| ==> ks[k] < ks[l]
    ensures forall i :: 0 <= i < |faces| && Kept(view, faces[i], cull, m) ==> i in ks
  {
    Selected(Mask(view, faces, cull, m))
  }

  /** `Project` yields, in input order, exactly the polygons of the faces that are
      not culled: a face is dropped if and only if culling is on and it faces away
      from the camera. */
  lemma ProjectKeptFaces(view: View, faces: seq<seq<Vector3>>, cull: bool, width: int, height: int, m: Maths)
    requires m.RootLaw() && CanProject(view, faces, cull, m)
    ensures var r, ks := Project(view, faces, cull, width, height, m), KeptIndices(view, faces, cull, m);
      && |r| == |ks|
      && forall k :: 0 <= k < |ks| ==> r[k] == ProjectFace(view, faces[ks[k]], width, height)
  {
    MaskedSelected(view, faces, Mask(view, faces, cull, m), width, height);
  }

  /** With culling off, there is one polygon per face, in face order. */
  lemma ProjectAll(view: View, faces: seq<seq<Vector3>>, width: int, height: int, m: Maths)
    requires m.RootLaw() && CanProject(view, faces, false, m)
    ensures var r := Project(view, faces, false, width, height, m);
      && |r| == |faces|
      && forall i :: 0 <= i < |faces| ==> r[i] == ProjectFace(view, faces[i], width, height)
  {
    MaskedAll(view, faces, Mask(view, faces, false, m), width, height);
  }

  /** Faces of fewer than three nodes are never culled: when every face is that
      short, culling changes nothing. */
  lemma ShortFacesNeverCulled(view: View, faces: seq<seq<Vector3>>, width: int, height: int, m: Maths)
    requires m.RootLaw() && CanProject(view, faces, false, m)
    requires forall i :: 0 <= i < |faces| ==> |faces[i]| < 3
    ensures CanProject(view, faces, true, m)
    ensures Project(view, faces, true, width, height, m) == Project(view, faces, false, width, height, m)
  {
    assert Mask(view, faces, true, m) == Mask(view, faces, false, m);
  }

  /** The source's loop: for each face, the culling test, then the projection of
      each node into a new point array. */
  method ProjectFaces(view: View, faces: seq<seq<Vector3>>, cull: bool, width: int, height: int, m: Maths)
    returns (polygons: seq<Polygons.Polygon2>)
    requires m.RootLaw() && CanProject(view, faces, cull, m)
    ensures polygons == Project(view, faces, cull, width, height, m)
  {
    var mask := Mask(view, faces, cull, m);
    polygons := [];
    for i := 0 to |faces|
      invariant MaskProjectable(view, faces[..i], mask[..i])
      invariant polygons == ProjectMasked(view, faces[..i], mask[..i], width, height)
    {
      MaskedStep(view, faces, mask, i, width, height);
      var nodes := faces[i];
      if cull && |nodes| >= 3 {
        var normal := Normalized(FaceNormal(nodes), m);
        var center := Shapes.GetCenterOfFace(nodes);
        var eye := Sub(center, Vectors3.Scale(UnitZ, view.cameraDistance));
        assert eye == Eye(view, nodes);
        if Dot(eye, normal) > 0.0 {
          assert !mask[i];
          continue;
        }
      }
      assert mask[i];
      var p := ProjectNodes(view, nodes, width, height);
      polygons := polygons + [p];
    }
    assert faces[..|faces|] == faces && mask[..|faces|] == mask;
  }

  /** One more face of the masked projection. */
  lemma MaskedStep(view: View, faces: seq<seq<Vector3>>, mask: seq<bool>, i: int, width: int, height: int)
    requires MaskProjectable(view, faces, mask) && 0 <= i < |faces|
    ensures MaskProjectable(view, faces[..i], mask[..i]) && MaskProjectable(view, faces[..i + 1], mask[..i + 1])
    ensures mask[i] ==> FaceProjectable(view, faces[i])
    ensures ProjectMasked(view, faces[..i + 1], mask[..i + 1], width, height)
         == ProjectMasked(view, faces[..i], mask[..i], width, height)
          + (if mask[i] then [ProjectFace(view, faces[i], width, height)] else [])
  {
    assert faces[..i + 1][..i] == faces[..i] && mask[..i + 1][..i] == mask[..i];
    assert faces[..i + 1][i] == faces[i] && mask[..i + 1][i] == mask[i];
  }

  /** The inner loop: each node of a face projected in turn. */
  method ProjectNodes(view: View, nodes: seq<Vector3>, width: int, height: int) returns (p: Polygons.Polygon2)
    requires view.modelSize != 0.0 && FaceProjectable(view, nodes)
    ensures p == ProjectFace(view, nodes, width, height)
  {
    var points: seq<Vectors2.Vector2> := [];
    for j := 0 to |nodes|
      invariant |points| == j
      invariant forall k :: 0 <= k < j ==> points[k] == ProjectNode(view, nodes[k], width, height)
    {
      points := points + [ProjectNode(view, nodes[j], width, height)];
    }
    p := Polygons.Polygon2(points);
  }

  // ---------------------------------------------------------------------------
  // Drawing

  /** The marks of a list of polygons drawn one after another. */
  function DrawPolygons(ps: seq<Polygons.Polygon2>, width: int, height: int): seq<Render.Mark> {
    if ps == [] then []
    else DrawPolygons(ps[..|ps| - 1], width, height) + Render.DrawPolygon(ps[|ps| - 1], width, height)
  }

  /** Whether a shape can be drawn: it is valid and the faces it projects have no
      node level with the camera. A coordinate system is drawn without culling. */
  predicate Drawable(view: View, s: Shapes.Shape, m: Maths)
    requires m.RootLaw()
  {
    Shapes.Valid(s) && CanProject(view, Shapes.GetFaces(s), s.cullBackFaces && !s.kind.Csys?, m)
  }

  /** `Shape.Draw`: project the faces, culling if the shape asks for it, and draw
      each polygon. `Csys3.Draw` projects its three axes without culling and draws
      them in order. */
  function DrawShape(view: View, s: Shapes.Shape, width: int, height: int, m: Maths): seq<Render.Mark>
    requires m.RootLaw() && Drawable(view, s, m)
  {
    var faces := Shapes.GetFaces(s);
    if s.kind.Csys? then
      var axes := Project(view, faces, false, width, height, m);
      ProjectAll(view, faces, width, height, m);
      Render.DrawPolygon(axes[0], width, height)
        + Render.DrawPolygon(axes[1], width, height)
        + Render.DrawPolygon(axes[2], width, height)
    else
      DrawPolygons(Project(view, faces, s.cullBackFaces, width, height, m), width, height)
  }

  /** Every shape drawn. */
  predicate AllDrawable(sc: Scene, m: Maths)
    requires m.RootLaw()
  {
    forall i :: 0 <= i < |sc.shapes| ==> Drawable(sc.view, sc.shapes[i], m)
  }

  /** `Scene.Draw`: every shape, in the order added. */
  function DrawScene(sc: Scene, width: int, height: int, m: Maths): seq<Render.Mark>
    requires m.RootLaw() && AllDrawable(sc, m)
    decreases |sc.shapes|
  {
    if sc.shapes == [] then []
    else
      var n := |sc.shapes| - 1;
      var rest := sc.(shapes := sc.shapes[..n]);
      DrawScene(rest, width, height, m) + DrawShape(sc.view, sc.shapes[n], width, height, m)
  }

  /** A shape added to a scene is drawn after everything already there. */
  lemma DrawAddedShape(sc: Scene, s: Shapes.Shape, width: int, height: int, m: Maths)
    requires m.RootLaw() && AllDrawable(sc, m) && Drawable(sc.view, s, m)
    ensures AllDrawable(AddShape(sc, s), m)
    ensures DrawScene(AddShape(sc, s), width, height, m) == DrawScene(sc, width, height, m) + DrawShape(sc.view, s, width, height, m)
  {
    var r := AddShape(sc, s);
    assert r.(shapes := r.shapes[..|sc.shapes|]) == sc;
  }

  /** A coordinate system draws all three of its axes, in order, whatever its
      culling flag says. */
  lemma CsysDrawsAxes(view: View, s: Shapes.Shape, width: int, height: int, m: Maths)
    requires m.RootLaw() && Drawable(view, s, m) && s.kind.Csys?
    ensures DrawShape(view, s, width, height, m) == DrawPolygons(Project(view, Shapes.GetFaces(s), false, width, height, m), width, height)
  {
    var axes := Project(view, Shapes.GetFaces(s), false, width, height, m);
    ProjectAll(view, Shapes.GetFaces(s), width, height, m);
    assert |axes| == 3;
    var a0, a1 := axes[..1], axes[..2];
    assert a0[..0] == [] && a1[..1] == a0 && axes[..2] == a1;
    assert DrawPolygons(a0, width, height) == Render.DrawPolygon(axes[0], width, height);
    assert DrawPolygons(a1, width, height) == DrawPolygons(a0, width, height) + Render.DrawPolygon(axes[1], width, height);
  }

  /** The polygons of the kept faces, one per kept face in face order. */
  function KeptPolygons(view: View, faces: seq<seq<Vector3>>, cull: bool, width: int, height: int, m: Maths)
    : seq<Polygons.Polygon2>
    requires m.RootLaw() && CanProject(view, faces, cull, m)
  {
    var ks := KeptIndices(view, faces, cull, m);
    var mask := Mask(view, faces, cull, m);
    assert forall k :: 0 <= k < |ks| ==> mask[ks[k]];
    seq(|ks|, k requires 0 <= k < |ks| => ProjectFace(view, faces[ks[k]], width, height))
  }

  /** `Shape.Draw`: a shape other than a coordinate system draws the polygons of
      exactly the faces that survive its culling flag, in face order. */
  lemma DrawShapeKeptFaces(view: View, s: Shapes.Shape, width: int, height: int, m: Maths)
    requires m.RootLaw() && Drawable(view, s, m) && !s.kind.Csys?
    ensures DrawShape(view, s, width, height, m)
         == DrawPolygons(KeptPolygons(view, Shapes.GetFaces(s), s.cullBackFaces, width, height, m), width, height)
  {
    var faces := Shapes.GetFaces(s);
    ProjectKeptFaces(view, faces, s.cullBackFaces, width, height, m);
    assert Project(view, faces, s.cullBackFaces, width, height, m)
        == KeptPolygons(view, faces, s.cullBackFaces, width, height, m);
  }

  /** Drawing two polygon lists one after the other is drawing their concatenation. */
  lemma {:induction false} DrawPolygonsAppend(a: seq<Polygons.Polygon2>, b: seq<Polygons.Polygon2>, width: int, height: int)
    ensures DrawPolygons(a + b, width, height) == DrawPolygons(a, width, height) + DrawPolygons(b, width, height)
    decreases |b|
  {
    if b != [] {
      var b' := b[..|b| - 1];
      assert (a + b)[..|a + b| - 1] == a + b';
      assert (a + b)[|a + b| - 1] == b[|b| - 1];
      DrawPolygonsAppend(a, b', width, height);
    } else {
      assert a + b == a;
    }
  }

  // ---------------------------------------------------------------------------
  // Worked cases

  /** A segment from the origin to (4, 0, 0), seen from 8 units away with model
      size 1 and square cells on a 10 by 10 console, projects to (5, 5) and
      (25, 5). */
  lemma SegmentProjects(m: Maths)
    requires m.RootLaw()
    ensures var view, s := View(1.0, 8.0, 1.0), Shapes.Segment3(Zero, Vector3(4.0, 0.0, 0.0));
      && Drawable(view, s, m)
      && Project(view, Shapes.GetFaces(s), false, 10, 10, m) == [SegmentPolygon()]
  {
    var view, s := View(1.0, 8.0, 1.0), Shapes.Segment3(Zero, Vector3(4.0, 0.0, 0.0));
    var faces := Shapes.GetFaces(s);
    assert faces == [[Zero, Vector3(4.0, 0.0, 0.0)]];
    assert Mask(view, faces, false, m) == [true];
    ProjectAll(view, faces, 10, 10, m);
    SegmentFace(view, faces[0]);
  }

  function SegmentPolygon(): Polygons.Polygon2 {
    Polygons.Polygon2([Vectors2.Vector2(5.0, 5.0), Vectors2.Vector2(25.0, 5.0)])
  }

  lemma SegmentFace(view: View, nodes: seq<Vector3>)
    requires view == View(1.0, 8.0, 1.0) && nodes == [Zero, Vector3(4.0, 0.0, 0.0)]
    ensures FaceProjectable(view, nodes) && ProjectFace(view, nodes, 10, 10) == SegmentPolygon()
  {
    SegmentNodes(view);
    var p := ProjectFace(view, nodes, 10, 10);
    assert p.vertices == SegmentPolygon().vertices;
  }

  lemma SegmentNodes(view: View)
    requires view == View(1.0, 8.0, 1.0)
    ensures ProjectNode(view, Zero, 10, 10) == Vectors2.Vector2(5.0, 5.0)
    ensures ProjectNode(view, Vector3(4.0, 0.0, 0.0), 10, 10) == Vectors2.Vector2(25.0, 5.0)
  {
    assert Half(10) == 5 && MinInt(10, 10) == 10;
    assert ScaleX(view, 10, 10) == 40.0 && ScaleY(view, 10, 10) == 40.0;
    assert Perspective(40.0, 4.0, 1.0, 8.0) == 20.0;
    assert Perspective(40.0, 0.0, 1.0, 8.0) == 0.0;
  }

  /** Drawn, that segment starts with a big dot at cell (5, 5) and stays in row 5,
      in the columns from 5 to the right edge of the console. */
  lemma SegmentOnScreen(m: Maths)
    requires m.RootLaw()
    ensures var view, s := View(1.0, 8.0, 1.0), Shapes.Segment3(Zero, Vector3(4.0, 0.0, 0.0));
      && Drawable(view, s, m)
      && var marks := DrawShape(view, s, 10, 10, m);
         && |marks| > 0 && marks[0] == Render.Mark(Render.Cell(5, 5), Render.BigGlyph)
         && InRowFive(marks)
  {
    var view, s := View(1.0, 8.0, 1.0), Shapes.Segment3(Zero, Vector3(4.0, 0.0, 0.0));
    SegmentProjects(m);
    var marks := DrawShape(view, s, 10, 10, m);
    assert marks == DrawPolygons([SegmentPolygon()], 10, 10);
    SegmentDraws();
  }

  lemma SegmentDraws()
    ensures var marks := DrawPolygons([SegmentPolygon()], 10, 10);
      && |marks| > 0 && marks[0] == Render.Mark(Render.Cell(5, 5), Render.BigGlyph)
      && InRowFive(marks)
  {
    var poly := SegmentPolygon();
    var p0, p1 := poly.vertices[0], poly.vertices[1];
    var there, back := Lines.Line2(p0, p1), Lines.Line2(p1, p0);
    SinglePolygon(poly, 10, 10);
    Render.DrawLargePolygon(poly, 10, 10);
    SegmentEdges(poly, there, back);
    var a, b := Render.DrawLine(there, 10, 10), Render.DrawLine(back, 10, 10);
    LineInRowFive(there);
    LineInRowFive(back);
    SegmentFirstMark(there);
    RowFiveConcat(a, b);
  }

  lemma SinglePolygon(p: Polygons.Polygon2, width: int, height: int)
    ensures DrawPolygons([p], width, height) == Render.DrawPolygon(p, width, height)
  {
    assert [p][..0] == [];
  }

  /** Marks in row 5, from column 5 to the right edge of a 10-column console. */
  predicate InRowFive(marks: seq<Render.Mark>) {
    forall k :: 0 <= k < |marks| ==> marks[k].at.row == 5 && 5 <= marks[k].at.col <= 9
  }

  lemma RowFiveConcat(a: seq<Render.Mark>, b: seq<Render.Mark>)
    requires InRowFive(a) && InRowFive(b)
    ensures InRowFive(a + b)
  {
  }

  /** Every mark of a segment between (5, 5) and (25, 5), either way round, on a
      10 by 10 console. */
  lemma LineInRowFive(l: Lines.Line2)
    requires l.from.y == 5.0 && l.to.y == 5.0 && Min(l.from.x, l.to.x) == 5.0 && Max(l.from.x, l.to.x) == 25.0
    ensures InRowFive(Render.DrawLine(l, 10, 10))
  {
    Render.LineMarksWithin(l, 10, 10);
    assert Trunc(5.5) == 5;
  }

  lemma SegmentFirstMark(there: Lines.Line2)
    requires there == Lines.Line2(Vectors2.Vector2(5.0, 5.0), Vectors2.Vector2(25.0, 5.0))
    ensures |Render.DrawLine(there, 10, 10)| > 0
    ensures Render.DrawLine(there, 10, 10)[0] == Render.Mark(Render.Cell(5, 5), Render.BigGlyph)
  {
    Render.LineDotsShape(there);
    assert Render.SetCursor(5.0, 5.0, 10, 10) == Results.Some(Render.Cell(5, 5));
  }

  /** The two edges of the projected segment: there and back again. */
  lemma SegmentEdges(poly: Polygons.Polygon2, there: Lines.Line2, back: Lines.Line2)
    requires |poly.vertices| == 2
    requires there == Lines.Line2(poly.vertices[0], poly.vertices[1]) && back == Lines.Line2(poly.vertices[1], poly.vertices[0])
    ensures Polygons.Edges(poly)[..1] == [there]
    ensures forall w, h :: Render.DrawEdges([there], w, h) == Render.DrawLine(there, w, h)
  {
    assert [there][..0] == [];
  }

  /** A box centred on the camera axis, seen from beyond its top face, shows only
      its top face: the camera lies inside the planes of the four sides, so they,
      like the bottom, face away from it, and five of the six faces are culled. */
  lemma OnAxisCube(view: View, cz: real, dx: real, dy: real, dz: real, width: int, height: int, m: Maths)
    requires m.RootLaw() && view.modelSize != 0.0
    requires dx > 0.0 && dy > 0.0 && dz > 0.0 && cz + dz / 2.0 < view.cameraDistance
    ensures var cube := Shapes.Cuboid3(Vector3(0.0, 0.0, cz), dx, dy, dz);
      && Shapes.Valid(cube)
      && var faces := Shapes.GetFaces(cube);
         && |faces| == 6
         && KeptIndices(view, faces, true, m) == [0]
         && CanProject(view, faces, true, m)
         && FaceProjectable(view, faces[0])
         && Project(view, faces, true, width, height, m) == [ProjectFace(view, faces[0], width, height)]
  {
    var k := Shapes.Corners(Vector3(0.0, 0.0, cz), dx, dy, dz);
    CuboidIs(Vector3(0.0, 0.0, cz), dx, dy, dz);
    var box := Shapes.Shape(Shapes.Mesh(Shapes.BoxFaces), Shapes.MeetOrder(k), false);
    var faces := Shapes.GetFaces(box);
    CubeMask(view, cz, dx, dy, dz, k, faces, m);
    OnlyFirstKept(view, faces, width, height, m);
  }

  /** The on-axis box as a plain mesh over its corners in meeting order. */
  lemma CuboidIs(center: Vector3, dx: real, dy: real, dz: real)
    requires dx > 0.0 && dy > 0.0 && dz > 0.0
    ensures var box := Shapes.Shape(Shapes.Mesh(Shapes.BoxFaces), Shapes.MeetOrder(Shapes.Corners(center, dx, dy, dz)), false);
      Shapes.Cuboid3(center, dx, dy, dz) == box && Shapes.Valid(box)
  {
    Shapes.CuboidShape(center, dx, dy, dz);
  }

  /** When exactly the first of six faces is kept and it can be projected, the
      projection is that face's polygon alone. */
  lemma OnlyFirstKept(view: View, faces: seq<seq<Vector3>>, width: int, height: int, m: Maths)
    requires m.RootLaw() && view.modelSize != 0.0 && |faces| == 6
    requires Mask(view, faces, true, m) == [true, false, false, false, false, false]
    requires FaceProjectable(view, faces[0])
    ensures KeptIndices(view, faces, true, m) == [0]
    ensures CanProject(view, faces, true, m)
    ensures Project(view, faces, true, width, height, m) == [ProjectFace(view, faces[0], width, height)]
  {
    var mask := Mask(view, faces, true, m);
    assert MaskProjectable(view, faces, mask);
    SelectedTop(mask);
    ProjectKeptFaces(view, faces, true, width, height, m);
  }

  /** The keep decisions of the six faces of the on-axis box, and the top face
      lies in front of the camera. */
  lemma CubeMask(view: View, cz: real, dx: real, dy: real, dz: real, k: seq<Vector3>, faces: seq<seq<Vector3>>, m: Maths)
    requires m.RootLaw() && dx > 0.0 && dy > 0.0 && dz > 0.0 && cz + dz / 2.0 < view.cameraDistance
    requires k == Shapes.Corners(Vector3(0.0, 0.0, cz), dx, dy, dz)
    requires faces == Shapes.GetFaces(Shapes.Shape(Shapes.Mesh(Shapes.BoxFaces), Shapes.MeetOrder(k), false))
    ensures |faces| == 6
    ensures Mask(view, faces, true, m) == [true, false, false, false, false, false]
    ensures FaceProjectable(view, faces[0])
  {
    Shapes.BoxFacesInRange();
    CubeFaces(k, faces);
    CubeTopProjectable(view, cz, dx, dy, dz, k);
    CubeTop(view, cz, dx, dy, dz, k, m);
    CubeRight(view, cz, dx, dy, dz, k, m);
    CubeBottom(view, cz, dx, dy, dz, k, m);
    CubeLeft(view, cz, dx, dy, dz, k, m);
    CubeFront(view, cz, dx, dy, dz, k, m);
    CubeBack(view, cz, dx, dy, dz, k, m);
    TopOnlyMask(view, faces, m);
  }

  /** The keep mask of six faces of which only the first faces the camera. */
  lemma TopOnlyMask(view: View, faces: seq<seq<Vector3>>, m: Maths)
    requires m.RootLaw() && |faces| == 6
    requires !Culled(view, faces[0], m) && Culled(view, faces[1], m) && Culled(view, faces[2], m)
    requires Culled(view, faces[3], m) && Culled(view, faces[4], m) && Culled(view, faces[5], m)
    ensures Mask(view, faces, true, m) == [true, false, false, false, false, false]
  {
  }

  /** The top face lies in front of the camera. */
  lemma CubeTopProjectable(view: View, cz: real, dx: real, dy: real, dz: real, k: seq<Vector3>)
    requires cz + dz / 2.0 < view.cameraDistance
    requires k == Shapes.Corners(Vector3(0.0, 0.0, cz), dx, dy, dz)
    ensures FaceProjectable(view, [k[0], k[1], k[2], k[3]])
  {
  }

  lemma SelectedTop(mask: seq<bool>)
    requires mask == [true, false, false, false, false, false]
    ensures Selected(mask) == [0]
  {
    SelectedDrop([true, false, false, false, false, false], [true, false, false, false, false]);
    SelectedDrop([true, false, false, false, false], [true, false, false, false]);
    SelectedDrop([true, false, false, false], [true, false, false]);
    SelectedDrop([true, false, false], [true, false]);
    SelectedDrop([true, false], [true]);
    SelectedFirst();
  }

  /** A trailing false entry selects nothing more. */
  lemma SelectedDrop(mask: seq<bool>, front: seq<bool>)
    requires |mask| > 0 && !mask[|mask| - 1] && front == mask[..|mask| - 1]
    ensures Selected(mask) == Selected(front)
  {
  }

  lemma SelectedFirst()
    ensures Selected([true]) == [0]
  {
    assert [true][..0] == [];
  }

  /** The faces of a box over its corners, as node lists in the order added. */
  lemma CubeFaces(k: seq<Vector3>, faces: seq<seq<Vector3>>)
    requires |k| == 8 && Shapes.IndicesBelow(Shapes.BoxFaces, 8)
    requires faces == Shapes.GetFaces(Shapes.Shape(Shapes.Mesh(Shapes.BoxFaces), Shapes.MeetOrder(k), false))
    ensures faces == [[k[0], k[1], k[2], k[3]], [k[5], k[6], k[2], k[1]], [k[4], k[7], k[6], k[5]],
                      [k[0], k[3], k[7], k[4]], [k[1], k[0], k[4], k[5]], [k[3], k[2], k[6], k[7]]]
  {
    var vs := Shapes.MeetOrder(k);
    assert |faces| == 6;
    FaceNodes(vs, faces, 0, 0, 1, 2, 3);
    FaceNodes(vs, faces, 1, 4, 5, 2, 1);
    FaceNodes(vs, faces, 2, 6, 7, 5, 4);
    FaceNodes(vs, faces, 3, 0, 3, 7, 6);
    FaceNodes(vs, faces, 4, 1, 0, 6, 4);
    FaceNodes(vs, faces, 5, 3, 2, 5, 7);
  }

  /** Face i of a mesh with the box's index lists, over vertices vs. */
  lemma FaceNodes(vs: seq<Vector3>, faces: seq<seq<Vector3>>, i: int, a: int, b: int, c: int, d: int)
    requires |vs| == 8 && Shapes.IndicesBelow(Shapes.BoxFaces, 8) && 0 <= i < 6
    requires Shapes.BoxFaces[i] == [a, b, c, d]
    requires faces == Shapes.GetFaces(Shapes.Shape(Shapes.Mesh(Shapes.BoxFaces), vs, false))
    ensures 0 <= a < 8 && 0 <= b < 8 && 0 <= c < 8 && 0 <= d < 8
    ensures faces[i] == [vs[a], vs[b], vs[c], vs[d]]
  {
    assert Shapes.BoxFaces[i][0] == a && Shapes.BoxFaces[i][1] == b;
    assert Shapes.BoxFaces[i][2] == c && Shapes.BoxFaces[i][3] == d;
  }

  /** The culling test on a four-node face whose edge normal and node sum are known. */
  lemma QuadCulled(view: View, nodes: seq<Vector3>, m: Maths, n: Vector3, c: Vector3)
    requires m.RootLaw() && |nodes| == 4
    requires Cross(Sub(nodes[1], nodes[0]), Sub(nodes[2], nodes[0])) == n
    requires Add(Add(Add(nodes[0], nodes[1]), nodes[2]), nodes[3]) == Vectors3.Scale(c, 4.0)
    ensures Culled(view, nodes, m) <==> Dot(Sub(c, Camera(view)), n) > 0.0
  {
    FaceNormalOfEdges(nodes);
    CullSign(view, nodes, m);
    SumOfFour(nodes);
    CenterOfFour(nodes, c);
    assert Vectors3.Scale(UnitZ, view.cameraDistance) == Camera(view);
  }

  lemma SumOfFour(nodes: seq<Vector3>)
    requires |nodes| == 4
    ensures Shapes.Sum(nodes) == Add(Add(Add(nodes[0], nodes[1]), nodes[2]), nodes[3])
  {
    var n1, n2, n3 := nodes[..1], nodes[..2], nodes[..3];
    assert n1[..0] == [] && Shapes.Sum(n1) == Add(Zero, nodes[0]) == nodes[0];
    assert n2[..1] == n1 && Shapes.Sum(n2) == Add(nodes[0], nodes[1]);
    assert n3[..2] == n2 && Shapes.Sum(n3) == Add(Add(nodes[0], nodes[1]), nodes[2]);
    assert nodes[..3] == n3;
  }

  lemma CenterOfFour(nodes: seq<Vector3>, c: Vector3)
    requires |nodes| == 4 && Shapes.Sum(nodes) == Vectors3.Scale(c, 4.0)
    ensures Shapes.CenterOfFace(nodes) == c
  {
    var r := Shapes.CenterOfFace(nodes);
    assert Vectors3.Scale(r, 4.0) == Vectors3.Scale(c, 4.0);
  }

  lemma ProductSigns(p: real, q: real)
    requires p > 0.0
    ensures q > 0.0 ==> p * q > 0.0
    ensures q < 0.0 ==> p * q < 0.0
  {
  }

  lemma CubeTop(view: View, cz: real, dx: real, dy: real, dz: real, k: seq<Vector3>, m: Maths)
    requires m.RootLaw() && dx > 0.0 && dy > 0.0 && dz > 0.0 && cz + dz / 2.0 < view.cameraDistance
    requires k == Shapes.Corners(Vector3(0.0, 0.0, cz), dx, dy, dz)
    ensures !Culled(view, [k[0], k[1], k[2], k[3]], m)
  {
    TopFacts(view, cz, dx, dy, dz, k);
    QuadCulled(view, [k[0], k[1], k[2], k[3]], m, Vector3(0.0, 0.0, dx * dy), Vector3(0.0, 0.0, cz + dz / 2.0));
  }

  /** The edge normal, centre and facing of the top face. */
  lemma TopFacts(view: View, cz: real, dx: real, dy: real, dz: real, k: seq<Vector3>)
    requires dx > 0.0 && dy > 0.0 && dz > 0.0 && cz + dz / 2.0 < view.cameraDistance
    requires k == Shapes.Corners(Vector3(0.0, 0.0, cz), dx, dy, dz)
    ensures Cross(Sub(k[1], k[0]), Sub(k[2], k[0])) == Vector3(0.0, 0.0, dx * dy)
    ensures Add(Add(Add(k[0], k[1]), k[2]), k[3]) == Vectors3.Scale(Vector3(0.0, 0.0, cz + dz / 2.0), 4.0)
    ensures Dot(Sub(Vector3(0.0, 0.0, cz + dz / 2.0), Camera(view)), Vector3(0.0, 0.0, dx * dy)) < 0.0
  {
    assert Sub(k[1], k[0]) == Vector3(dx, 0.0, 0.0);
    assert Sub(k[2], k[0]) == Vector3(dx, dy, 0.0);
    ProductSigns(dx * dy, cz + dz / 2.0 - view.cameraDistance);
    assert Dot(Sub(Vector3(0.0, 0.0, cz + dz / 2.0), Camera(view)), Vector3(0.0, 0.0, dx * dy)) == (cz + dz / 2.0 - view.cameraDistance) * (dx * dy);
  }

  lemma CubeRight(view: View, cz: real, dx: real, dy: real, dz: real, k: seq<Vector3>, m: Maths)
    requires m.RootLaw() && dx > 0.0 && dy > 0.0 && dz > 0.0 && cz + dz / 2.0 < view.cameraDistance
    requires k == Shapes.Corners(Vector3(0.0, 0.0, cz), dx, dy, dz)
    ensures Culled(view, [k[5], k[6], k[2], k[1]], m)
  {
    RightFacts(view, cz, dx, dy, dz, k);
    QuadCulled(view, [k[5], k[6], k[2], k[1]], m, Vector3(dy * dz, 0.0, 0.0), Vector3(dx / 2.0, 0.0, cz));
  }

  /** The edge normal, centre and facing of the right face. */
  lemma RightFacts(view: View, cz: real, dx: real, dy: real, dz: real, k: seq<Vector3>)
    requires dx > 0.0 && dy > 0.0 && dz > 0.0 && cz + dz / 2.0 < view.cameraDistance
    requires k == Shapes.Corners(Vector3(0.0, 0.0, cz), dx, dy, dz)
    ensures Cross(Sub(k[6], k[5]), Sub(k[2], k[5])) == Vector3(dy * dz, 0.0, 0.0)
    ensures Add(Add(Add(k[5], k[6]), k[2]), k[1]) == Vectors3.Scale(Vector3(dx / 2.0, 0.0, cz), 4.0)
    ensures Dot(Sub(Vector3(dx / 2.0, 0.0, cz), Camera(view)), Vector3(dy * dz, 0.0, 0.0)) > 0.0
  {
    assert Sub(k[6], k[5]) == Vector3(0.0, dy, 0.0);
    assert Sub(k[2], k[5]) == Vector3(0.0, dy, dz);
    ProductSigns(dy * dz, dx / 2.0);
    assert Dot(Sub(Vector3(dx / 2.0, 0.0, cz), Camera(view)), Vector3(dy * dz, 0.0, 0.0)) == (dx / 2.0) * (dy * dz);
  }

  lemma CubeBottom(view: View, cz: real, dx: real, dy: real, dz: real, k: seq<Vector3>, m: Maths)
    requires m.RootLaw() && dx > 0.0 && dy > 0.0 && dz > 0.0 && cz + dz / 2.0 < view.cameraDistance
    requires k == Shapes.Corners(Vector3(0.0, 0.0, cz), dx, dy, dz)
    ensures Culled(view, [k[4], k[7], k[6], k[5]], m)
  {
    BottomFacts(view, cz, dx, dy, dz, k);
    QuadCulled(view, [k[4], k[7], k[6], k[5]], m, Vector3(0.0, 0.0, -(dx * dy)), Vector3(0.0, 0.0, cz - dz / 2.0));
  }

  /** The edge normal, centre and facing of the bottom face. */
  lemma BottomFacts(view: View, cz: real, dx: real, dy: real, dz: real, k: seq<Vector3>)
    requires dx > 0.0 && dy > 0.0 && dz > 0.0 && cz + dz / 2.0 < view.cameraDistance
    requires k == Shapes.Corners(Vector3(0.0, 0.0, cz), dx, dy, dz)
    ensures Cross(Sub(k[7], k[4]), Sub(k[6], k[4])) == Vector3(0.0, 0.0, -(dx * dy))
    ensures Add(Add(Add(k[4], k[7]), k[6]), k[5]) == Vectors3.Scale(Vector3(0.0, 0.0, cz - dz / 2.0), 4.0)
    ensures Dot(Sub(Vector3(0.0, 0.0, cz - dz / 2.0), Camera(view)), Vector3(0.0, 0.0, -(dx * dy))) > 0.0
  {
    assert Sub(k[7], k[4]) == Vector3(0.0, dy, 0.0);
    assert Sub(k[6], k[4]) == Vector3(dx, dy, 0.0);
    ProductSigns(dx * dy, view.cameraDistance - (cz - dz / 2.0));
    assert Dot(Sub(Vector3(0.0, 0.0, cz - dz / 2.0), Camera(view)), Vector3(0.0, 0.0, -(dx * dy))) == (cz - dz / 2.0 - view.cameraDistance) * -(dx * dy);
  }

  lemma CubeLeft(view: View, cz: real, dx: real, dy: real, dz: real, k: seq<Vector3>, m: Maths)
    requires m.RootLaw() && dx > 0.0 && dy > 0.0 && dz > 0.0 && cz + dz / 2.0 < view.cameraDistance
    requires k == Shapes.Corners(Vector3(0.0, 0.0, cz), dx, dy, dz)
    ensures Culled(view, [k[0], k[3], k[7], k[4]], m)
  {
    LeftFacts(view, cz, dx, dy, dz, k);
    QuadCulled(view, [k[0], k[3], k[7], k[4]], m, Vector3(-(dy * dz), 0.0, 0.0), Vector3(-dx / 2.0, 0.0, cz));
  }

  /** The edge normal, centre and facing of the left face. */
  lemma LeftFacts(view: View, cz: real, dx: real, dy: real, dz: real, k: seq<Vector3>)
    requires dx > 0.0 && dy > 0.0 && dz > 0.0 && cz + dz / 2.0 < view.cameraDistance
    requires k == Shapes.Corners(Vector3(0.0, 0.0, cz), dx, dy, dz)
    ensures Cross(Sub(k[3], k[0]), Sub(k[7], k[0])) == Vector3(-(dy * dz), 0.0, 0.0)
    ensures Add(Add(Add(k[0], k[3]), k[7]), k[4]) == Vectors3.Scale(Vector3(-dx / 2.0, 0.0, cz), 4.0)
    ensures Dot(Sub(Vector3(-dx / 2.0, 0.0, cz), Camera(view)), Vector3(-(dy * dz), 0.0, 0.0)) > 0.0
  {
    assert Sub(k[3], k[0]) == Vector3(0.0, dy, 0.0);
    assert Sub(k[7], k[0]) == Vector3(0.0, dy, -dz);
    ProductSigns(dy * dz, dx / 2.0);
    assert Dot(Sub(Vector3(-dx / 2.0, 0.0, cz), Camera(view)), Vector3(-(dy * dz), 0.0, 0.0)) == (-dx / 2.0) * -(dy * dz);
  }

  lemma CubeFront(view: View, cz: real, dx: real, dy: real, dz: real, k: seq<Vector3>, m: Maths)
    requires m.RootLaw() && dx > 0.0 && dy > 0.0 && dz > 0.0 && cz + dz / 2.0 < view.cameraDistance
    requires k == Shapes.Corners(Vector3(0.0, 0.0, cz), dx, dy, dz)
    ensures Culled(view, [k[1], k[0], k[4], k[5]], m)
  {
    FrontFacts(view, cz, dx, dy, dz, k);
    QuadCulled(view, [k[1], k[0], k[4], k[5]], m, Vector3(0.0, -(dx * dz), 0.0), Vector3(0.0, -dy / 2.0, cz));
  }

  /** The edge normal, centre and facing of the front face. */
  lemma FrontFacts(view: View, cz: real, dx: real, dy: real, dz: real, k: seq<Vector3>)
    requires dx > 0.0 && dy > 0.0 && dz > 0.0 && cz + dz / 2.0 < view.cameraDistance
    requires k == Shapes.Corners(Vector3(0.0, 0.0, cz), dx, dy, dz)
    ensures Cross(Sub(k[0], k[1]), Sub(k[4], k[1])) == Vector3(0.0, -(dx * dz), 0.0)
    ensures Add(Add(Add(k[1], k[0]), k[4]), k[5]) == Vectors3.Scale(Vector3(0.0, -dy / 2.0, cz), 4.0)
    ensures Dot(Sub(Vector3(0.0, -dy / 2.0, cz), Camera(view)), Vector3(0.0, -(dx * dz), 0.0)) > 0.0
  {
    assert Sub(k[0], k[1]) == Vector3(-dx, 0.0, 0.0);
    assert Sub(k[4], k[1]) == Vector3(-dx, 0.0, -dz);
    ProductSigns(dx * dz, dy / 2.0);
    assert Dot(Sub(Vector3(0.0, -dy / 2.0, cz), Camera(view)), Vector3(0.0, -(dx * dz), 0.0)) == (-dy / 2.0) * -(dx * dz);
  }

  lemma CubeBack(view: View, cz: real, dx: real, dy: real, dz: real, k: seq<Vector3>, m: Maths)
    requires m.RootLaw() && dx > 0.0 && dy > 0.0 && dz > 0.0 && cz + dz / 2.0 < view.cameraDistance
    requires k == Shapes.Corners(Vector3(0.0, 0.0, cz), dx, dy, dz)
    ensures Culled(view, [k[3], k[2], k[6], k[7]], m)
  {
    BackFacts(view, cz, dx, dy, dz, k);
    QuadCulled(view, [k[3], k[2], k[6], k[7]], m, Vector3(0.0, dx * dz, 0.0), Vector3(0.0, dy / 2.0, cz));
  }

  /** The edge normal, centre and facing of the back face. */
  lemma BackFacts(view: View, cz: real, dx: real, dy: real, dz: real, k: seq<Vector3>)
    requires dx > 0.0 && dy > 0.0 && dz > 0.0 && cz + dz / 2.0 < view.cameraDistance
    requires k == Shapes.Corners(Vector3(0.0, 0.0, cz), dx, dy, dz)
    ensures Cross(Sub(k[2], k[3]), Sub(k[6], k[3])) == Vector3(0.0, dx * dz, 0.0)
    ensures Add(Add(Add(k[3], k[2]), k[6]), k[7]) == Vectors3.Scale(Vector3(0.0, dy / 2.0, cz), 4.0)
    ensures Dot(Sub(Vector3(0.0, dy / 2.0, cz), Camera(view)), Vector3(0.0, dx * dz, 0.0)) > 0.0
  {
    assert Sub(k[2], k[3]) == Vector3(dx, 0.0, 0.0);
    assert Sub(k[6], k[3]) == Vector3(dx, 0.0, -dz);
    ProductSigns(dx * dz, dy / 2.0);
    assert Dot(Sub(Vector3(0.0, dy / 2.0, cz), Camera(view)), Vector3(0.0, dx * dz, 0.0)) == (dy / 2.0) * (dx * dz);
  }
}
