/** The binary STL loader of the mesh shape (Scenes/Shapes.cs, StlMesh3): an
    80-byte header, a little-endian signed 32-bit facet count, then one 50-byte
    record per facet (normal, three corners, two attribute bytes). Each facet adds
    one triangle face; the loaded mesh is then recentred on the midpoint of its
    bounds, scaled, and turned a quarter turn about Z. The file is a byte sequence
    and the IEEE single-precision decoder is a parameter. */
module Stl {
  import opened Numeric
  import opened Results
  import opened Vectors3
  import Shapes

  type byte = x: int | 0 <= x < 256

  /** Decodes four little-endian bytes to a float; left abstract. */
  type FloatDecoder = seq<byte> -> real

  const HeaderSize: int := 80
  const RecordSize: int := 50
  /** The header and the count. */
  const PreambleSize: int := HeaderSize + 4
  /** The bytes of a record that must be present: twelve floats. */
  const FloatsSize: int := 48

  /** Reading past the end of the stream. */
  datatype StlError = EndOfStream

  datatype Facet = Facet(normal: Vector3, a: Vector3, b: Vector3, c: Vector3)

  // ---------------------------------------------------------------------------
  // The facet count

  function UInt32LE(bs: seq<byte>, at: int): (r: int)
    requires 0 <= at && at + 4 <= |bs|
    ensures 0 <= r < 0x1_0000_0000
  {
    bs[at] as int + 0x100 * bs[at + 1] as int + 0x1_0000 * bs[at + 2] as int + 0x100_0000 * bs[at + 3] as int
  }

  /** Two's complement reading of four little-endian bytes. */
  function Int32LE(bs: seq<byte>, at: int): (r: int)
    requires 0 <= at && at + 4 <= |bs|
    ensures -0x8000_0000 <= r < 0x8000_0000
    ensures r % 0x1_0000_0000 == UInt32LE(bs, at)
  {
    var u := UInt32LE(bs, at);
    if u < 0x8000_0000 then u else u - 0x1_0000_0000
  }

  /** The four little-endian bytes of a signed 32-bit value, as a writer lays them out. */
  function EncodeInt32LE(n: int): (r: seq<byte>)
    requires -0x8000_0000 <= n < 0x8000_0000
    ensures |r| == 4
  {
    var u := if n < 0 then n + 0x1_0000_0000 else n;
    [u % 0x100, (u / 0x100) % 0x100, (u / 0x1_0000) % 0x100, u / 0x100_0000]
  }

  /** Reading back an encoded count gives the count. */
  lemma Int32RoundTrip(n: int)
    requires -0x8000_0000 <= n < 0x8000_0000
    ensures Int32LE(EncodeInt32LE(n), 0) == n
  {
    var u := if n < 0 then n + 0x1_0000_0000 else n;
    var bs := EncodeInt32LE(n);
    Digits(u);
    assert UInt32LE(bs, 0) == u;
  }

  lemma Digits(u: int)
    requires 0 <= u < 0x1_0000_0000
    ensures u % 0x100 + 0x100 * ((u / 0x100) % 0x100) + 0x1_0000 * ((u / 0x1_0000) % 0x100)
            + 0x100_0000 * (u / 0x100_0000) == u
  {
    var q1, q2, q3 := u / 0x100, u / 0x1_0000, u / 0x100_0000;
    assert u == 0x100 * q1 + u % 0x100;
    assert q1 == 0x100 * (q1 / 0x100) + q1 % 0x100;
    assert q1 / 0x100 == q2;
    assert q2 == 0x100 * (q2 / 0x100) + q2 % 0x100;
    assert q2 / 0x100 == q3;
  }

  // ---------------------------------------------------------------------------
  // Records

  function ReadVector(bs: seq<byte>, at: int, decode: FloatDecoder): Vector3
    requires 0 <= at && at + 12 <= |bs|
  {
    Vector3(decode(bs[at..at + 4]), decode(bs[at + 4..at + 8]), decode(bs[at + 8..at + 12]))
  }

  /** The offset of record `i`. */
  function RecordAt(i: int): int {
    PreambleSize + RecordSize * i
  }

  function FacetAt(bs: seq<byte>, i: int, decode: FloatDecoder): Facet
    requires 0 <= i && RecordAt(i) + FloatsSize <= |bs|
  {
    var at := RecordAt(i);
    Facet(ReadVector(bs, at, decode), ReadVector(bs, at + 12, decode),
          ReadVector(bs, at + 24, decode), ReadVector(bs, at + 36, decode))
  }

  /** A file of `n` facets is complete when every record's floats are present. The
      two attribute bytes are read without a length check, so the last record may
      lack them. */
  predicate Complete(bs: seq<byte>, n: int) {
    n <= 0 || RecordAt(n - 1) + FloatsSize <= |bs|
  }

  /** The facets of a file: the count is read after the header, then that many
      records. A stream that ends inside the preamble or inside a record's floats is
      an error; a count of zero or less reads no records. */
  function ReadFacets(bs: seq<byte>, decode: FloatDecoder): (r: Result<seq<Facet>, StlError>)
    ensures r.Success? <==> |bs| >= PreambleSize && Complete(bs, Int32LE(bs, HeaderSize))
    ensures r.Success? ==> |r.value| == Max0(Int32LE(bs, HeaderSize))
    ensures r.Success? ==> forall i :: 0 <= i < |r.value| ==>
      RecordAt(i) + FloatsSize <= |bs| && r.value[i] == FacetAt(bs, i, decode)
  {
    if |bs| < PreambleSize then Failure(EndOfStream)
    else
      var n := Int32LE(bs, HeaderSize);
      if n <= 0 then Success([])
      else if RecordAt(n - 1) + FloatsSize > |bs| then Failure(EndOfStream)
      else
        assert forall i :: 0 <= i < n ==> RecordAt(i) <= RecordAt(n - 1);
        Success(seq(n, i requires 0 <= i < n => FacetAt(bs, i, decode)))
  }

  function Max0(n: int): nat {
    if n < 0 then 0 else n
  }

  // ---------------------------------------------------------------------------
  // Building the mesh

  /** Each facet adds one triangle face of its three corners; the normal is dropped. */
  function AddFacets(mesh: Shapes.Shape, facets: seq<Facet>): (r: Shapes.Shape)
    requires mesh.kind.Mesh?
    ensures r.kind.Mesh? && |r.kind.faces| == |mesh.kind.faces| + |facets|
    ensures r.cullBackFaces == mesh.cullBackFaces
  {
    if |facets| == 0 then mesh
    else
      var f := facets[|facets| - 1];
      Shapes.AddFace(AddFacets(mesh, facets[..|facets| - 1]), [f.a, f.b, f.c])
  }

  /** The triangle of each facet, in file order. */
  function Triangles(facets: seq<Facet>): seq<seq<Vector3>> {
    seq(|facets|, i requires 0 <= i < |facets| => [facets[i].a, facets[i].b, facets[i].c])
  }

  /** The faces of the built mesh are exactly the facets' triangles, in order. */
  lemma {:induction false} AddFacetsFaces(mesh: Shapes.Shape, facets: seq<Facet>)
    requires mesh.kind.Mesh? && Shapes.Valid(mesh)
    ensures Shapes.Valid(AddFacets(mesh, facets))
    ensures Shapes.GetFaces(AddFacets(mesh, facets)) == Shapes.GetFaces(mesh) + Triangles(facets)
    decreases |facets|
  {
    if |facets| > 0 {
      var n := |facets| - 1;
      AddFacetsFaces(mesh, facets[..n]);
      AddFacetsLast(mesh, facets, n);
      Shapes.AddFaceFaces(AddFacets(mesh, facets[..n]), [facets[n].a, facets[n].b, facets[n].c]);
      TrianglesSplit(facets);
      AppendOne(Shapes.GetFaces(mesh), Triangles(facets[..n]), [facets[n].a, facets[n].b, facets[n].c]);
    }
  }

  lemma AddFacetsLast(mesh: Shapes.Shape, facets: seq<Facet>, n: int)
    requires mesh.kind.Mesh? && |facets| == n + 1 && n >= 0
    ensures AddFacets(mesh, facets)
         == Shapes.AddFace(AddFacets(mesh, facets[..n]), [facets[n].a, facets[n].b, facets[n].c])
  {
  }

  lemma AppendOne<T>(a: seq<T>, b: seq<T>, x: T)
    ensures a + b + [x] == a + (b + [x])
  {
  }

  lemma TrianglesSplit(facets: seq<Facet>)
    requires |facets| > 0
    ensures var n := |facets| - 1;
      Triangles(facets) == Triangles(facets[..n]) + [[facets[n].a, facets[n].b, facets[n].c]]
  {
  }

  /** Moves the midpoint of the bounds to the origin. */
  function Recentre(s: Shapes.Shape): (r: Shapes.Shape)
    ensures r.kind == s.kind && |r.vertices| == |s.vertices| && r.cullBackFaces == s.cullBackFaces
  {
    var b := Shapes.Bounds(s.vertices);
    Shapes.Translate(s, Div(Neg(Add(b.lo, b.hi)), 2.0))
  }

  /** After recentring, the bounds are symmetric about the origin. */
  lemma RecentreCentres(s: Shapes.Shape)
    requires |s.vertices| > 0
    ensures var b := Shapes.Bounds(Recentre(s).vertices); Add(b.lo, b.hi) == Zero
  {
    var b := Shapes.Bounds(s.vertices);
    var d := Div(Neg(Add(b.lo, b.hi)), 2.0);
    assert Recentre(s).vertices == Shapes.Shift(s.vertices, d);
    Shapes.RecentredBounds(s.vertices);
  }

  /** The whole constructor: parse, add the faces to an empty mesh, recentre, scale
      about the origin, turn a quarter turn about Z, and switch culling on. */
  function LoadStl(bs: seq<byte>, scale: real, decode: FloatDecoder, m: Maths): (r: Result<Shapes.Shape, StlError>)
    ensures r.Success? <==> ReadFacets(bs, decode).Success?
    ensures r.Success? ==> r.value.kind.Mesh? && r.value.cullBackFaces
    ensures r.Success? ==> |r.value.kind.faces| == |ReadFacets(bs, decode).value|
  {
    match ReadFacets(bs, decode)
    case Failure(e) => Failure(e)
    case Success(facets) =>
      var mesh := AddFacets(Shapes.EmptyMesh, facets);
      var placed := Shapes.RotateZ(Shapes.Scale(Recentre(mesh), scale), HalfPi, m);
      Success(Shapes.Shape(placed.kind, placed.vertices, true))
  }

  /** Before the placement transforms, the loaded mesh's faces are the file's
      triangles, one per record, in order. */
  lemma LoadedFaces(bs: seq<byte>, decode: FloatDecoder)
    requires ReadFacets(bs, decode).Success?
    ensures var facets := ReadFacets(bs, decode).value;
      var mesh := AddFacets(Shapes.EmptyMesh, facets);
      && Shapes.Valid(mesh)
      && Shapes.GetFaces(mesh) == Triangles(facets)
      && |Shapes.GetFaces(mesh)| == Max0(Int32LE(bs, HeaderSize))
  {
    var facets := ReadFacets(bs, decode).value;
    AddFacetsFaces(Shapes.EmptyMesh, facets);
    assert Shapes.GetFaces(Shapes.EmptyMesh) == [];
  }
}
