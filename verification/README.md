# ConsoleDraw core, modelled in Dafny

ConsoleDraw draws wireframe 3D shapes on a text console. Shapes own vertex lists
and faces: segments, triangles, coordinate systems, and meshes built from boxes,
rectangles or binary STL files. A scene turns every face into a 2D polygon with a
pinhole projection, dropping back faces. The polygons are then rasterised into
character cells: each edge becomes evenly spaced dots, big at the ends. A separate
character grid (`CBuffer`) composes a frame as a row-major array of cells with
wrapped text.

The model is a set of Dafny modules, one per part of the program:

| module | file | models |
|---|---|---|
| `Numeric` | numeric.dfy | the C# `(int)` cast, the integer `/2`, 32-bit wrap-around, and `Maths`: cos, sin and sqrt as parameters, with their laws as ghost predicates |
| `Results` | numeric.dfy | `Option` and `Result`, for refused points and .NET exceptions |
| `Vectors3` | vector3.dfy | `Vector3`: algebra, `Normalized`, axis rotations, Rodrigues rotation about an axis |
| `Vectors2` | vector2.dfy | `Vector2`: algebra, both cross products, `Normalized`, `Rotate` |
| `Lines`, `Points`, `Triangles`, `Polygons` | lines.dfy, points.dfy, triangles.dfy, polygons.dfy | `Line2`, `Point2`, `Triangle2`, `Polygon2` and its closed edge ring |
| `Render` | render.dfy | `CRender`: the cursor bounds test, and the dots drawn for a line, triangle, polygon or edge list |
| `Shapes` | shapes.dfy | `Shape` and its kinds: transforms, bounds, face centres, `Mesh3.AddFace` with vertex sharing, and the rectangle and box builders |
| `Stl` | stl.dfy | `StlMesh3`: parsing the binary STL layout and placing the loaded mesh |
| `Scenes` | scenes.dfy | `Scene`: the shape list, scene-wide transforms, projection with back-face culling, and drawing |
| `CharBuffer` | charbuffer.dfy | `CBuffer`: construction, cell access, rows, wrapped text, and the text of the whole grid |

Coordinates are `real`. The C# `float` arithmetic becomes exact arithmetic.
`Math.Cos`, `Math.Sin` and `Math.Sqrt` are fields of a `Maths` value passed to every
member that needs them. Their laws are ghost predicates that those members require:
- `TrigLaw`: cos² + sin² = 1, cos 0 = 1 and sin 0 = 0.
- `Reflects(a)`: cos(−a) = cos a and sin(−a) = −sin a.
- `RootLaw`: sqrt is non-negative and squares back to its argument on non-negatives.

Console drawing becomes a returned list of marks: a cell and a glyph. The console
size that the source reads from the window becomes the `width` and `height`
parameters. The C# integer behaviour is written out wherever it matters:
- the `(int)` cast truncates toward zero, for values within the 32-bit range;
- `wt / 2` and `screenSize / 2` are integer divisions;
- `width * height` and `y * Width + x` in `CBuffer` are 32-bit products.

## Model

| member | source | states |
|---|---|---|
| Numeric.Trunc | CRender.cs:25 | the C# `(int)` cast truncates toward zero: below x and within 1 of it for x ≥ 0, above it and within 1 for x < 0 |
| Numeric.Half | Scenes/Scene.cs:107-108 | C# integer halving rounds toward zero, for both signs |
| Numeric.Wrap32 | CBuffer.cs:16 | a 32-bit product lands in the signed 32-bit range, differs from the true product by a multiple of 2^32, and equals it when it fits |
| Vectors3.Magnitude | Geometry/Vector3.cs:40 | the magnitude is non-negative and squares to the sum of squares |
| Vectors3.Neg | Geometry/Vector3.cs:90 | negation flips each component and is the additive inverse |
| Vectors3.Sub | Geometry/Vector3.cs:91 | `a - b` is the componentwise difference, and adding `b` back gives `a` |
| Vectors3.Div | Geometry/Vector3.cs:94 | `a / f` divides each component, and scaling the result by `f` gives `a` back |
| Vectors3.Equals | Geometry/Vector3.cs:115-129 | `==` holds exactly when the vectors are equal |
| Vectors3.NotEquals | Geometry/Vector3.cs:116 | `!=` is the negation of equality |
| Vectors3.Normalized | Geometry/Vector3.cs:41-49 | a zero or unit vector is returned unchanged; any other vector becomes a unit vector pointing the same way: positive dot product, zero cross product |
| Vectors3.NormalizedSign | Geometry/Vector3.cs:41-49 | normalising never changes the sign of a dot product, so the culling test may use the raw normal |
| Vectors3.CrossOrthogonal | Geometry/Vector3.cs:55-57 | `Vectors3.Cross`: the cross product is orthogonal to both operands |
| Vectors3.CrossAntisymmetric | Geometry/Vector3.cs:56-57 | swapping the operands negates the cross product, and `a × a` is zero |
| Vectors3.RotationsFixTheirAxis | Geometry/Vector3.cs:59-73 | `Vectors3.RotateX` keeps X, `RotateY` keeps Y, `RotateZ` keeps Z |
| Vectors3.RotationsKeepSumSquares | Geometry/Vector3.cs:59-73 | each axis rotation keeps the length, given cos² + sin² = 1 |
| Vectors3.RotationsInvert | Geometry/Vector3.cs:59-73 | turning by −angle undoes turning by angle, for each axis |
| Vectors3.RotateAboutUnitX | Geometry/Vector3.cs:75-85 | rotating about `UnitX` is exactly `RotateX`, because a unit axis is not renormalised |
| Vectors3.RotateAboutUnitY | Geometry/Vector3.cs:75-85 | rotating about `UnitY` is exactly `RotateY` |
| Vectors3.RotateAboutUnitZ | Geometry/Vector3.cs:75-85 | rotating about `UnitZ` is exactly `RotateZ` |
| Vectors3.RotateAboutIdentity | Geometry/Vector3.cs:75-85 | a zero angle, or the zero axis, leaves the vector unchanged |
| Vectors3.RotateAboutKeepsAxis | Geometry/Vector3.cs:75-85 | rotation about a unit axis keeps the component along the axis, and fixes the axis itself |
| Vectors3.RodriguesKeepsSumSquares | Geometry/Vector3.cs:82-84 | the expanded Rodrigues formula about a unit axis keeps the length, given cos² + sin² = 1 |
| Vectors3.RotateAboutKeepsSumSquares | Geometry/Vector3.cs:75-85 | `Vectors3.RotateAbout`: rotation about any non-zero axis keeps the length |
| Vectors2.Magnitude | Geometry/Vector2.cs:29 | the magnitude is non-negative and squares to the sum of squares |
| Vectors2.Neg | Geometry/Vector2.cs:54 | negation flips each component and is the additive inverse |
| Vectors2.Sub | Geometry/Vector2.cs:55 | `a - b` is the componentwise difference, and adding `b` back gives `a` |
| Vectors2.Div | Geometry/Vector2.cs:58 | `a / f` divides each component, and scaling the result by `f` gives `a` back |
| Vectors2.Equals | Geometry/Vector2.cs:80-93 | `==` holds exactly when the vectors are equal |
| Vectors2.NotEquals | Geometry/Vector2.cs:81 | `!=` is the negation of equality |
| Vectors2.ScalarCross | Geometry/Vector2.cs:61-62 | `f ^ v` is the negation of `v ^ f` |
| Vectors2.Normalized | Geometry/Vector2.cs:30-38 | a zero or unit vector is returned unchanged; any other vector becomes a unit vector pointing the same way |
| Vectors2.ProductSymmetry | Geometry/Vector2.cs:44-45 | the dot product is symmetric, and `v·v` is the sum of squares; the scalar cross product is antisymmetric, and `v ^ v` is zero |
| Vectors2.CrossScalarPerpendicular | Geometry/Vector2.cs:46 | `v ^ f` is perpendicular to `v`, its squared length is f² times that of `v`, and it lies clockwise of `v` for positive `f` |
| Vectors2.RotateKeepsSumSquares | Geometry/Vector2.cs:47-49 | a rotation keeps the length, given cos² + sin² = 1 |
| Vectors2.RotateInverse | Geometry/Vector2.cs:47-49 | `Rotate(0)` is the identity, and turning by −angle undoes turning by angle |
| Lines.LineTo | Geometry/Point2.cs:16 | `p.LineTo(q)` starts at p's position and ends at q's, so its span is `q - p` |
| Lines.Direction | Geometry/Line2.cs:40 | a degenerate line has the zero direction; otherwise the direction is the unit vector along the line |
| Lines.Normal | Geometry/Line2.cs:41 | a degenerate line has the zero normal; otherwise the normal is a unit vector perpendicular to the line, counter-clockwise of it |
| Lines.Translate | Geometry/Line2.cs:43-44 | `line + d` moves both ends by d, so the span `To - From` is kept |
| Lines.Offset | Geometry/Line2.cs:46 | `Offset(d)` keeps the span and moves the start by `d` times the normal |
| Lines.TranslateInverse | Geometry/Line2.cs:43-44 | adding `-d` undoes adding `d`, and adding zero changes nothing |
| Lines.OffsetDistance | Geometry/Line2.cs:41-46 | an offset line is moved perpendicular to itself, by a squared distance of d² |
| Lines.OffsetStill | Geometry/Line2.cs:40-46 | an offset of zero, or any offset of a degenerate line, leaves the line unchanged |
| Points.Here | Geometry/Vector2.cs:19 | `v.Here()` is the point at position `v` |
| Points.TranslateDiff | Geometry/Point2.cs:25-29 | `(p + d) - p == d`, `p + (q - p) == q`, and `p - p` is zero |
| Points.DiffInvariant | Geometry/Point2.cs:25-29 | translating both points by the same vector keeps their difference |
| Triangles.Edges | Geometry/Triangle2.cs:5-16 | a triangle has three edges starting at a, b and c in turn, each ending where the next begins |
| Triangles.TranslateEdges | Geometry/Triangle2.cs:11-27 | the edges of `t + d` are the edges of `t`, each translated by `d` |
| Triangles.TranslateInverse | Geometry/Triangle2.cs:23-27 | adding `-d` undoes adding `d` |
| Polygons.GetEdges | Geometry/Polygon2.cs:16-31 | the loop builds the closed ring: n edges for n > 1 vertices, none for fewer |
| Polygons.ChainClosed | Geometry/Polygon2.cs:19-29 | edge i starts at vertex i and ends where edge i+1 begins, wrapping round, so the ring closes |
| Polygons.ClosingEdge | Geometry/Polygon2.cs:28 | the last edge runs from the last vertex back to the first |
| Polygons.Translate | Geometry/Polygon2.cs:33-34 | `p + d` keeps the vertex count and moves every vertex by `d` |
| Polygons.TranslateEdges | Geometry/Polygon2.cs:33-34 | the edges of `p + d` are the edges of `p`, each translated by `d` |
| Polygons.TriangleIsPolygon | Geometry/Triangle2.cs:11-15 | a triangle's edges are the closed ring of its three corners |
| Render.SetCursor | CRender.cs:11-34 | a point is accepted exactly when its rounded cell lies on the console, which is x in (−1.5, width − 0.5) and likewise for y; the cell is the nearest one, and column or row 0 for coordinates in (−1.5, −0.5) |
| Render.DrawDot | CRender.cs:39-59 | a dot leaves at most one mark, and leaves one exactly when the cursor test accepts the point; the mark carries the big or small glyph |
| Render.Emit | CRender.cs:51-59 | drawing dots leaves no more marks than dots, all of them on the console, and exactly one per dot when every dot is on the console |
| Render.EmitAppend | CRender.cs:74-80 | drawing two dot lists in turn is drawing their concatenation |
| Render.Extent | CRender.cs:66 | the extent is the larger of the two axis distances |
| Render.LineDotsShape | CRender.cs:64-86 | `Render.LineDots`: a line shorter than half a cell asks for no dots; one shorter than a cell asks for a single big dot at its start; a longer one asks for trunc(extent) + 1 dots from start to end, big only at the ends |
| Render.LineDotsAlong | CRender.cs:74-80 | dot i of a long line lies i/n of the way from start to end |
| Render.LineDotsSpacing | CRender.cs:74-80 | consecutive dots are one equal step apart, and that step is between 1 and 2 cells along the major axis |
| Render.LineDotsReverse | CRender.cs:64-86 | a line drawn backwards asks for as many dots; for a long line they are the same dots in reverse order, while a short line's single dot moves to the other end |
| Render.LineMarksWithin | CRender.cs:64-86 | `Render.DrawLine`: every mark of a line lies in the cell box spanned by its two endpoints |
| Render.DrawEdgesAppend | CRender.cs:107-113 | drawing two edge lists in turn is drawing their concatenation |
| Render.TriangleDrawsEdges | CRender.cs:87-92 | `Render.DrawTriangle`: a triangle draws exactly its three edges a→b, b→c, c→a, in that order |
| Render.TriangleAsPolygon | CRender.cs:87-105 | a triangle draws exactly like the polygon on its three corners |
| Render.DrawSmallPolygon | CRender.cs:94-105 | a polygon with one vertex draws a single big dot there, and one with no vertices draws nothing |
| Render.DrawLargePolygon | CRender.cs:94-100 | `Render.DrawPolygon`: a polygon with at least two vertices draws its open chain and then the closing edge from the last vertex to the first |
| Shapes.Segment3 | Scenes/Shapes.cs:139-146 | a segment owns its two endpoints in order, and does not cull |
| Shapes.Triangle3 | Scenes/Shapes.cs:189-197 | a triangle owns its three corners in order, and does not cull |
| Shapes.Csys3 | Scenes/Shapes.cs:153-166 | a coordinate system owns its centre, then the three axis tips at distance `size` along X, Y and Z |
| Shapes.GetFaces | Scenes/Shapes.cs:228-247 | node j of mesh face i is the vertex that index `Faces[i][j]` names; a segment or triangle yields one face of all its vertices, and a coordinate system the three axes from its centre `[v0, v1]`, `[v0, v2]`, `[v0, v3]` (the `GetFaces` overrides of lines 150-151, 168-173 and 198-199) |
| Shapes.MapVerticesFaces | Scenes/Shapes.cs:228-247 | mapping every vertex maps every node of every face, so the faces follow the transforms |
| Shapes.RotateX | Scenes/Shapes.cs:43-49 | every vertex is replaced by `Vectors3.RotateX` of itself, and the kind and culling flag are kept; so each X and, given cos² + sin² = 1, each length is kept |
| Shapes.RotateY | Scenes/Shapes.cs:50-56 | every vertex is replaced by `Vectors3.RotateY` of itself, and the kind and culling flag are kept; so each Y and, given cos² + sin² = 1, each length is kept |
| Shapes.RotateZ | Scenes/Shapes.cs:57-63 | every vertex is replaced by `Vectors3.RotateZ` of itself, and the kind and culling flag are kept; so each Z and, given cos² + sin² = 1, each length is kept |
| Shapes.RotateAbout | Scenes/Shapes.cs:64-70 | every vertex is rotated about the axis on its own; the kind, the count and the culling flag are kept |
| Shapes.Translate | Scenes/Shapes.cs:72-78 | every vertex moves by exactly `delta`; the kind, the count and the culling flag are kept |
| Shapes.ScaleAbout | Scenes/Shapes.cs:83-92 | a factor of 1 changes nothing; otherwise each vertex's offset from the centre is scaled, so a vertex at the centre stays put; the kind and the culling flag are kept |
| Shapes.ScalePointOffset | Scenes/Shapes.cs:89 | `c + f·(v − c)` lies at `f` times v's offset from c, and c itself is fixed |
| Shapes.ScaleOne | Scenes/Shapes.cs:85 | scaling an offset by 1 leaves it unchanged, which is why the source may skip the factor-1 loop |
| Shapes.Scale | Scenes/Shapes.cs:80-81 | scaling about the origin multiplies every vertex by the factor; the kind and the culling flag are kept |
| Shapes.TransformsKeepValid | Scenes/Shapes.cs:43-92 | no transform changes the vertex count, so every face index stays in range |
| Shapes.TranslateInverse | Scenes/Shapes.cs:72-78 | translating by `-d` undoes translating by `d` |
| Shapes.ScaleInverse | Scenes/Shapes.cs:83-92 | scaling by `1/f` about the same centre undoes scaling by a non-zero `f` |
| Shapes.RotateInverse | Scenes/Shapes.cs:43-63 | turning a shape by −angle undoes turning it by angle, for each axis |
| Shapes.Bounds | Scenes/Shapes.cs:94-101 | an empty vertex list has the box (Zero, Zero), and a single vertex the box at that vertex |
| Shapes.BoundsTight | Scenes/Shapes.cs:94-115 | every vertex lies in the box, and each of the six bounds is attained by some vertex |
| Shapes.GetBounds | Scenes/Shapes.cs:94-115 | the loop computes exactly the box grown point by point from the first vertex |
| Shapes.RecentredBounds | Scenes/Shapes.cs:350-351 | translating by minus the midpoint of the bounds leaves bounds symmetric about the origin |
| Shapes.CenterOfFace | Scenes/Shapes.cs:128-137 | the centre times the node count is the sum of the nodes |
| Shapes.GetCenterOfFace | Scenes/Shapes.cs:128-137 | the summing loop computes that centre |
| Shapes.CenterShift | Scenes/Shapes.cs:128-137 | translating every node translates the centre by the same vector |
| Shapes.IndexOf | Scenes/Shapes.cs:216 | a present vertex is found at its first occurrence; an absent one gives −1 |
| Shapes.AbsorbGrows | Scenes/Shapes.cs:214-223 | adding a face's nodes only appends: the old list stays a prefix, the result holds exactly the old vertices and the nodes, and it grows by at most one vertex per node |
| Shapes.AbsorbKnown | Scenes/Shapes.cs:216-221 | nodes that are all present already add no vertex |
| Shapes.AbsorbNoDuplicates | Scenes/Shapes.cs:214-223 | a duplicate-free vertex list stays duplicate-free |
| Shapes.AddFace | Scenes/Shapes.cs:210-226 | exactly one face of `nodes.Length` indices is appended and the old faces and vertices are kept; each index is in range and points at its node; a node already present reuses its first index; a face of known nodes adds no vertex; duplicate-freedom is kept |
| Shapes.AddFaceSharesRepeats | Scenes/Shapes.cs:214-223 | two equal nodes in one face get the same index |
| Shapes.AddFaceFaces | Scenes/Shapes.cs:210-247 | after adding a face, the shape yields its old faces followed by exactly the added nodes |
| Shapes.AddFaceLoop | Scenes/Shapes.cs:212-223 | the index loop computes the grown vertex list and the index face |
| Shapes.AddFaceKnown | Scenes/Shapes.cs:216-222 | a face whose nodes are all present records their first indices and leaves the vertices alone |
| Shapes.RectangleShape | Scenes/Shapes.cs:250-263 | `Shapes.Rectangle3`: a rectangle with non-zero sides has its four distinct corners as vertices and the single face [0, 1, 2, 3] |
| Shapes.CuboidShape | Scenes/Shapes.cs:265-288 | `Shapes.Cuboid3`: a box with non-zero sides has 8 distinct vertices and the six 4-index faces, each vertex shared as the faces meet it |
| Shapes.BoxMeshShape | Scenes/Shapes.cs:280-285 | the six `AddFace` calls of the box leave the corners in meeting order and the fixed index faces |
| Shapes.CornersDistinct | Scenes/Shapes.cs:271-278 | the eight corners of a box with non-zero sides are pairwise distinct |
| Stl.Int32LE | Scenes/Shapes.cs:322 | the count is a signed 32-bit value whose bit pattern is the four little-endian bytes |
| Stl.Int32RoundTrip | Scenes/Shapes.cs:322 | reading back the four bytes written for a count gives that count |
| Stl.ReadFacets | Scenes/Shapes.cs:321-346 | parsing succeeds exactly when the preamble and every record's twelve floats are present; it then yields max(count, 0) facets, each read from its own 50-byte record |
| Stl.AddFacets | Scenes/Shapes.cs:324-346 | each facet adds one face, and the culling flag is kept |
| Stl.AddFacetsFaces | Scenes/Shapes.cs:324-346 | the built mesh yields its old faces followed by each facet's triangle a, b, c, in file order |
| Stl.Recentre | Scenes/Shapes.cs:350-351 | recentring keeps the kind, the vertex count and the culling flag |
| Stl.RecentreCentres | Scenes/Shapes.cs:350-351 | after recentring, the bounds are symmetric about the origin |
| Stl.LoadStl | Scenes/Shapes.cs:311-356 | loading fails exactly when parsing fails; otherwise it yields a culling mesh with one face per facet |
| Stl.LoadedFaces | Scenes/Shapes.cs:321-346 | before placement, the loaded mesh yields exactly the file's triangles, one per record, in order |
| Scenes.NewScene | Scenes/Scene.cs:13-19 | a new scene has no shapes, the given model size and camera distance, and aspect 2 |
| Scenes.AddShape | Scenes/Scene.cs:70-73 | the shape is appended after the existing ones, which are kept |
| Scenes.AddShapesAppend | Scenes/Scene.cs:74-80 | adding several shapes appends them in call order |
| Scenes.MapShapes | Scenes/Scene.cs:33-68 | a scene-wide operation applies the same function to every shape, keeping the order and the view |
| Scenes.RotateX | Scenes/Scene.cs:33-39 | every shape is turned about X, with kinds and vertex counts kept, and the view (model size, camera distance, aspect) unchanged |
| Scenes.RotateY | Scenes/Scene.cs:40-46 | every shape is turned about Y, with kinds and vertex counts kept, and the view (model size, camera distance, aspect) unchanged |
| Scenes.RotateZ | Scenes/Scene.cs:47-53 | every shape is turned about Z, with kinds and vertex counts kept, and the view (model size, camera distance, aspect) unchanged |
| Scenes.RotateAbout | Scenes/Scene.cs:54-60 | every shape is rotated about the axis, with kinds and vertex counts kept, and the view (model size, camera distance, aspect) unchanged |
| Scenes.Translate | Scenes/Scene.cs:62-68 | every shape is translated, with kinds and vertex counts kept, and the view (model size, camera distance, aspect) unchanged |
| Scenes.TransformsInvert | Scenes/Scene.cs:33-68 | scene-wide turns by −angle and translation by `-d` undo the forward ones |
| Scenes.TransformsKeepValid | Scenes/Scene.cs:33-68 | scene-wide transforms keep every shape's face indices in range |
| Scenes.OnAxisNode | Scenes/Scene.cs:106-108 | `Scenes.ProjectNode`: a node on the camera axis projects exactly to the integer halves (width/2, height/2) |
| Scenes.SameRay | Scenes/Scene.cs:106-108 | all nodes on one ray through the camera project to the same console point |
| Scenes.FaceNormalOfEdges | Scenes/Scene.cs:93 | the sum of the three cross products equals the cross product of the two edges from node 0, so only the first three nodes matter |
| Scenes.Eye | Scenes/Scene.cs:94-95 | the eye vector runs from the camera to the face centre |
| Scenes.CullSign | Scenes/Scene.cs:93-100 | `Scenes.Culled`: a face is culled exactly when the eye vector has a positive dot product with the raw normal |
| Scenes.EdgeOnKept | Scenes/Scene.cs:97 | a face with a zero normal, or seen exactly edge-on, is kept |
| Scenes.Mask | Scenes/Scene.cs:89-101 | the mask has one keep decision per face, in face order |
| Scenes.ProjectFace | Scenes/Scene.cs:103-110 | a face becomes a polygon with one vertex per node, each the projection of its node |
| Scenes.Selected | Scenes/Scene.cs:89-101 | the selected indices are exactly the set positions of the mask, in increasing order |
| Scenes.KeptIndices | Scenes/Scene.cs:89-101 | the kept indices are exactly the faces for which `Scenes.Kept` holds (culling off, or the face not `Scenes.Culled`), in increasing order |
| Scenes.ProjectKeptFaces | Scenes/Scene.cs:82-112 | `Scenes.Project`: the projection yields one polygon per kept face, in input order, each the projection of that face |
| Scenes.ProjectAll | Scenes/Scene.cs:82-112 | without culling, every face yields its polygon, in input order |
| Scenes.ShortFacesNeverCulled | Scenes/Scene.cs:91 | faces of fewer than three nodes are never culled, so culling changes nothing for them |
| Scenes.ProjectFaces | Scenes/Scene.cs:82-112 | the projection loop computes that polygon list |
| Scenes.ProjectNodes | Scenes/Scene.cs:103-110 | the per-node loop computes the polygon of one face |
| Scenes.DrawAddedShape | Scenes/Scene.cs:26-32 | a shape added to a scene is drawn after everything already there |
| Scenes.DrawShapeKeptFaces | Scenes/Shapes.cs:117-126 | `Scenes.DrawShape`: a shape other than a coordinate system draws the polygons of exactly the faces its culling flag keeps, in face order |
| Scenes.CsysDrawsAxes | Scenes/Shapes.cs:174-187 | a coordinate system draws its three axes in order, without culling, whatever its culling flag says |
| Scenes.DrawPolygonsAppend | Scenes/Shapes.cs:121-124 | drawing two polygon lists in turn is drawing their concatenation |
| Scenes.SegmentProjects | Scenes/Scene.cs:103-110 | the segment from the origin to (4, 0, 0), seen from distance 8 on a 10×10 console, projects to the polygon (5, 5)–(25, 5) |
| Scenes.SegmentDraws | CRender.cs:64-105 | that polygon starts with a big dot at cell (5, 5), and all its marks stay in row 5 from column 5 to the right edge |
| Scenes.SegmentOnScreen | Scenes/Shapes.cs:117-126 | drawing that segment shape gives those marks |
| Scenes.OnAxisCube | Scenes/Scene.cs:91-100 | of a box centred on the camera axis and seen from beyond its top face, only the top face survives culling, and it is projected alone |
| CharBuffer.New | CBuffer.cs:12-26 | construction fails exactly when the width or the 32-bit cell count is negative; otherwise the grid has the given sizes and that many blank cells |
| CharBuffer.NewFits | CBuffer.cs:12-26 | sizes whose product fits in 32 bits give a blank grid of exactly width × height cells |
| CharBuffer.NewWrapsAround | CBuffer.cs:16 | 65537 × 65537 wraps around to 131073 cells, which do not cover the grid |
| CharBuffer.Get | CBuffer.cs:30 | a read succeeds exactly when the 32-bit offset `y*Width+x` lies in the array |
| CharBuffer.Set | CBuffer.cs:31 | a write succeeds exactly when the offset lies in the array, and then changes only that cell |
| CharBuffer.Clear | CBuffer.cs:33-36 | a cleared cell then reads as a blank |
| CharBuffer.GetRowMajor | CBuffer.cs:28-32 | on the grid, the cell (x, y) is read at offset y × width + x |
| CharBuffer.GetAfterSet | CBuffer.cs:28-32 | after a write, the written cell reads back the new value and every other cell reads as before |
| CharBuffer.ClearOnlyThat | CBuffer.cs:33-36 | clearing a cell blanks it and leaves every other cell alone |
| CharBuffer.ClearAll | CBuffer.cs:38-41 | every cell becomes blank, and the sizes are kept |
| CharBuffer.ClearAllIdempotent | CBuffer.cs:38-41 | clearing twice is clearing once, and a new grid is already clear |
| CharBuffer.GetRow | CBuffer.cs:49-54 | a row has `Width` characters |
| CharBuffer.GetRowCells | CBuffer.cs:49-54 | row y holds the cells (0, y) to (Width − 1, y), in order |
| CharBuffer.GetRowBelow | CBuffer.cs:49-54 | copying a row below the grid runs past the end of the array |
| CharBuffer.ToText | CBuffer.cs:74-77 | the text has one character per cell, which is width × height on a grid that fits |
| CharBuffer.TextIsRows | CBuffer.cs:74-77 | the first n rows as `GetRow` reads them, joined, are the first n × width characters of the text |
| CharBuffer.TextIsAllRows | CBuffer.cs:74-77 | the text is all the rows `GetRow` reads, top to bottom |
| CharBuffer.EffectiveWidth | CBuffer.cs:57-61 | the width used is the given one, or the text's length for −1, cut at the right edge `Width − x` |
| CharBuffer.Copy | CBuffer.cs:70-71 | copying the text succeeds exactly when it fits in the array from the offset, and keeps the sizes; a negative offset and an overrun raise different exceptions |
| CharBuffer.Write | CBuffer.cs:62-72 | a negative width fails in `Substring`, and width 0 with text left ends as `ZeroWidth` says; a success keeps the sizes |
| CharBuffer.AddText | CBuffer.cs:55-73 | the same failures, on the effective width; a success keeps the sizes |
| CharBuffer.ZeroWidth | CBuffer.cs:62-71 | text left at width 0 always fails. With the stack taken as unbounded, it overflows the stack exactly when every row's zero-length copy succeeds, and otherwise raises the exception of the first row whose copy fails |
| CharBuffer.ZeroWidthEnd | CBuffer.cs:62-71 | when the 32-bit width is not 0, some row from y on fails its zero-length copy, and every row before it succeeds |
| CharBuffer.WriteWraps | CBuffer.cs:62-72 | text that fits below row y in chunks of w lands with character k at row y + k / w, column x + k % w, and every other cell is kept |
| CharBuffer.CopyPlaces | CBuffer.cs:69-72 | text no longer than the width is placed in row y from column x, and every other cell is kept |
| CharBuffer.AddTextWraps | CBuffer.cs:55-73 | within the grid, `AddText` places the text wrapped at the effective width and leaves every other cell alone |
| CharBuffer.AddTextInRow | CBuffer.cs:55-72 | with the default width, text that fits in the row is written there and nothing else changes |
| CharBuffer.AddTextStalls | CBuffer.cs:57-71 | on a grid of width 0, non-empty text at column 0 recurses until the stack overflows |
| CharBuffer.AddTextRunsOff | CBuffer.cs:57-71 | on a grid of positive width, non-empty text at the right edge with the default width, or with width 0, ends in an `Array.Copy` exception |
| CharBuffer.ZeroWidthExample | CBuffer.cs:57-71 | `"ab"` at column 4 of a blank 4 × 3 grid fails at row 3, whose offset 16 is past the 12 cells |
| CharBuffer.AddTextPastEdge | CBuffer.cs:61-64 | a start to the right of the grid gives a negative width, which `Substring` refuses |
| CharBuffer.PlaceText | CBuffer.cs:55-73 | the iterative placement computes `AddText`, keeping the sizes |
| CharBuffer.WrapExample | CBuffer.cs:55-77 | "abcdefg" added at (1, 0) on a blank 4×3 grid reads " abc def g  " |

## Left out

- Console output: `CBuffer.Render`, the parameterless `CBuffer` constructor, and the window-size reads in `Scene.Project` and `CRender.SetCursor`. The size becomes the `width` and `height` parameters; no drawing reaches a console.
- The `UseSpaces` and `ClearBeforeRender` flags, which only `Render` reads.
- The `empty` and `spaces` arrays of `CBuffer`, beyond the blank cells they produce.
- Console colours in `Shape.Draw` and `Csys3.Draw`: the model keeps the order of the drawn polygons only.
- IEEE single precision: rounding, the `(float)` casts, NaN and infinities. Over `real` the NaN and infinity checks of `SetCursor` never fire. Vertex sharing compares by exact value; `-0.0` and NaN are not modelled.
- Division by zero: a node level with the camera, or a zero model size, is excluded by a precondition of the projection. An empty face is excluded from `GetCenterOfFace`.
- `Vector3.Cartesian`/`Cylindrical`, `Vector2.Cartesian`/`Polar`, the `Point2` console corners and the `Line2` console factories: either trivial constructors or console reads.
- `Tetrahedron3`: its corners are trigonometric values of fixed angles, which the abstract `Maths` cannot pin down.
- `GetHashCode`, `ToString` of the geometry types, and `AnsiCodes`, `Planar` and `Program`: formatting, escape strings, dead code and the frame loop.
- STL file handling. `File.OpenRead` and `BinaryReader` become a byte sequence. The single-precision decoder is a parameter. The 80-character header is taken as 80 bytes, which assumes an ASCII header. A stream left open after an exception is not modelled.
- Stl.LoadStl: the placement transforms are stated through `Shapes`, but the contract gives only the kind, the culling flag and the face count. The face contents before placement are in `Stl.LoadedFaces`.
- CharBuffer.Write: the source throws part-way through a wrapped write, after earlier chunks were already copied. The model returns only the failure and drops that partially written grid.
- CharBuffer.AddText: inherits from `Write` the dropped partial write. When a later row's copy fails, the grid with the earlier rows already written is not returned.
- CharBuffer.ZeroWidth: the .NET stack is taken as unbounded. When the failing row is very many rows below y, the source overflows the stack before it gets there, and the model still returns that row's copy exception. An example is a 1 × 1000000 grid with `AddText(1, 0, "a")`, whose failing copy is 1,000,001 calls deep.
- Numeric.Trunc: the C# cast of a value of 2^31 or more (or below −2^31) is not truncation. Its result depends on the runtime: `int.MinValue` on older x64 runtimes, `int.MaxValue` on saturating ones. The model truncates every real. In `SetCursor` every such result lies off the console, as the model's does, so only the dot count of a line is affected.
- Render.LineDotsShape: for an extent of 2^31 or more, the source gets no truncated count from `(int)del`. It draws one big dot at `From`, or loops for ever when the cast saturates. The model asks for trunc(extent) + 1 dots. The same holds for `Render.LineDots` and the lemmas about it.

## Behaviour of the source worth noting

- A line shorter than half a cell draws nothing at all (`Render.LineDotsShape`).
- A truncated STL file is an error only when a float is missing. `ReadBytes(2)` returns short at the end of the stream instead of throwing, so the last record may lack its two attribute bytes (`Stl.ReadFacets`).
- A box centred on the camera axis keeps only the face toward the camera (`Scenes.OnAxisCube`). The camera lies inside the planes of the four side faces, so they face away from it, as does the bottom.
- The `CBuffer` constructor multiplies `width * height` in 32 bits. A product that wraps to a non-negative count gives an array that does not cover the grid (`CharBuffer.NewWrapsAround`).
- `AddText` with width 0 and text left calls itself for the next row for ever, copying nothing. On a grid of width 0 this ends in a stack overflow. On any other grid the row offset moves on until a zero-length `Array.Copy` throws, provided the failing row is few enough calls deep for the stack (`CharBuffer.ZeroWidth`, `CharBuffer.ZeroWidthExample`).
