/** The rasteriser (CRender.cs). The console is replaced by the sequence of marks
    the drawing calls would write: each mark is a cell and the glyph written
    there, in the order of the writes. The console size is a parameter. */
module Render {
  import opened Numeric
  import opened Results
  import opened Vectors2
  import opened Lines
  import Triangles
  import Polygons

  /** A cell of the console grid: column and row. */
  datatype Cell = Cell(col: int, row: int)

  /** One write to the console: a glyph at a cell. */
  datatype Mark = Mark(at: Cell, glyph: char)

  /** A dot the line drawer asks for, in screen coordinates, before the bounds test. */
  datatype Dot = Dot(at: Vector2, big: bool)

  const BigGlyph: char := '■'
  const SmallGlyph: char := '·'

  function Glyph(big: bool): char {
    if big then BigGlyph else SmallGlyph
  }

  /** The bounds test: both coordinates are moved half a cell and truncated toward
      zero, and the cell must lie on a `width` by `height` console. */
  function SetCursor(x: real, y: real, width: int, height: int): (r: Option<Cell>)
    ensures r.Some? <==> (0 < width && 0 < height
                          && -1.5 < x < width as real - 0.5 && -1.5 < y < height as real - 0.5)
    ensures r.Some? ==> 0 <= r.value.col < width && 0 <= r.value.row < height
    ensures r.Some? && -0.5 <= x ==> r.value.col as real - 0.5 <= x < r.value.col as real + 0.5
    ensures r.Some? && -0.5 <= y ==> r.value.row as real - 0.5 <= y < r.value.row as real + 0.5
    ensures r.Some? && x < -0.5 ==> r.value.col == 0
    ensures r.Some? && y < -0.5 ==> r.value.row == 0
  {
    var px, py := Trunc(x + 0.5), Trunc(y + 0.5);
    TruncInRange(x + 0.5, width);
    TruncInRange(y + 0.5, height);
    if 0 <= px < width && 0 <= py < height then Some(Cell(px, py)) else None
  }

  /** `DrawDot(x, y, big)`: one mark when the bounds test accepts the point, none
      otherwise (the source returns whether it drew). */
  function DrawDot(x: real, y: real, big: bool, width: int, height: int): (r: seq<Mark>)
    ensures |r| <= 1
    ensures |r| == 1 <==> SetCursor(x, y, width, height).Some?
    ensures |r| == 1 ==> r[0] == Mark(SetCursor(x, y, width, height).value, Glyph(big))
  {
    match SetCursor(x, y, width, height)
    case Some(cell) => [Mark(cell, Glyph(big))]
    case None => []
  }

  /** `Vector2.Draw(big)`: a dot at a position. */
  function DrawPoint(v: Vector2, big: bool, width: int, height: int): seq<Mark> {
    DrawDot(v.x, v.y, big, width, height)
  }

  /** Sends requested dots through the bounds test, in order, dropping those
      that fall off the console. */
  function Emit(dots: seq<Dot>, width: int, height: int): (r: seq<Mark>)
    ensures |r| <= |dots|
    ensures forall k :: 0 <= k < |r| ==> 0 <= r[k].at.col < width && 0 <= r[k].at.row < height
    ensures (forall k :: 0 <= k < |dots| ==> SetCursor(dots[k].at.x, dots[k].at.y, width, height).Some?)
            ==> |r| == |dots|
  {
    if dots == [] then []
    else DrawPoint(dots[0].at, dots[0].big, width, height) + Emit(dots[1..], width, height)
  }

  /** Emitting two runs of dots one after the other writes the marks of each in turn. */
  lemma {:induction false} EmitAppend(a: seq<Dot>, b: seq<Dot>, width: int, height: int)
    ensures Emit(a + b, width, height) == Emit(a, width, height) + Emit(b, width, height)
  {
    if a == [] {
      assert a + b == b;
    } else {
      EmitAppend(a[1..], b, width, height);
      ConsJoin(a, b);
      EmitCons(a, width, height);
      EmitCons(a + b, width, height);
      HeadThenRest(Emit(a + b, width, height), Emit(a, width, height), Emit(b, width, height),
                   DrawPoint(a[0].at, a[0].big, width, height), Emit(a[1..], width, height));
    }
  }

  lemma HeadThenRest<T>(joined: seq<T>, front: seq<T>, back: seq<T>, head: seq<T>, rest: seq<T>)
    requires joined == head + (rest + back) && front == head + rest
    ensures joined == front + back
  {
  }

  lemma ConsJoin<T>(a: seq<T>, b: seq<T>)
    requires a != []
    ensures (a + b)[0] == a[0] && (a + b)[1..] == a[1..] + b
  {
  }

  // ---------------------------------------------------------------------------
  // Lines

  /** The larger of the two axis extents of a segment. */
  function Extent(l: Line2): (e: real)
    ensures e >= 0.0
    ensures Abs(l.to.x - l.from.x) <= e && Abs(l.to.y - l.from.y) <= e
    ensures e == Abs(l.to.x - l.from.x) || e == Abs(l.to.y - l.from.y)
  {
    Max(Abs(l.to.x - l.from.x), Abs(l.to.y - l.from.y))
  }

  /** The point `i/n` of the way along the segment. */
  function Along(l: Line2, i: int, n: int): Vector2
    requires n > 0
  {
    Vector2(l.from.x + ((l.to.x - l.from.x) * i as real) / n as real,
            l.from.y + ((l.to.y - l.from.y) * i as real) / n as real)
  }

  /** The dots `Line2.Draw` asks for. Shorter than half a cell: none. Shorter than
      one cell: a single big dot at the start. Otherwise `n + 1` dots, `n` the
      truncated extent, evenly spaced from start to end, big at both ends only. */
  function LineDots(l: Line2): seq<Dot> {
    var del := Extent(l);
    if del < 0.5 then []
    else
      var n := Trunc(del);
      if n > 0 then seq(n + 1, i requires 0 <= i <= n => Dot(Along(l, i, n), i == 0 || i == n))
      else [Dot(l.from, true)]
  }

  /** `Line2.Draw`. */
  function DrawLine(l: Line2, width: int, height: int): seq<Mark> {
    Emit(LineDots(l), width, height)
  }

  /** How many dots a segment asks for, and which of them are big. */
  lemma LineDotsShape(l: Line2)
    ensures Extent(l) < 0.5 ==> LineDots(l) == []
    ensures 0.5 <= Extent(l) < 1.0 ==> LineDots(l) == [Dot(l.from, true)]
    ensures Extent(l) >= 1.0 ==> |LineDots(l)| == Trunc(Extent(l)) + 1 >= 2
    ensures Extent(l) >= 1.0 ==> LineDots(l)[0] == Dot(l.from, true)
    ensures Extent(l) >= 1.0 ==> LineDots(l)[|LineDots(l)| - 1] == Dot(l.to, true)
    ensures Extent(l) >= 1.0 ==> forall i :: 0 < i < |LineDots(l)| - 1 ==> !LineDots(l)[i].big
  {
    var del := Extent(l);
    if del >= 1.0 {
      var n := Trunc(del);
      assert n >= 1;
      AlongEnds(l, n);
    }
  }

  lemma AlongEnds(l: Line2, n: int)
    requires n > 0
    ensures Along(l, 0, n) == l.from
    ensures Along(l, n, n) == l.to
  {
    var N := n as real;
    assert ((l.to.x - l.from.x) * N) / N == l.to.x - l.from.x;
    assert ((l.to.y - l.from.y) * N) / N == l.to.y - l.from.y;
  }

  /** The dots of a segment at least one cell long lie at `i/n` of the way along it. */
  lemma LineDotsAlong(l: Line2, i: int)
    requires Extent(l) >= 1.0
    requires 0 <= i < |LineDots(l)|
    ensures Trunc(Extent(l)) > 0 && |LineDots(l)| == Trunc(Extent(l)) + 1
    ensures LineDots(l)[i].at == Along(l, i, Trunc(Extent(l)))
  {
  }

  /** Consecutive dots of a segment at least one cell long are the same step
      apart, one `n`-th of the span; along the longer axis that step is at least
      one cell and less than two, so the dots never fall into one cell but may
      leave a one-cell gap. */
  lemma LineDotsSpacing(l: Line2, i: int)
    requires Extent(l) >= 1.0
    requires 0 <= i < |LineDots(l)| - 1
    ensures Sub(LineDots(l)[i + 1].at, LineDots(l)[i].at) == Div(Span(l), Trunc(Extent(l)) as real)
    ensures 1.0 <= Extent(l) / Trunc(Extent(l)) as real < 2.0
  {
    var n := Trunc(Extent(l));
    LineDotsAlong(l, i);
    LineDotsAlong(l, i + 1);
    AlongStep(l, i, n);
    StepRatio(Extent(l), n);
  }

  lemma AlongStep(l: Line2, i: int, n: int)
    requires n > 0
    ensures Sub(Along(l, i + 1, n), Along(l, i, n)) == Div(Span(l), n as real)
  {
    StepOf(l.to.x - l.from.x, i, n as real);
    StepOf(l.to.y - l.from.y, i, n as real);
  }

  lemma StepOf(d: real, i: int, N: real)
    requires N > 0.0
    ensures (d * (i + 1) as real) / N - (d * i as real) / N == d / N
  {
  }

  lemma StepRatio(del: real, n: int)
    requires del >= 1.0 && n == Trunc(del)
    ensures n > 0 && 1.0 <= del / n as real < 2.0
  {
    var N := n as real;
    assert N <= del < N + 1.0;
    assert del < 2.0 * N;
  }

  /** Drawing a segment backwards asks for the same number of dots. For a segment
      at least a cell long they are the same dots in the opposite order; a
      segment under one cell marks its start, so reversing it moves the dot. */
  lemma LineDotsReverse(l: Line2)
    ensures |LineDots(Line2(l.to, l.from))| == |LineDots(l)|
    ensures Extent(l) >= 1.0 ==> forall i :: 0 <= i < |LineDots(l)| ==>
      LineDots(Line2(l.to, l.from))[i] == LineDots(l)[|LineDots(l)| - 1 - i]
    ensures 0.5 <= Extent(l) < 1.0 ==> LineDots(Line2(l.to, l.from)) == [Dot(l.to, true)]
  {
    var r := Line2(l.to, l.from);
    ExtentReverse(l);
    var del := Extent(l);
    if del >= 1.0 {
      var n := Trunc(del);
      forall i | 0 <= i <= n
        ensures LineDots(r)[i] == LineDots(l)[n - i]
      {
        LineDotsAlong(l, n - i);
        LineDotsAlong(r, i);
        AlongReverse(l, i, n);
      }
    }
  }

  lemma ExtentReverse(l: Line2)
    ensures Extent(Line2(l.to, l.from)) == Extent(l)
  {
    assert Abs(l.from.x - l.to.x) == Abs(l.to.x - l.from.x);
    assert Abs(l.from.y - l.to.y) == Abs(l.to.y - l.from.y);
  }

  lemma AlongReverse(l: Line2, i: int, n: int)
    requires 0 <= i <= n && n > 0
    ensures Along(Line2(l.to, l.from), i, n) == Along(l, n - i, n)
  {
    ReverseOf(l.from.x, l.to.x, i, n as real);
    ReverseOf(l.from.y, l.to.y, i, n as real);
  }

  lemma ReverseOf(a: real, b: real, i: int, N: real)
    requires N > 0.0
    ensures b + ((a - b) * i as real) / N == a + ((b - a) * (N - i as real)) / N
  {
    assert ((b - a) * (N - i as real)) / N == (b - a) - ((b - a) * i as real) / N;
  }

  /** `v` lies between `a` and `b`, in either order. */
  predicate Between(v: real, a: real, b: real) {
    (a <= v <= b) || (b <= v <= a)
  }

  /** A dot inside the bounding box of a segment. */
  predicate DotWithin(d: Dot, l: Line2) {
    Between(d.at.x, l.from.x, l.to.x) && Between(d.at.y, l.from.y, l.to.y)
  }

  /** A cell between the cells of a segment's endpoints, on both axes. */
  predicate CellWithin(c: Cell, l: Line2) {
    && Trunc(Min(l.from.x, l.to.x) + 0.5) <= c.col <= Trunc(Max(l.from.x, l.to.x) + 0.5)
    && Trunc(Min(l.from.y, l.to.y) + 0.5) <= c.row <= Trunc(Max(l.from.y, l.to.y) + 0.5)
  }

  /** A segment never marks a cell outside the box spanned by the cells of its
      two endpoints: every dot lies between the endpoints, and rounding to a
      cell keeps that order. */
  lemma LineMarksWithin(l: Line2, width: int, height: int)
    ensures forall k :: 0 <= k < |DrawLine(l, width, height)| ==> CellWithin(DrawLine(l, width, height)[k].at, l)
  {
    LineDotsWithin(l);
    EmitWithin(LineDots(l), l, width, height);
  }

  lemma LineDotsWithin(l: Line2)
    ensures forall i :: 0 <= i < |LineDots(l)| ==> DotWithin(LineDots(l)[i], l)
  {
    if Extent(l) >= 1.0 {
      forall i | 0 <= i < |LineDots(l)|
        ensures DotWithin(LineDots(l)[i], l)
      {
        AlongWithin(l, i);
      }
    } else {
      LineDotsShape(l);
    }
  }

  lemma AlongWithin(l: Line2, i: int)
    requires Extent(l) >= 1.0 && 0 <= i < |LineDots(l)|
    ensures DotWithin(LineDots(l)[i], l)
  {
    var n := Trunc(Extent(l));
    LineDotsAlong(l, i);
    AlongBetween(l, i, n);
  }

  lemma AlongBetween(l: Line2, i: int, n: int)
    requires 0 <= i <= n && n > 0
    ensures Between(Along(l, i, n).x, l.from.x, l.to.x) && Between(Along(l, i, n).y, l.from.y, l.to.y)
  {
    AlongX(l, i, n);
    AlongY(l, i, n);
    FractionBetween(l.from.x, l.to.x, i, n, Along(l, i, n).x);
    FractionBetween(l.from.y, l.to.y, i, n, Along(l, i, n).y);
  }

  lemma AlongX(l: Line2, i: int, n: int)
    requires n > 0
    ensures Along(l, i, n).x == l.from.x + ((l.to.x - l.from.x) * i as real) / n as real
  {
  }

  lemma AlongY(l: Line2, i: int, n: int)
    requires n > 0
    ensures Along(l, i, n).y == l.from.y + ((l.to.y - l.from.y) * i as real) / n as real
  {
  }

  lemma FractionBetween(a: real, b: real, i: int, n: int, v: real)
    requires 0 <= i <= n && n > 0 && v == a + ((b - a) * i as real) / n as real
    ensures Between(v, a, b)
  {
    var f := i as real / n as real;
    assert 0.0 <= f <= 1.0;
    assert ((b - a) * i as real) / n as real == (b - a) * f;
    var d, g := b - a, 1.0 - f;
    assert d - d * f == d * g;
    if d >= 0.0 {
      ProductSign(d, f);
      ProductSign(d, g);
    } else {
      ProductSign(-d, f);
      ProductSign(-d, g);
    }
  }

  lemma ProductSign(p: real, q: real)
    requires p >= 0.0 && q >= 0.0
    ensures p * q >= 0.0 && (-p) * q <= 0.0
  {
  }

  lemma {:induction false} EmitWithin(dots: seq<Dot>, l: Line2, width: int, height: int)
    requires forall i :: 0 <= i < |dots| ==> DotWithin(dots[i], l)
    ensures forall k :: 0 <= k < |Emit(dots, width, height)| ==> CellWithin(Emit(dots, width, height)[k].at, l)
    decreases |dots|
  {
    if dots != [] {
      EmitWithin(dots[1..], l, width, height);
      DotMarksWithin(dots[0], l, width, height);
      EmitCons(dots, width, height);
      MarksWithinJoin(DrawPoint(dots[0].at, dots[0].big, width, height), Emit(dots[1..], width, height), l);
    }
  }

  lemma EmitCons(dots: seq<Dot>, width: int, height: int)
    requires dots != []
    ensures Emit(dots, width, height) == DrawPoint(dots[0].at, dots[0].big, width, height) + Emit(dots[1..], width, height)
  {
  }

  /** The mark of one dot between a segment's endpoints lies in the segment's cell box. */
  lemma DotMarksWithin(d: Dot, l: Line2, width: int, height: int)
    requires DotWithin(d, l)
    ensures forall k :: 0 <= k < |DrawPoint(d.at, d.big, width, height)| ==> CellWithin(DrawPoint(d.at, d.big, width, height)[k].at, l)
  {
    var head := DrawPoint(d.at, d.big, width, height);
    if |head| == 1 {
      assert head[0].at == Cell(Trunc(d.at.x + 0.5), Trunc(d.at.y + 0.5));
      TruncMonotone(Min(l.from.x, l.to.x) + 0.5, d.at.x + 0.5);
      TruncMonotone(d.at.x + 0.5, Max(l.from.x, l.to.x) + 0.5);
      TruncMonotone(Min(l.from.y, l.to.y) + 0.5, d.at.y + 0.5);
      TruncMonotone(d.at.y + 0.5, Max(l.from.y, l.to.y) + 0.5);
    }
  }

  lemma MarksWithinJoin(a: seq<Mark>, b: seq<Mark>, l: Line2)
    requires forall k :: 0 <= k < |a| ==> CellWithin(a[k].at, l)
    requires forall k :: 0 <= k < |b| ==> CellWithin(b[k].at, l)
    ensures forall k :: 0 <= k < |a + b| ==> CellWithin((a + b)[k].at, l)
  {
  }

  lemma TruncMonotone(a: real, b: real)
    requires a <= b
    ensures Trunc(a) <= Trunc(b)
  {
  }

  // ---------------------------------------------------------------------------
  // Edge lists, triangles and polygons

  /** `Line2[].Draw`: the edges drawn one after another, in order. */
  function DrawEdges(edges: seq<Line2>, width: int, height: int): seq<Mark> {
    if edges == [] then []
    else DrawEdges(edges[..|edges| - 1], width, height) + DrawLine(edges[|edges| - 1], width, height)
  }

  /** Drawing two edge lists one after the other is drawing their concatenation. */
  lemma {:induction false} DrawEdgesAppend(a: seq<Line2>, b: seq<Line2>, width: int, height: int)
    ensures DrawEdges(a + b, width, height) == DrawEdges(a, width, height) + DrawEdges(b, width, height)
    decreases |b|
  {
    if b != [] {
      var b' := b[..|b| - 1];
      assert (a + b)[..|a + b| - 1] == a + b';
      assert (a + b)[|a + b| - 1] == b[|b| - 1];
      DrawEdgesAppend(a, b', width, height);
    } else {
      assert a + b == a;
    }
  }

  /** `Triangle2.Draw`: its three sides a→b, b→c, c→a, in that order. */
  function DrawTriangle(t: Triangles.Triangle2, width: int, height: int): seq<Mark> {
    DrawLine(Line2(t.a, t.b), width, height)
      + DrawLine(Line2(t.b, t.c), width, height)
      + DrawLine(Line2(t.c, t.a), width, height)
  }

  /** Drawing a triangle is drawing its edge list. */
  lemma TriangleDrawsEdges(t: Triangles.Triangle2, width: int, height: int)
    ensures DrawTriangle(t, width, height) == DrawEdges(Triangles.Edges(t), width, height)
  {
    var e := Triangles.Edges(t);
    assert e[..2] == [e[0], e[1]];
    assert e[..2][..1] == [e[0]];
    assert e[..2][..1][..0] == [];
    assert DrawEdges([e[0]], width, height) == DrawLine(e[0], width, height);
  }

  /** `Polygon2.Draw`: its edges when it has any, else one big dot for a single
      vertex, else nothing. */
  function DrawPolygon(p: Polygons.Polygon2, width: int, height: int): seq<Mark> {
    var edges := Polygons.Edges(p);
    if |edges| > 0 then DrawEdges(edges, width, height)
    else if |p.vertices| == 1 then DrawPoint(p.vertices[0], true, width, height)
    else []
  }

  /** A triangle draws exactly like the polygon on its three corners. */
  lemma TriangleAsPolygon(t: Triangles.Triangle2, width: int, height: int)
    ensures DrawTriangle(t, width, height) == DrawPolygon(Polygons.Polygon2([t.a, t.b, t.c]), width, height)
  {
    TriangleDrawsEdges(t, width, height);
    Polygons.TriangleIsPolygon(t);
  }

  /** A polygon without edges: one big dot for a single vertex, nothing for none. */
  lemma DrawSmallPolygon(p: Polygons.Polygon2, width: int, height: int)
    requires |p.vertices| <= 1
    ensures |p.vertices| == 0 ==> DrawPolygon(p, width, height) == []
    ensures |p.vertices| == 1 ==> DrawPolygon(p, width, height) == DrawDot(p.vertices[0].x, p.vertices[0].y, true, width, height)
  {
  }

  /** A polygon with at least two vertices draws its open chain of edges and then
      the closing edge from the last vertex back to the first. */
  lemma DrawLargePolygon(p: Polygons.Polygon2, width: int, height: int)
    requires |p.vertices| >= 2
    ensures DrawPolygon(p, width, height)
         == DrawEdges(Polygons.Edges(p)[..|p.vertices| - 1], width, height)
          + DrawLine(Line2(p.vertices[|p.vertices| - 1], p.vertices[0]), width, height)
  {
    Polygons.ClosingEdge(p);
    DrawManyEdges(p, width, height);
    DrawEdgesLast(Polygons.Edges(p), |p.vertices|, Line2(p.vertices[|p.vertices| - 1], p.vertices[0]), width, height);
  }

  lemma DrawManyEdges(p: Polygons.Polygon2, width: int, height: int)
    requires |Polygons.Edges(p)| > 0
    ensures DrawPolygon(p, width, height) == DrawEdges(Polygons.Edges(p), width, height)
  {
  }

  lemma DrawEdgesLast(edges: seq<Line2>, n: int, last: Line2, width: int, height: int)
    requires |edges| == n > 0 && edges[n - 1] == last
    ensures DrawEdges(edges, width, height)
         == DrawEdges(edges[..n - 1], width, height) + DrawLine(last, width, height)
  {
  }
}
