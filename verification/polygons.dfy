/** Polygons on the screen plane (Geometry/Polygon2.cs): a vertex list and the
    closed chain of edges through it. */
module Polygons {
  import opened Vectors2
  import opened Lines
  import Triangles

  datatype Polygon2 = Polygon2(vertices: seq<Vector2>)

  /** The closed chain through the vertices: edge `i` runs from vertex `i` to the
      next one, wrapping round to the first. With fewer than two vertices there
      are no edges. */
  function Chain(vertices: seq<Vector2>): seq<Line2> {
    if |vertices| <= 1 then []
    else seq(|vertices|, i requires 0 <= i < |vertices| => Line2(vertices[i], vertices[(i + 1) % |vertices|]))
  }

  /** The edges the constructor stores, computed as the source does: one pass
      joining each vertex to the next, then the closing edge back to the first. */
  method GetEdges(vertices: seq<Vector2>) returns (edges: seq<Line2>)
    ensures edges == Chain(vertices)
    ensures |vertices| > 1 ==> |edges| == |vertices|
    ensures |vertices| <= 1 ==> edges == []
  {
    edges := [];
    if |vertices| > 1 {
      var point := vertices[0];
      var i := 1;
      while i < |vertices|
        invariant 1 <= i <= |vertices|
        invariant point == vertices[i - 1]
        invariant |edges| == i - 1
        invariant forall j :: 0 <= j < i - 1 ==> edges[j] == Line2(vertices[j], vertices[j + 1])
      {
        var next := vertices[i];
        edges := edges + [To(point, next)];
        point := next;
        i := i + 1;
      }
      edges := edges + [To(point, vertices[0])];
      ChainOfSteps(vertices, edges);
    }
  }

  /** Edges joining each vertex to the next, then the last back to the first,
      form the chain. */
  lemma ChainOfSteps(vertices: seq<Vector2>, edges: seq<Line2>)
    requires |vertices| > 1 && |edges| == |vertices|
    requires forall j :: 0 <= j < |vertices| - 1 ==> edges[j] == Line2(vertices[j], vertices[j + 1])
    requires edges[|vertices| - 1] == Line2(vertices[|vertices| - 1], vertices[0])
    ensures edges == Chain(vertices)
  {
    var c := Chain(vertices);
    forall j | 0 <= j < |vertices|
      ensures edges[j] == c[j]
    {
      NextIndex(j, |vertices|);
    }
  }

  function Edges(p: Polygon2): seq<Line2> {
    Chain(p.vertices)
  }

  /** `polygon + delta`: every vertex moved by the same vector. */
  function Translate(p: Polygon2, delta: Vector2): (r: Polygon2)
    ensures |r.vertices| == |p.vertices|
    ensures forall i :: 0 <= i < |p.vertices| ==> r.vertices[i] == Add(p.vertices[i], delta)
  {
    Polygon2(seq(|p.vertices|, i requires 0 <= i < |p.vertices| => Add(p.vertices[i], delta)))
  }

  /** The chain is closed: each edge ends where the next begins, and the last
      ends where the first begins. */
  lemma ChainClosed(vertices: seq<Vector2>)
    requires |vertices| > 1
    ensures |Chain(vertices)| == |vertices|
    ensures forall i :: 0 <= i < |vertices| ==> Chain(vertices)[i].from == vertices[i]
    ensures forall i :: 0 <= i < |vertices| ==>
      Chain(vertices)[i].to == Chain(vertices)[(i + 1) % |vertices|].from
  {
    var n := |vertices|;
    forall i | 0 <= i < n
      ensures Chain(vertices)[i].to == Chain(vertices)[(i + 1) % n].from
    {
      NextIndex(i, n);
    }
  }

  /** The index after `i`, wrapping round at `n`. */
  lemma NextIndex(i: int, n: int)
    requires 0 <= i < n
    ensures 0 <= (i + 1) % n < n
    ensures i + 1 < n ==> (i + 1) % n == i + 1
    ensures i + 1 == n ==> (i + 1) % n == 0
  {
  }

  /** A polygon of two or more vertices has one edge per vertex, the last one
      closing the chain back to the first vertex. */
  lemma ClosingEdge(p: Polygon2)
    requires |p.vertices| >= 2
    ensures |Edges(p)| == |p.vertices|
    ensures Edges(p)[|p.vertices| - 1] == Line2(p.vertices[|p.vertices| - 1], p.vertices[0])
  {
    NextIndex(|p.vertices| - 1, |p.vertices|);
  }

  /** The edges of a moved polygon are the moved edges. */
  lemma TranslateEdges(p: Polygon2, delta: Vector2)
    ensures |Edges(Translate(p, delta))| == |Edges(p)|
    ensures forall i :: 0 <= i < |Edges(p)| ==> Edges(Translate(p, delta))[i] == Lines.Translate(Edges(p)[i], delta)
  {
  }

  /** A triangle has the edges of the polygon on its three corners. */
  lemma TriangleIsPolygon(t: Triangles.Triangle2)
    ensures Triangles.Edges(t) == Chain([t.a, t.b, t.c])
  {
  }
}
