/** Triangles on the screen plane (Geometry/Triangle2.cs): three corners and the
    three edges that run round them. */
module Triangles {
  import opened Vectors2
  import opened Lines

  datatype Triangle2 = Triangle2(a: Vector2, b: Vector2, c: Vector2)

  /** The edges a→b, b→c and c→a, as the constructor stores them. */
  function Edges(t: Triangle2): (r: seq<Line2>)
    ensures |r| == 3
    ensures forall i :: 0 <= i < 3 ==> r[i].to == r[(i + 1) % 3].from
    ensures r[0].from == t.a && r[1].from == t.b && r[2].from == t.c
  {
    [Line2(t.a, t.b), Line2(t.b, t.c), Line2(t.c, t.a)]
  }

  /** `triangle + delta`: every corner moved by the same vector. */
  function Translate(t: Triangle2, delta: Vector2): Triangle2 {
    Triangle2(Add(t.a, delta), Add(t.b, delta), Add(t.c, delta))
  }

  /** The edges of a moved triangle are the moved edges. */
  lemma TranslateEdges(t: Triangle2, delta: Vector2)
    ensures |Edges(Translate(t, delta))| == |Edges(t)|
    ensures forall i :: 0 <= i < 3 ==> Edges(Translate(t, delta))[i] == Lines.Translate(Edges(t)[i], delta)
  {
  }

  /** Moving by a vector and back again restores the triangle. */
  lemma TranslateInverse(t: Triangle2, delta: Vector2)
    ensures Translate(Translate(t, delta), Neg(delta)) == t
  {
  }
}
