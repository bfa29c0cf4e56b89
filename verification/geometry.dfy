/** Geometric primitives shared by both mesh generators: a 2D point with vector
    arithmetic, and the polygon connectivity record (vertex indices plus neighbour
    indices, -1 meaning "no neighbour"). Coordinates are reals; the original
    program uses single-precision floats, whose rounding is not modelled. */
module Geometry {

  /** A point (or vector) in the plane. */
  datatype Node = Node(x: real, y: real)

  function Add(a: Node, b: Node): Node {
    Node(a.x + b.x, a.y + b.y)
  }

  function Sub(a: Node, b: Node): Node {
    Node(a.x - b.x, a.y - b.y)
  }

  function Dot(a: Node, b: Node): real {
    a.x * b.x + a.y * b.y
  }

  /** The z-component of the 3D cross product of a and b. */
  function Cross(a: Node, b: Node): real {
    a.x * b.y - a.y * b.x
  }

  /** Subtraction undoes addition, and both act on each coordinate separately. */
  lemma AddSubInverse(a: Node, b: Node)
    ensures Sub(Add(a, b), b) == a
    ensures Add(Sub(a, b), b) == a
    ensures Add(a, b) == Add(b, a)
    ensures Add(a, b).x == a.x + b.x && Add(a, b).y == a.y + b.y
    ensures Sub(a, b).x == a.x - b.x && Sub(a, b).y == a.y - b.y
  {
  }

  lemma DotSymmetric(a: Node, b: Node)
    ensures Dot(a, b) == Dot(b, a)
  {
  }

  lemma CrossAntisymmetric(a: Node, b: Node)
    ensures Cross(a, b) == -Cross(b, a)
    ensures Cross(a, a) == 0.0
  {
  }

  /** Translating both operands of a difference leaves it unchanged, so the dot and
      cross products of edge vectors do not depend on where the origin is. */
  lemma DifferenceTranslationInvariant(a: Node, b: Node, t: Node)
    ensures Sub(Add(a, t), Add(b, t)) == Sub(a, b)
  {
  }

  /** A connectivity record: `vertices[k]` indexes the point list and `edges[k]`
      the record list of neighbours, -1 where there is none. */
  datatype Polygon = Polygon(vertices: seq<int>, edges: seq<int>)

  /** The record built by the polygon constructor: n zero vertex indices and n
      neighbour entries all equal to val. */
  function NewPolygon(n: nat, val: int): (p: Polygon)
    ensures |p.vertices| == n && |p.edges| == n
    ensures forall k :: 0 <= k < n ==> p.vertices[k] == 0 && p.edges[k] == val
  {
    Polygon(seq(n, _ => 0), seq(n, _ => val))
  }

  /** A fresh triangle: three vertices and three neighbours, none of them set. */
  function NewTriangle(): (t: Polygon)
    ensures |t.vertices| == 3 && t.edges == [-1, -1, -1]
  {
    NewPolygon(3, -1)
  }

  /** A fresh quadrilateral cell: four vertices and four neighbours, none of them set. */
  function NewRectangle(): (r: Polygon)
    ensures |r.vertices| == 4 && r.edges == [-1, -1, -1, -1]
  {
    NewPolygon(4, -1)
  }
}
