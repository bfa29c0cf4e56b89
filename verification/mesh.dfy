/** The topology of a triangle list as the triangulator keeps it: an array of
    records whose `vertices` index the point list and whose `edges` index the
    record list, -1 meaning "no neighbour". Slot k of a record lies across the
    edge that runs from vertices[k] to vertices[(k + 1) % 3]. The last three
    points of the point list are the synthetic vertices of the enclosing
    supertriangle; every other point is a real input point. */
module Mesh {
  import opened Geometry

  /** (k + 1) % 3 for a slot k in 0..2. */
  function Next(k: int): int {
    if k == 2 then 0 else k + 1
  }

  /** (k + 2) % 3 for a slot k in 0..2. */
  function Prev(k: int): int {
    if k == 0 then 2 else k - 1
  }

  predicate Shaped(t: Polygon) {
    |t.vertices| == 3 && |t.edges| == 3
  }

  /** The first slot among 0, 1, 2 whose neighbour entry is K, or -1 when K is
      not a neighbour: the reference definition of the triangulator's edge lookup. */
  function SlotOf(edges: seq<int>, K: int): int
    requires |edges| == 3
  {
    if edges[0] == K then 0 else if edges[1] == K then 1 else if edges[2] == K then 2 else -1
  }

  /** The record with its first neighbour entry equal to K replaced by V. */
  function Relink(t: Polygon, K: int, V: int): (r: Polygon)
    requires Shaped(t) && SlotOf(t.edges, K) >= 0
    ensures Shaped(r) && r.vertices == t.vertices
  {
    t.(edges := t.edges[SlotOf(t.edges, K) := V])
  }

  /** Whether point index v is one of the three synthetic supertriangle vertices
      of a point list of length np. */
  predicate Synthetic(v: int, np: int) {
    v >= np - 3
  }

  /** Slot k of record t names a record u other than t, and u names t back in a
      slot whose edge is the same edge traversed the other way. */
  predicate Mirrors(tris: seq<Polygon>, t: int, k: int)
    requires 0 <= t < |tris| && Shaped(tris[t]) && 0 <= k < 3
    requires 0 <= tris[t].edges[k] < |tris|
  {
    var u := tris[t].edges[k];
    u != t && Shaped(tris[u]) &&
    var m := SlotOf(tris[u].edges, t);
    m >= 0 && tris[u].vertices[m] == tris[t].vertices[Next(k)]
    && tris[u].vertices[Next(m)] == tris[t].vertices[k]
  }

  /** Neighbour slot k of record t is -1 or a mirrored index into the list. */
  predicate SlotOk(tris: seq<Polygon>, t: int, k: int)
    requires 0 <= t < |tris| && Shaped(tris[t]) && 0 <= k < 3
  {
    var e := tris[t].edges[k];
    -1 <= e < |tris| && (e >= 0 ==> Mirrors(tris, t, k))
  }

  /** Record t is a well-formed triangle over np points: three distinct vertices
      in range, no neighbour listed twice, and every neighbour mirrored. */
  predicate RecordOk(tris: seq<Polygon>, np: int, t: int)
    requires 0 <= t < |tris|
  {
    var p := tris[t];
    Shaped(p)
    && 0 <= p.vertices[0] < np && 0 <= p.vertices[1] < np && 0 <= p.vertices[2] < np
    && p.vertices[0] != p.vertices[1] && p.vertices[1] != p.vertices[2] && p.vertices[2] != p.vertices[0]
    && (p.edges[0] >= 0 ==> p.edges[0] != p.edges[1] && p.edges[0] != p.edges[2])
    && (p.edges[1] >= 0 ==> p.edges[1] != p.edges[2])
    && SlotOk(tris, t, 0) && SlotOk(tris, t, 1) && SlotOk(tris, t, 2)
  }

  /** A missing neighbour of record t only ever lies along an edge of the
      supertriangle, whose two endpoints are both synthetic. */
  predicate HullOk(tris: seq<Polygon>, np: int, t: int)
    requires 0 <= t < |tris| && Shaped(tris[t])
  {
    var p := tris[t];
    (p.edges[0] < 0 ==> Synthetic(p.vertices[0], np) && Synthetic(p.vertices[1], np))
    && (p.edges[1] < 0 ==> Synthetic(p.vertices[1], np) && Synthetic(p.vertices[2], np))
    && (p.edges[2] < 0 ==> Synthetic(p.vertices[2], np) && Synthetic(p.vertices[0], np))
  }

  /** Symmetric, in-range adjacency over np points: the invariant a finished mesh keeps. */
  ghost predicate Linked(tris: seq<Polygon>, np: int) {
    forall t | 0 <= t < |tris| :: RecordOk(tris, np, t)
  }

  /** The invariant of the triangulation while points are inserted: symmetric
      adjacency, and the only boundary is the supertriangle. */
  ghost predicate MeshInv(tris: seq<Polygon>, np: int) {
    forall t | 0 <= t < |tris| :: RecordOk(tris, np, t) && HullOk(tris, np, t)
  }

  /** Record p has at least one real (non-synthetic) vertex. */
  predicate HasRealCorner(p: Polygon, np: int) {
    Shaped(p) && (!Synthetic(p.vertices[0], np) || !Synthetic(p.vertices[1], np) || !Synthetic(p.vertices[2], np))
  }

  /** Every triangle has at least one real (non-synthetic) vertex. */
  ghost predicate TouchesReal(tris: seq<Polygon>, np: int) {
    forall t {:trigger HasRealCorner(tris[t], np)} | 0 <= t < |tris| :: HasRealCorner(tris[t], np)
  }

  /** Record p has both x and y among its vertices. */
  predicate HasBoth(p: Polygon, x: int, y: int) {
    x in p.vertices && y in p.vertices
  }

  /** Some record has both x and y among its vertices: the points x and y are
      already corners of one triangle of the mesh. */
  predicate Joined(tris: seq<Polygon>, x: int, y: int) {
    exists t {:trigger HasBoth(tris[t], x, y)} | 0 <= t < |tris| :: HasBoth(tris[t], x, y)
  }

  /** Relinking slot K to V leaves the lookup of every other index alone. */
  lemma RelinkSlotOf(t: Polygon, K: int, V: int, X: int)
    requires Shaped(t) && SlotOf(t.edges, K) >= 0 && X != K && X != V
    ensures SlotOf(Relink(t, K, V).edges, X) == SlotOf(t.edges, X)
  {
  }

  /** After slot K is relinked to an index V the record did not list, V is found
      where K was. */
  lemma RelinkSlotOfNew(t: Polygon, K: int, V: int)
    requires Shaped(t) && SlotOf(t.edges, K) >= 0 && SlotOf(t.edges, V) == -1
    ensures SlotOf(Relink(t, K, V).edges, V) == SlotOf(t.edges, K)
  {
  }

  /** The invariant implies the weaker one kept by a finished mesh. */
  lemma MeshInvLinked(tris: seq<Polygon>, np: int)
    requires MeshInv(tris, np)
    ensures Linked(tris, np)
  {
  }

  /** Adjacency is symmetric as a relation on record indices: if t lists u then u
      lists t, exactly once. */
  lemma LinkedSymmetric(tris: seq<Polygon>, np: int, t: int, k: int)
    requires Linked(tris, np) && 0 <= t < |tris| && 0 <= k < 3
    requires |tris[t].edges| == 3 && tris[t].edges[k] >= 0
    ensures var u := tris[t].edges[k];
      0 <= u < |tris| && u != t && |tris[u].edges| == 3 && t in tris[u].edges
      && (forall m, m' | 0 <= m < m' < 3 :: !(tris[u].edges[m] == t && tris[u].edges[m'] == t))
  {
    assert RecordOk(tris, np, t);
    var u := tris[t].edges[k];
    assert RecordOk(tris, np, u);
    assert SlotOk(tris, t, k);
  }
}
